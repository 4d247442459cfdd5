/**
 * The arena of events both analysers build while replaying a trace.
 *
 * Every Branch, Implication, clause and Deletion object of the analysers is a
 * `Node` stored at a stable index of one growing sequence; the pointers the
 * objects hold (an implication's antecedent, a learned clause's conflicting
 * clause, the assignments that falsified their other literals) are indices
 * into that sequence.  A pointer always names an object created earlier, so
 * the dependency graph is acyclic by construction (`WF`).
 */
module EventGraph {
  import opened Wrappers
  import opened Trace

  datatype Node =
    | BranchNode(lit: int)
    | ImplicationNode(lit: int, antecedent: Option<nat>, deps: seq<nat>)
    | OriginalClauseNode(lits: seq<int>)
    | LearnedClauseNode(lits: seq<int>, conflicting: nat, deps: seq<nat>)
    | ResetNode
    | DeletionNode(clause: nat)

  predicate IsAssignment(n: Node) { n.BranchNode? || n.ImplicationNode? }

  predicate IsClause(n: Node) { n.OriginalClauseNode? || n.LearnedClauseNode? }

  /** Deletions and Resets are created required; every other event is not. */
  predicate InitiallyRequired(n: Node) { n.DeletionNode? || n.ResetNode? }

  /** The assigned literal of an assignment (0 for any other node). */
  function LitOf(n: Node): (r: int)
  {
    match n
    case BranchNode(l) => l
    case ImplicationNode(l, _, _) => l
    case _ => 0
  }

  /** The literals of a clause (none for any other node). */
  function LitsOf(n: Node): (r: seq<int>)
  {
    match n
    case OriginalClauseNode(ls) => ls
    case LearnedClauseNode(ls, _, _) => ls
    case _ => []
  }

  function VarAt(nodes: seq<Node>, i: nat): (r: nat)
    requires i < |nodes|
  {
    Var(LitOf(nodes[i]))
  }

  /**
   * The objects a node's `required` mark spreads to: an implication's
   * antecedent (when it has one) and its dependencies, a learned clause's
   * conflicting clause and its dependencies, in that order.
   */
  function Children(n: Node): (r: seq<nat>)
  {
    match n
    case ImplicationNode(_, Some(a), deps) => [a] + deps
    case LearnedClauseNode(_, c, deps) => [c] + deps
    case _ => []
  }

  /** Every pointer held by the node stored at index `k` names an earlier node. */
  predicate NodeOk(n: Node, k: nat)
  {
    && (forall c :: c in Children(n) ==> c < k)
    && (n.ImplicationNode? || n.LearnedClauseNode? ==> forall d :: d in n.deps ==> d < k)
    && (n.DeletionNode? ==> n.clause < k)
  }

  predicate WF(nodes: seq<Node>)
  {
    forall k :: 0 <= k < |nodes| ==> NodeOk(nodes[k], k)
  }

  lemma AppendWF(nodes: seq<Node>, n: Node)
    requires WF(nodes) && NodeOk(n, |nodes|)
    ensures WF(nodes + [n])
  {
    forall k | 0 <= k < |nodes| + 1
      ensures NodeOk((nodes + [n])[k], k)
    {
      if k < |nodes| {
        assert (nodes + [n])[k] == nodes[k];
      }
    }
  }

  /*
   * Marking: `set_required` / `needed`.  Marking a node that is already
   * marked does nothing; otherwise the node is marked and the mark spreads to
   * its children one after the other.  `Mark` is the state of all flags after
   * marking node `i`; `MarkAll` after marking the nodes of `cs` in order.
   */

  function Mark(nodes: seq<Node>, req: seq<bool>, i: nat): (r: seq<bool>)
    requires WF(nodes) && |req| == |nodes| && i < |nodes|
    ensures |r| == |req| && r[i]
    ensures forall k :: 0 <= k < |req| && req[k] ==> r[k]
    ensures forall k :: i < k < |req| ==> r[k] == req[k]
    decreases i, 1, 0
  {
    if req[i] then req
    else MarkAll(nodes, req[i := true], Children(nodes[i]), i)
  }

  function MarkAll(nodes: seq<Node>, req: seq<bool>, cs: seq<nat>, ghost bound: nat): (r: seq<bool>)
    requires WF(nodes) && |req| == |nodes| && bound <= |nodes|
    requires forall c :: c in cs ==> c < bound
    ensures |r| == |req|
    ensures forall k :: 0 <= k < |req| && req[k] ==> r[k]
    ensures forall c :: c in cs ==> r[c]
    ensures forall k :: bound <= k < |req| ==> r[k] == req[k]
    decreases bound, 0, |cs|
  {
    if cs == [] then req
    else
      var init, last := cs[..|cs| - 1], cs[|cs| - 1];
      assert cs == init + [last];
      assert last in cs && forall c :: c in init ==> c in cs;
      Mark(nodes, MarkAll(nodes, req, init, bound), last)
  }

  /** Node `k` can be reached from node `i` along `Children` edges. */
  ghost predicate Reaches(nodes: seq<Node>, i: nat, k: nat)
    requires WF(nodes) && i < |nodes|
    decreases i
  {
    i == k || exists c :: c in Children(nodes[i]) && Reaches(nodes, c, k)
  }

  lemma {:induction false} ReachesBelow(nodes: seq<Node>, i: nat, k: nat)
    requires WF(nodes) && i < |nodes| && Reaches(nodes, i, k)
    ensures k <= i
    decreases i
  {
    if i != k {
      var c :| c in Children(nodes[i]) && Reaches(nodes, c, k);
      ReachesBelow(nodes, c, k);
    }
  }

  /**
   * Every marked node outside `pending` has all its children marked: the
   * marking is closed, except at the nodes whose cascade is still running.
   */
  ghost predicate ClosedExcept(nodes: seq<Node>, req: seq<bool>, pending: set<nat>)
    requires WF(nodes) && |req| == |nodes|
  {
    forall k :: 0 <= k < |nodes| && req[k] && k !in pending ==>
      forall c :: c in Children(nodes[k]) ==> req[c]
  }

  ghost predicate Closed(nodes: seq<Node>, req: seq<bool>)
    requires WF(nodes) && |req| == |nodes|
  {
    ClosedExcept(nodes, req, {})
  }

  /** Under a closed marking, everything reachable from a marked node is marked. */
  lemma {:induction false} ClosedReach(nodes: seq<Node>, req: seq<bool>, pending: set<nat>, i: nat, k: nat)
    requires WF(nodes) && |req| == |nodes| && i < |nodes|
    requires ClosedExcept(nodes, req, pending) && forall p :: p in pending ==> i < p
    requires req[i] && Reaches(nodes, i, k)
    ensures k <= i && req[k]
    decreases i
  {
    if i != k {
      var c :| c in Children(nodes[i]) && Reaches(nodes, c, k);
      ClosedReach(nodes, req, pending, c, k);
    }
  }

  lemma {:induction false} MarkSpec(nodes: seq<Node>, req: seq<bool>, i: nat, pending: set<nat>)
    requires WF(nodes) && |req| == |nodes| && i < |nodes|
    requires ClosedExcept(nodes, req, pending) && forall p :: p in pending ==> i < p
    ensures ClosedExcept(nodes, Mark(nodes, req, i), pending)
    ensures forall k :: 0 <= k < |nodes| ==>
      (Mark(nodes, req, i)[k] <==> req[k] || Reaches(nodes, i, k))
    decreases i, 1, 0
  {
    if req[i] {
      forall k | 0 <= k < |nodes| && Reaches(nodes, i, k)
        ensures req[k]
      {
        ClosedReach(nodes, req, pending, i, k);
      }
    } else {
      var req' := req[i := true];
      var cs := Children(nodes[i]);
      assert ClosedExcept(nodes, req', pending + {i});
      MarkAllSpec(nodes, req', cs, i, pending + {i});
      var r := Mark(nodes, req, i);
      assert r == MarkAll(nodes, req', cs, i);
      forall k | 0 <= k < |nodes|
        ensures r[k] <==> req[k] || Reaches(nodes, i, k)
      {
        if Reaches(nodes, i, k) && k != i {
          var c :| c in cs && Reaches(nodes, c, k);
        }
      }
    }
  }

  lemma {:induction false} MarkAllSpec(nodes: seq<Node>, req: seq<bool>, cs: seq<nat>, bound: nat, pending: set<nat>)
    requires WF(nodes) && |req| == |nodes| && bound <= |nodes|
    requires forall c :: c in cs ==> c < bound
    requires ClosedExcept(nodes, req, pending) && forall p :: p in pending ==> bound <= p
    ensures ClosedExcept(nodes, MarkAll(nodes, req, cs, bound), pending)
    ensures forall k :: 0 <= k < |nodes| ==>
      (MarkAll(nodes, req, cs, bound)[k] <==> req[k] || exists c :: c in cs && Reaches(nodes, c, k))
    decreases bound, 0, |cs|
  {
    if cs != [] {
      var init, last := cs[..|cs| - 1], cs[|cs| - 1];
      assert cs == init + [last];
      assert last in cs && forall c :: c in init ==> c in cs;
      MarkAllSpec(nodes, req, init, bound, pending);
      var m := MarkAll(nodes, req, init, bound);
      MarkSpec(nodes, m, last, pending);
      forall k | 0 <= k < |nodes|
        ensures MarkAll(nodes, req, cs, bound)[k] <==> req[k] || exists c :: c in cs && Reaches(nodes, c, k)
      {
        if exists c :: c in cs && Reaches(nodes, c, k) {
          var c :| c in cs && Reaches(nodes, c, k);
          if c != last {
            assert c in init;
          }
        }
      }
    }
  }

  /**
   * Marking the terminal clause from a closed marking (before it, only the
   * Deletions are marked, and they have no children) leaves a closed marking
   * whose newly marked nodes are exactly the nodes reachable from it.
   */
  lemma MarkClosure(nodes: seq<Node>, req: seq<bool>, i: nat)
    requires WF(nodes) && |req| == |nodes| && i < |nodes| && Closed(nodes, req)
    ensures Closed(nodes, Mark(nodes, req, i))
    ensures forall k :: 0 <= k < |nodes| ==>
      (Mark(nodes, req, i)[k] <==> req[k] || Reaches(nodes, i, k))
  {
    MarkSpec(nodes, req, i, {});
  }

  /** Marking again changes nothing (the early return on a marked node). */
  lemma MarkIdempotent(nodes: seq<Node>, req: seq<bool>, i: nat, j: nat)
    requires WF(nodes) && |req| == |nodes| && i < |nodes| && Closed(nodes, req)
    requires Reaches(nodes, i, j)
    ensures j < |nodes| && Mark(nodes, Mark(nodes, req, i), j) == Mark(nodes, req, i)
  {
    MarkClosure(nodes, req, i);
    ReachesBelow(nodes, i, j);
  }

  /*
   * Skippability (analyze_trace.cc only): an event is skippable when
   * leaving it out of the minimised trace loses nothing required.
   */

  /** The memo an Implication or LearnedClause keeps of its skippability. */
  datatype SkipMemo = Unknown | Skip | NoSkip

  function Skippable(nodes: seq<Node>, req: seq<bool>, i: nat): (r: bool)
    requires WF(nodes) && |req| == |nodes| && i < |nodes|
    decreases i
  {
    match nodes[i]
    case BranchNode(_) => !req[i]
    case ImplicationNode(_, ante, deps) =>
      assert ante.Some? ==> ante.value in Children(nodes[i]);
      assert forall j :: 0 <= j < |deps| ==> deps[j] in deps;
      !req[i] &&
      (ante.None? || Skippable(nodes, req, ante.value) ||
       exists j :: 0 <= j < |deps| && Skippable(nodes, req, deps[j]))
    case LearnedClauseNode(_, c, deps) =>
      assert c in Children(nodes[i]);
      assert forall j :: 0 <= j < |deps| ==> deps[j] in Children(nodes[i]);
      !req[i] &&
      (Skippable(nodes, req, c) ||
       exists j :: 0 <= j < |deps| && Skippable(nodes, req, deps[j]))
    case _ => false
  }

  /** Only an unrequired event can be skippable. */
  lemma SkippableUnrequired(nodes: seq<Node>, req: seq<bool>, i: nat)
    requires WF(nodes) && |req| == |nodes| && i < |nodes|
    ensures Skippable(nodes, req, i) ==> !req[i]
  {
  }

  /** An unrequired Branch, or an unrequired Implication without an antecedent. */
  predicate FreeDecision(nodes: seq<Node>, req: seq<bool>, k: nat)
    requires |req| == |nodes| && k < |nodes|
  {
    !req[k] && (nodes[k].BranchNode? || (nodes[k].ImplicationNode? && nodes[k].antecedent.None?))
  }

  /**
   * A skippable event rests on an unrequired decision: it reaches, along
   * antecedents and dependencies, a `FreeDecision`.
   */
  lemma {:induction false} SkippableRoot(nodes: seq<Node>, req: seq<bool>, i: nat)
    requires WF(nodes) && |req| == |nodes| && i < |nodes| && Skippable(nodes, req, i)
    ensures exists k :: 0 <= k < |nodes| && Reaches(nodes, i, k) && FreeDecision(nodes, req, k)
    decreases i
  {
    assert NodeOk(nodes[i], i);
    match nodes[i]
    case BranchNode(_) =>
      assert Reaches(nodes, i, i);
    case ImplicationNode(_, ante, deps) =>
      if ante.None? {
        assert Reaches(nodes, i, i);
      } else {
        assert forall j :: 0 <= j < |deps| ==> deps[j] in Children(nodes[i]);
        assert ante.value in Children(nodes[i]);
        if Skippable(nodes, req, ante.value) {
          SkipVia(nodes, req, i, ante.value);
        } else {
          var j :| 0 <= j < |deps| && Skippable(nodes, req, deps[j]);
          SkipVia(nodes, req, i, deps[j]);
        }
      }
    case LearnedClauseNode(_, c, deps) =>
      assert forall j :: 0 <= j < |deps| ==> deps[j] in Children(nodes[i]);
      assert c in Children(nodes[i]);
      if Skippable(nodes, req, c) {
        SkipVia(nodes, req, i, c);
      } else {
        var j :| 0 <= j < |deps| && Skippable(nodes, req, deps[j]);
        SkipVia(nodes, req, i, deps[j]);
      }
  }

  /** `SkippableRoot` through child `c` of `i`. */
  lemma {:induction false} SkipVia(nodes: seq<Node>, req: seq<bool>, i: nat, c: nat)
    requires WF(nodes) && |req| == |nodes| && i < |nodes|
    requires c in Children(nodes[i]) && c < |nodes| && Skippable(nodes, req, c)
    ensures exists k :: 0 <= k < |nodes| && Reaches(nodes, i, k) && FreeDecision(nodes, req, k)
    decreases i, 0
  {
    assert NodeOk(nodes[i], i);
    SkippableRoot(nodes, req, c);
    var k :| 0 <= k < |nodes| && Reaches(nodes, c, k) && FreeDecision(nodes, req, k);
    assert Reaches(nodes, i, k);
  }
}
