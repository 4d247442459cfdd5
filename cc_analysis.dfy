/**
 * The newer trace analyser (minisat/core/analysis/analyze_trace.cc).
 *
 * It replays a full solver trace (original clauses, implications, branches,
 * conflicts with their learned clauses, deletions, restarts and clause-id
 * remaps), and once the empty clause is reached marks it required, lets the
 * mark spread backwards through antecedents and dependencies, and prints
 * every event, prefixed `~ ` when skippable and `! ` when required.
 *
 * The analyser's global vectors are the fields of `Analyzer`.  Its event
 * objects live in the arena `nodes`; the per-object mutable fields
 * `required`, `skippable` and `deletion_time` are the sequences of the same
 * names, indexed by arena index.
 */
module CcAnalysis {
  import opened Wrappers
  import opened Trace
  import opened EventGraph
  import opened Trail
  import opened Remap

  /** What `print` writes for one event, after the `~ ` / `! ` prefixes. */
  datatype Printed =
    | BranchOut(lit: int)                             // `b <lit>`
    | ImplicationOut(lit: int)                        // `i <lit>`
    | ClauseOut(lits: seq<int>, deletionTime: int)    // `l1 .. ln 0 [time]`, the time only when >= 0
    | DeletionOut(lits: seq<int>, deletionTime: int)  // `d ` followed by the deleted clause
    | ResetOut                                        // `r`

  /** One output line: `~ ` when skippable, then `! ` when required, then the event. */
  datatype OutLine = OutLine(skippable: bool, required: bool, event: Printed)

  datatype Outcome =
    | Complete(emptyClause: nat, lines: seq<OutLine>)
    | Exhausted   // the trace ended before the empty clause was learned
    | Malformed   // a failed assertion or a parse error

  /**
   * What the Implication constructor captures when `lit` is implied by a
   * clause with literals `lits`: the assignments falsifying the literals on
   * other variables, provided exactly one literal is on `lit`'s variable.
   */
  function ImplicationDeps(nodes: seq<Node>, assignments: map<nat, nat>, lit: int, lits: seq<int>): (r: Option<seq<nat>>)
  {
    var others := Others(lits, Var(lit));
    if |others| == |lits| - 1 then Falsifiers(nodes, assignments, others) else None
  }

  /**
   * The capture succeeds exactly when the clause has exactly one literal
   * fewer on other variables than it has literals (so one literal is on
   * `lit`'s variable) and every literal on another variable is falsified;
   * then it holds one assignment per such literal.
   */
  lemma ImplicationDepsSpec(nodes: seq<Node>, assignments: map<nat, nat>, lit: int, lits: seq<int>)
    ensures ImplicationDeps(nodes, assignments, lit, lits).Some? <==>
      && |Others(lits, Var(lit))| == |lits| - 1
      && forall l :: l in lits && Var(l) != Var(lit) ==> Falsifies(nodes, assignments, l)
    ensures ImplicationDeps(nodes, assignments, lit, lits).Some? ==>
      && (exists j :: 0 <= j < |lits| && Var(lits[j]) == Var(lit))
      && |ImplicationDeps(nodes, assignments, lit, lits).value| == |lits| - 1
  {
    var others := Others(lits, Var(lit));
    FalsifiersSpec(nodes, assignments, others);
    forall l ensures l in others <==> l in lits && Var(l) != Var(lit) {
      OthersMember(lits, Var(lit), l);
    }
    if |others| == |lits| - 1 {
      OthersDropsOne(lits, Var(lit));
    }
  }

  /** A unit clause implies its own literal, with no dependencies, whatever the table holds. */
  lemma UnitDeps(nodes: seq<Node>, assignments: map<nat, nat>, lits: seq<int>)
    requires |lits| == 1
    ensures ImplicationDeps(nodes, assignments, lits[0], lits) == Some([])
  {
    OthersSnoc([], lits[0], Var(lits[0]));
    assert lits == [] + [lits[0]];
  }

  /** What `print` writes for event `e`: a Deletion prints the clause it deletes. */
  function Render(nodes: seq<Node>, deletionTime: seq<int>, e: nat): (r: Printed)
    requires WF(nodes) && |deletionTime| == |nodes| && e < |nodes|
  {
    match nodes[e]
    case BranchNode(l) => BranchOut(l)
    case ImplicationNode(l, _, _) => ImplicationOut(l)
    case OriginalClauseNode(ls) => ClauseOut(ls, deletionTime[e])
    case LearnedClauseNode(ls, _, _) => ClauseOut(ls, deletionTime[e])
    case ResetNode => ResetOut
    case DeletionNode(c) =>
      assert NodeOk(nodes[e], e);
      DeletionOut(LitsOf(nodes[c]), deletionTime[c])
  }

  /** A conflict above level -1 followed by a non-empty learned clause neither ends the replay nor is malformed. */
  lemma LearnedPairGoesOn(records: seq<Record>, p0: nat)
    requires p0 + 1 < |records| && records[p0].Conflict? && records[p0].level >= 0
    requires records[p0 + 1].ClauseDef? && records[p0 + 1].lits != []
    ensures forall k :: p0 <= k < p0 + 2 ==> !EndsReplay(records[k]) && !records[k].EmptyClause?
  {
  }

  /** A record other than a clause, a conflict or the empty clause neither ends the replay nor is malformed. */
  lemma RecordGoesOn(records: seq<Record>, p0: nat)
    requires p0 < |records| && !records[p0].ClauseDef? && !records[p0].Conflict? && !records[p0].EmptyClause?
    ensures forall k :: p0 <= k < p0 + 1 ==> !EndsReplay(records[k]) && !records[k].EmptyClause?
  {
  }

  /** Nor does a block of moves. */
  lemma MovesGoOn(records: seq<Record>, p0: nat, p: nat)
    requires p <= |records| && forall k :: p0 <= k < p ==> records[k].Move?
    ensures forall k :: p0 <= k < p ==> !EndsReplay(records[k]) && !records[k].EmptyClause?
  {
  }

  /** A record that can reach the empty clause: the empty unnumbered clause, or a conflict at level -1. */
  predicate EndsReplay(r: Record)
  {
    r == ClauseDef(None, []) || (r.Conflict? && r.level == -1)
  }

  /** The analyser's replay state, as one value. */
  datatype State = State(nodes: seq<Node>, clauses: seq<Option<nat>>, assignments: map<nat, nat>,
    trail: seq<nat>, trailLim: seq<nat>, eventList: seq<nat>, deletionTime: seq<int>, deletionCount: nat)

  /**
   * A learned clause `lits` on conflicting clause `conf` under `id` with
   * backtrack level `level`, caught between its two steps: `mid` is the
   * state once the clause is appended, `bt` the table the backtrack leaves.
   */
  datatype Learning = Learning(conf: nat, id: int, lits: seq<int>, level: nat, mid: State, bt: map<nat, nat>)

  class Analyzer {
    var nodes: seq<Node>
    var required: seq<bool>
    var skippable: seq<SkipMemo>
    var deletionTime: seq<int>
    var eventList: seq<nat>
    var clauses: seq<Option<nat>>
    var assignments: map<nat, nat>
    var trail: seq<nat>
    var trailLim: seq<nat>
    var deletionCount: nat

    ghost predicate Valid()
      reads this
    {
      && WF(nodes)
      && |required| == |nodes| && |skippable| == |nodes| && |deletionTime| == |nodes|
      && (forall k :: 0 <= k < |nodes| ==> -1 <= deletionTime[k] < deletionCount)
      && (forall k :: 0 <= k < |nodes| && nodes[k].DeletionNode? ==> IsClause(nodes[nodes[k].clause]))
      && (forall k :: 0 <= k < |eventList| ==> eventList[k] < |nodes|)
      && (forall id :: 0 <= id < |clauses| && clauses[id].Some? ==>
            clauses[id].value < |nodes| && IsClause(nodes[clauses[id].value]))
      && TrailOk(nodes, assignments, trail, trailLim)
    }

    /** During replay only the events created required are marked, and no memo is set. */
    ghost predicate Replaying()
      reads this
    {
      && Valid()
      && (forall k :: 0 <= k < |nodes| ==> required[k] == InitiallyRequired(nodes[k]))
      && (forall k :: 0 <= k < |nodes| ==> skippable[k] == Unknown)
    }

    constructor ()
      ensures Replaying()
      ensures nodes == [] && eventList == [] && clauses == [] && assignments == map[]
      ensures trail == [] && trailLim == [] && deletionCount == 0
    {
      nodes, required, skippable, deletionTime := [], [], [], [];
      eventList, clauses, assignments := [], [], map[];
      trail, trailLim, deletionCount := [], [], 0;
    }

    /** `new`: a fresh event object at the end of the arena, with its initial flags. */
    method Allocate(n: Node) returns (k: nat)
      requires Replaying() && NodeOk(n, |nodes|)
      requires n.DeletionNode? ==> IsClause(nodes[n.clause])
      modifies this`nodes, this`required, this`skippable, this`deletionTime
      ensures k == old(|nodes|) && nodes == old(nodes) + [n]
      ensures required == old(required) + [InitiallyRequired(n)]
      ensures skippable == old(skippable) + [Unknown] && deletionTime == old(deletionTime) + [-1]
      ensures Replaying()
    {
      k := |nodes|;
      AppendWF(nodes, n);
      AppendNodeTrailOk(nodes, n, assignments, trail, trailLim);
      nodes := nodes + [n];
      required := required + [InitiallyRequired(n)];
      skippable := skippable + [Unknown];
      deletionTime := deletionTime + [-1];
    }

    /** `add_assignment`: the variable must be unassigned. */
    method AddAssignment(k: nat)
      requires Replaying() && k < |nodes| && IsAssignment(nodes[k])
      requires VarAt(nodes, k) !in assignments
      modifies this`assignments, this`trail, this`eventList
      ensures assignments == old(assignments)[VarAt(nodes, k) := k]
      ensures trail == old(trail) + [k] && eventList == old(eventList) + [k]
      ensures Replaying()
    {
      PushTrailOk(nodes, assignments, trail, trailLim, k);
      assignments := assignments[VarAt(nodes, k) := k];
      trail := trail + [k];
      eventList := eventList + [k];
    }

    /**
     * Assignment `n` was appended to the arena, assigned and logged; nothing
     * else changed.
     */
    twostate predicate Assigned(n: Node)
      reads this
    {
      var k := old(|nodes|);
      && nodes == old(nodes) + [n]
      && assignments == old(assignments)[Var(LitOf(n)) := k]
      && trail == old(trail) + [k] && eventList == old(eventList) + [k]
      && deletionTime == old(deletionTime) + [-1]
      && clauses == old(clauses) && trailLim == old(trailLim) && deletionCount == old(deletionCount)
    }

    /** `new` on a Branch or Implication followed by `add_assignment`. */
    method PushAssignment(n: Node)
      requires Replaying() && IsAssignment(n) && NodeOk(n, |nodes|)
      requires Var(LitOf(n)) !in assignments
      modifies this`nodes, this`required, this`skippable, this`deletionTime
      modifies this`assignments, this`trail, this`eventList
      ensures Assigned(n) && Replaying()
    {
      var k := Allocate(n);
      AddAssignment(k);
    }

    /** `add_clause`: an id >= 0 must name an empty slot; id -1 only logs the clause. */
    method AddClause(c: nat, id: int)
      requires Replaying() && c < |nodes| && IsClause(nodes[c])
      requires 0 <= id < |clauses| ==> clauses[id].None?
      modifies this`clauses, this`eventList
      ensures clauses == if id < 0 then old(clauses) else Store(old(clauses), id, c)
      ensures eventList == old(eventList) + [c]
      ensures Replaying()
    {
      if id >= 0 {
        clauses := Store(clauses, id, c);
      }
      eventList := eventList + [c];
    }

    ghost function Snapshot(): (r: State)
      reads this
    {
      State(nodes, clauses, assignments, trail, trailLim, eventList, deletionTime, deletionCount)
    }

    function DecisionLevel(): (r: nat)
      reads this`trailLim
    {
      |trailLim|
    }

    /** `new_decision_level`: a checkpoint at the current end of the trail. */
    method NewDecisionLevel()
      requires Replaying()
      modifies this`trailLim
      ensures trailLim == old(trailLim) + [|trail|]
      ensures Replaying()
    {
      trailLim := trailLim + [|trail|];
    }

    /**
     * The table `backtrack_to(level)` leaves: every variable assigned on the
     * trail from the checkpoint of `level` on is unassigned.
     */
    ghost function Backtracked(level: nat): (r: map<nat, nat>)
      requires level <= |trailLim| && Cut(trail, trailLim, level) <= |trail|
      reads this`assignments, this`trail, this`trailLim
    {
      Undone(assignments, trail, Cut(trail, trailLim, level))
    }

    /**
     * The state `backtrack_to(level)` leaves: both stacks cut back to the
     * checkpoint of `level`, the variables cut off unassigned, nothing else
     * changed.
     */
    twostate predicate BackedTo(level: nat)
      requires old(Valid()) && level <= old(DecisionLevel())
      reads this
    {
      && trail == old(trail)[..Cut(old(trail), old(trailLim), level)] && trailLim == old(trailLim)[..level]
      && assignments == old(Backtracked(level))
      && nodes == old(nodes) && clauses == old(clauses) && eventList == old(eventList)
      && deletionTime == old(deletionTime) && deletionCount == old(deletionCount)
    }

    /**
     * `backtrack_to(level)`: `level` may not exceed the decision level; at the
     * current level nothing changes, below it the variables on
     * `trail[trail_lim[level]..]` are unassigned and both stacks truncated.
     */
    method BacktrackTo(level: nat)
      requires Replaying() && level <= DecisionLevel()
      modifies this`assignments, this`trail, this`trailLim
      ensures BackedTo(level)
      ensures Replaying()
    {
      if level >= DecisionLevel() {
        assert trail[..|trail|] == trail && trail[|trail|..] == [];
        UndoneUnassigns(nodes, assignments, trail, trailLim, |trail|);
        return;
      }
      var lo := trailLim[level];
      BacktrackTrailOk(nodes, assignments, trail, trailLim, level);
      UndoneUnassigns(nodes, assignments, trail, trailLim, lo);
      var t := trail;
      var asg := Unassign(nodes, assignments, t, lo);
      assert TrailOk(nodes, asg, t[..lo], trailLim[..level]);
      assignments := asg;
      trail := t[..lo];
      trailLim := trailLim[..level];
    }

    /**
     * The dependency capture of the Implication constructor: the assignment
     * falsifying each antecedent literal on another variable than `lit`'s,
     * failing when one is missing or agrees in sign, or when the antecedent
     * does not hold exactly one literal on `lit`'s variable.
     */
    method ImplicationDependencies(lit: int, ante: nat) returns (deps: Option<seq<nat>>)
      requires TrailOk(nodes, assignments, trail, trailLim) && ante < |nodes|
      ensures deps == ImplicationDeps(nodes, assignments, lit, LitsOf(nodes[ante]))
    {
      var lits := LitsOf(nodes[ante]);
      var v := Var(lit);
      var acc: seq<nat> := [];
      var j := 0;
      while j < |lits|
        invariant 0 <= j <= |lits|
        invariant Falsifiers(nodes, assignments, Others(lits[..j], v)) == Some(acc)
      {
        var l := lits[j];
        OthersPrefix(lits, j, v);
        if Var(l) != v {
          if Var(l) in assignments {
            TableEntries(nodes, assignments, trail, trailLim, Var(l));
          }
          // a literal whose variable is unassigned, or assigned the same sign
          if Var(l) !in assignments || Sign(LitOf(nodes[assignments[Var(l)]])) == Sign(l) {
            OthersMember(lits, v, l);
            FalsifiersMiss(nodes, assignments, Others(lits, v), l);
            return None;
          }
          FalsifiersSnoc(nodes, assignments, Others(lits[..j], v), l);
          acc := acc + [assignments[Var(l)]];
        }
        j := j + 1;
      }
      assert lits[..j] == lits;
      if |acc| != |lits| - 1 {
        return None;
      }
      deps := Some(acc);
    }

    /**
     * The dependency capture of the LearnedClause constructors: the
     * assignment falsifying each literal of the conflicting clause, failing
     * when one is missing or agrees in sign.
     */
    method LearnedDependencies(conflicting: nat) returns (deps: Option<seq<nat>>)
      requires TrailOk(nodes, assignments, trail, trailLim) && conflicting < |nodes|
      ensures deps == Falsifiers(nodes, assignments, LitsOf(nodes[conflicting]))
    {
      var lits := LitsOf(nodes[conflicting]);
      var acc: seq<nat> := [];
      var j := 0;
      while j < |lits|
        invariant 0 <= j <= |lits|
        invariant Falsifiers(nodes, assignments, lits[..j]) == Some(acc)
      {
        var l := lits[j];
        FalsifiersPrefix(nodes, assignments, lits, j);
        if Var(l) !in assignments {
          FalsifiersSpec(nodes, assignments, lits);
          assert l in lits;
          return None;
        }
        var a := assignments[Var(l)];
        TableEntries(nodes, assignments, trail, trailLim, Var(l));
        if Sign(LitOf(nodes[a])) == Sign(l) {
          FalsifiersSpec(nodes, assignments, lits);
          assert l in lits;
          return None;
        }
        acc := acc + [a];
        j := j + 1;
      }
      assert lits[..j] == lits;
      deps := Some(acc);
    }

    /*
     * Marking: `set_required` and the `handle_required` overrides.  A node
     * already marked is left alone; otherwise it is marked and the mark
     * spreads to its antecedent and then to its dependencies, in order.
     */

    method SetRequired(i: nat)
      requires WF(nodes) && |required| == |nodes| && i < |nodes|
      modifies this`required
      ensures required == Mark(nodes, old(required), i)
      decreases i, 1
    {
      if !required[i] {
        required := required[i := true];
        HandleRequired(i);
      }
    }

    method HandleRequired(i: nat)
      requires WF(nodes) && |required| == |nodes| && i < |nodes|
      modifies this`required
      ensures required == MarkAll(nodes, old(required), Children(nodes[i]), i)
      decreases i, 0
    {
      var cs := Children(nodes[i]);
      assert NodeOk(nodes[i], i);
      var j := 0;
      while j < |cs|
        invariant 0 <= j <= |cs|
        invariant forall c :: c in cs[..j] ==> c < i
        invariant required == MarkAll(nodes, old(required), cs[..j], i)
      {
        assert cs[j] in cs;
        assert cs[..j + 1] == cs[..j] + [cs[j]];
        SetRequired(cs[j]);
        j := j + 1;
      }
      assert cs[..j] == cs;
    }

    /** Every memo set below `bound` records the skippability of its event. */
    ghost predicate MemoOk(bound: nat)
      reads this
      requires WF(nodes) && |required| == |nodes| && |skippable| == |nodes|
    {
      forall k :: 0 <= k < bound && k < |nodes| && skippable[k] != Unknown ==>
        (skippable[k] == Skip <==> Skippable(nodes, required, k))
    }

    /**
     * `is_skippable`: a Branch is skippable when not required; an Implication
     * or LearnedClause answers from its memo when set, and otherwise sets it
     * (NO_SKIP when required, SKIP when it has no antecedent or its
     * antecedent or one of its dependencies is skippable); every other event
     * is never skippable.
     */
    method IsSkippable(i: nat) returns (b: bool)
      requires WF(nodes) && |required| == |nodes| && |skippable| == |nodes| && i < |nodes|
      requires MemoOk(i + 1)
      modifies this`skippable
      ensures b == Skippable(nodes, required, i)
      ensures |skippable| == |nodes| && MemoOk(i + 1)
      ensures forall k :: 0 <= k < |nodes| && old(skippable[k]) != Unknown ==> skippable[k] == old(skippable[k])
      ensures forall k :: i < k < |nodes| ==> skippable[k] == old(skippable[k])
      ensures nodes[i].ImplicationNode? || nodes[i].LearnedClauseNode? ==> skippable[i] != Unknown
      decreases i, 2
    {
      match nodes[i] {
        case BranchNode(_) =>
          return !required[i];
        case ImplicationNode(_, a, ds) =>
          b := Memoised(i, a, ds);
        case LearnedClauseNode(_, c, ds) =>
          b := Memoised(i, Some(c), ds);
        case _ =>
          return false;
      }
    }

    /**
     * `is_skippable` of an Implication (`ante` its antecedent, if any) or a
     * LearnedClause (`ante` its conflicting clause), `deps` its dependencies.
     */
    method Memoised(i: nat, ante: Option<nat>, deps: seq<nat>) returns (b: bool)
      requires WF(nodes) && |required| == |nodes| && |skippable| == |nodes| && i < |nodes|
      requires nodes[i].ImplicationNode? || nodes[i].LearnedClauseNode?
      requires ante == if nodes[i].ImplicationNode? then nodes[i].antecedent else Some(nodes[i].conflicting)
      requires deps == nodes[i].deps
      requires MemoOk(i + 1)
      modifies this`skippable
      ensures b == Skippable(nodes, required, i)
      ensures |skippable| == |nodes| && MemoOk(i + 1) && skippable[i] != Unknown
      ensures forall k :: 0 <= k < |nodes| && old(skippable[k]) != Unknown ==> skippable[k] == old(skippable[k])
      ensures forall k :: i < k < |nodes| ==> skippable[k] == old(skippable[k])
      decreases i, 1
    {
      assert ante.Some? ==> ante.value in Children(nodes[i]);
      assert NodeOk(nodes[i], i);
      assert forall j :: 0 <= j < |deps| ==> deps[j] in nodes[i].deps;
      if skippable[i] == Skip {
        return true;
      } else if skippable[i] == NoSkip {
        return false;
      }
      if required[i] {
        skippable := skippable[i := NoSkip];
      } else if ante.None? {
        skippable := skippable[i := Skip];
      } else {
        var s := IsSkippable(ante.value);
        if s {
          skippable := skippable[i := Skip];
        } else {
          skippable := skippable[i := NoSkip];
          s := AnySkippable(i, deps);
          if s {
            skippable := skippable[i := Skip];
          }
        }
      }
      b := skippable[i] == Skip;
    }

    /** The dependency loop of `is_skippable`: is one of `deps`, all older than `i`, skippable? */
    method AnySkippable(i: nat, deps: seq<nat>) returns (s: bool)
      requires WF(nodes) && |required| == |nodes| && |skippable| == |nodes| && i < |nodes|
      requires forall j :: 0 <= j < |deps| ==> deps[j] < i
      requires MemoOk(i)
      modifies this`skippable
      ensures s <==> exists j :: 0 <= j < |deps| && Skippable(nodes, required, deps[j])
      ensures |skippable| == |nodes| && MemoOk(i)
      ensures forall k :: 0 <= k < |nodes| && old(skippable[k]) != Unknown ==> skippable[k] == old(skippable[k])
      ensures forall k :: i <= k < |nodes| ==> skippable[k] == old(skippable[k])
      decreases i, 0
    {
      var j := 0;
      while j < |deps|
        invariant 0 <= j <= |deps|
        invariant |skippable| == |nodes| && MemoOk(i)
        invariant forall k :: 0 <= k < |nodes| && old(skippable[k]) != Unknown ==> skippable[k] == old(skippable[k])
        invariant forall k :: i <= k < |nodes| ==> skippable[k] == old(skippable[k])
        invariant forall j' :: 0 <= j' < j ==> !Skippable(nodes, required, deps[j'])
      {
        s := IsSkippable(deps[j]);
        if s {
          return;
        }
        j := j + 1;
      }
      s := false;
    }

    /**
     * The output loop of `analyze`: one line per event, in trace order,
     * flagged skippable and required as the final marking says.
     */
    method WriteOut() returns (lines: seq<OutLine>)
      requires WF(nodes) && |required| == |nodes| && |skippable| == |nodes| && |deletionTime| == |nodes|
      requires (forall k :: 0 <= k < |eventList| ==> eventList[k] < |nodes|) && MemoOk(|nodes|)
      modifies this`skippable
      ensures |lines| == |eventList|
      ensures forall k :: 0 <= k < |eventList| ==>
        lines[k] == OutLine(Skippable(nodes, required, eventList[k]), required[eventList[k]],
                            Render(nodes, deletionTime, eventList[k]))
    {
      lines := [];
      var j := 0;
      while j < |eventList|
        invariant 0 <= j <= |eventList| && |lines| == j
        invariant |skippable| == |nodes| && MemoOk(|nodes|)
        invariant forall k :: 0 <= k < j ==>
          lines[k] == OutLine(Skippable(nodes, required, eventList[k]), required[eventList[k]],
                              Render(nodes, deletionTime, eventList[k]))
      {
        var e := eventList[j];
        var skip := IsSkippable(e);
        lines := lines + [OutLine(skip, required[e], Render(nodes, deletionTime, e))];
        j := j + 1;
      }
    }

    /** Slot `id` of the clause table holds a clause. */
    predicate Live(id: int)
      reads this`clauses
    {
      0 <= id < |clauses| && clauses[id].Some?
    }

    /**
     * The checks of `new Implication(lit, ante)` and `add_assignment`: the
     * dependency capture on clause `ante` succeeds and `lit`'s variable is
     * unassigned.
     */
    ghost predicate CanImply(lit: int, ante: nat)
      requires Valid() && ante < |nodes|
      reads this
    {
      ImplicationDeps(nodes, assignments, lit, LitsOf(nodes[ante])).Some? && Var(lit) !in assignments
    }

    /** The implication of `lit` by `ante`, with its captured dependencies, was appended, assigned and logged. */
    twostate predicate Implied(lit: int, ante: nat)
      requires old(Valid()) && ante < old(|nodes|) && old(CanImply(lit, ante))
      reads this
    {
      Assigned(ImplicationNode(lit, Some(ante), old(ImplicationDeps(nodes, assignments, lit, LitsOf(nodes[ante]))).value))
    }

    /**
     * `new Implication(lit, ante)` followed by `add_assignment`: the
     * constructor's checks pass and the variable is unassigned; then the
     * implication is appended and assigned.
     */
    method Imply(lit: int, ante: nat) returns (ok: bool)
      requires Replaying() && ante < |nodes|
      modifies this`nodes, this`required, this`skippable, this`deletionTime
      modifies this`assignments, this`trail, this`eventList
      ensures ok <==> old(CanImply(lit, ante))
      ensures ok ==> Implied(lit, ante) && Replaying()
    {
      var deps := ImplicationDependencies(lit, ante);
      if deps.None? || Var(lit) in assignments {
        return false;
      }
      FalsifiersBound(nodes, assignments, Others(LitsOf(nodes[ante]), Var(lit)));
      PushAssignment(ImplicationNode(lit, Some(ante), deps.value));
      ok := true;
    }

    /**
     * What `analyze_implication` (`i <lit> <id>`) does: it passes when the
     * literal is not 0 and `id` names a live clause, which can imply `lit`;
     * that clause becomes the implication's antecedent.
     */
    twostate predicate ImplicationStep(lit: int, cref: int, ok: bool)
      requires old(Valid())
      reads this
    {
      && (ok <==> lit != 0 && old(Live(cref)) && old(CanImply(lit, clauses[cref].value)))
      && (ok ==> Implied(lit, old(clauses)[cref].value))
    }

    /** `analyze_implication` (`i <lit> <id>`). */
    method AnalyzeImplication(lit: int, cref: int) returns (ok: bool)
      requires Replaying()
      modifies this`nodes, this`required, this`skippable, this`deletionTime
      modifies this`assignments, this`trail, this`eventList
      ensures ImplicationStep(lit, cref, ok)
      ensures ok ==> Replaying()
    {
      if lit == 0 || !Live(cref) {
        return false;
      }
      ok := Imply(lit, clauses[cref].value);
    }

    /**
     * What a `b <lit>` record does: a decision level is opened in any case;
     * it passes when the literal is not 0 and its variable is unassigned, and
     * then the branch is appended and assigned.
     */
    twostate predicate BranchStep(lit: int, ok: bool)
      requires old(Valid())
      reads this
    {
      && (ok <==> lit != 0 && Var(lit) !in old(assignments))
      && trailLim == old(trailLim) + [old(|trail|)]
      && (ok ==>
            var n := old(|nodes|);
            && nodes == old(nodes) + [BranchNode(lit)]
            && assignments == old(assignments)[Var(lit) := n]
            && trail == old(trail) + [n] && eventList == old(eventList) + [n]
            && deletionTime == old(deletionTime) + [-1]
            && clauses == old(clauses) && deletionCount == old(deletionCount))
    }

    /** A `b <lit>` record: `new_decision_level`, then `new Branch(lit)` and `add_assignment`. */
    method AnalyzeBranch(lit: int) returns (ok: bool)
      requires Replaying()
      modifies this`nodes, this`required, this`skippable, this`deletionTime
      modifies this`assignments, this`trail, this`trailLim, this`eventList
      ensures BranchStep(lit, ok)
      ensures ok ==> Replaying()
    {
      NewDecisionLevel();
      if lit == 0 || Var(lit) in assignments {
        return false;
      }
      PushAssignment(BranchNode(lit));
      ok := true;
    }

    /**
     * `set_deleted`: stamp clause `c` with the next deletion time; the stamp
     * is later than every stamp given so far.
     */
    method SetDeleted(c: nat)
      requires Replaying() && c < |nodes|
      modifies this`deletionTime, this`deletionCount
      ensures deletionTime == old(deletionTime)[c := old(deletionCount)]
      ensures deletionCount == old(deletionCount) + 1
      ensures forall k :: 0 <= k < |nodes| && k != c ==> deletionTime[k] < deletionTime[c]
      ensures Replaying()
    {
      deletionTime := deletionTime[c := deletionCount];
      deletionCount := deletionCount + 1;
    }

    /** The Deletion constructor's `clauses[id] = 0`. */
    method ClearSlot(id: nat)
      requires Replaying() && id < |clauses|
      modifies this`clauses
      ensures clauses == old(clauses)[id := None]
      ensures Replaying()
    {
      clauses := clauses[id := None];
    }

    /**
     * What the Deletion constructor (`d <id>`) does: it passes when `id`
     * names a live clause; the slot is cleared, the clause stamped with the
     * next deletion time, and a Deletion event, created required, appended.
     */
    twostate predicate DeleteStep(cref: int, ok: bool)
      requires old(Valid())
      reads this
    {
      && (ok <==> old(Live(cref)))
      && (ok ==>
            var c := old(clauses)[cref].value;
            && nodes == old(nodes) + [DeletionNode(c)] && clauses == old(clauses)[cref := None]
            && deletionTime == old(deletionTime)[c := old(deletionCount)] + [-1]
            && deletionCount == old(deletionCount) + 1 && eventList == old(eventList) + [old(|nodes|)]
            && assignments == old(assignments) && trail == old(trail) && trailLim == old(trailLim))
    }

    /** The Deletion constructor (`d <id>`). */
    method Delete(cref: int) returns (ok: bool)
      requires Replaying()
      modifies this`nodes, this`required, this`skippable, this`deletionTime
      modifies this`clauses, this`deletionCount, this`eventList
      ensures DeleteStep(cref, ok)
      ensures ok ==> Replaying()
    {
      if !Live(cref) {
        return false;
      }
      var c := clauses[cref].value;
      ClearSlot(cref);
      SetDeleted(c);
      var k := Allocate(DeletionNode(c));
      eventList := eventList + [k];
      ok := true;
    }

    /**
     * What `analyze_clause_movement` does on a block of `m <old> <new>`
     * records: it passes when every `old` names a live clause of the current
     * table and every `new` is a valid id; then the table is replaced by the
     * one the moves build.  Nothing else changes.
     */
    twostate predicate MoveStep(moves: seq<(int, int)>, ok: bool)
      reads this
    {
      && (ok <==> MovesOk(old(clauses), moves))
      && (ok ==> clauses == Remapped(old(clauses), moves))
      && nodes == old(nodes) && assignments == old(assignments) && trail == old(trail)
      && trailLim == old(trailLim) && eventList == old(eventList)
      && deletionTime == old(deletionTime) && deletionCount == old(deletionCount)
    }

    /**
     * The reading loop of `analyze_clause_movement`: the `m <old> <new>`
     * pairs from `p0` up to the first record that is not a move.
     */
    method ReadMoves(records: seq<Record>, p0: nat) returns (moves: seq<(int, int)>, p: nat)
      requires p0 < |records| && records[p0].Move?
      ensures p0 < p <= |records| && (p == |records| || !records[p].Move?)
      ensures forall k :: p0 <= k < p ==> records[k].Move?
      ensures moves == MoveBlock(records[p0..p])
    {
      moves := [(records[p0].oldId, records[p0].newId)];
      p := p0 + 1;
      while p < |records| && records[p].Move?
        invariant p0 < p <= |records|
        invariant forall k :: p0 <= k < p ==> records[k].Move?
        invariant moves == MoveBlock(records[p0..p])
      {
        assert records[p0..p + 1] == records[p0..p] + [records[p]];
        moves := moves + [(records[p].oldId, records[p].newId)];
        p := p + 1;
      }
    }

    /** `analyze_clause_movement`, on the pairs of one block. */
    method AnalyzeClauseMovement(moves: seq<(int, int)>) returns (ok: bool)
      requires Replaying()
      modifies this`clauses
      ensures MoveStep(moves, ok)
      ensures ok ==> Replaying()
    {
      var newClauses: seq<Option<nat>> := [];
      var j := 0;
      while j < |moves|
        invariant 0 <= j <= |moves|
        invariant MovesOk(clauses, moves[..j]) && newClauses == Remapped(clauses, moves[..j])
      {
        var (o, n) := moves[j];
        if !(0 <= o < |clauses|) || n < 0 || clauses[o].None? {
          assert !MoveOk(clauses, moves[j]);
          return false;
        }
        assert moves[..j + 1][..j] == moves[..j];
        newClauses := Store(newClauses, n, clauses[o].value);
        j := j + 1;
      }
      assert moves[..j] == moves;
      forall id | 0 <= id < |newClauses| && newClauses[id].Some?
        ensures newClauses[id].value < |nodes| && IsClause(nodes[newClauses[id].value])
      {
        RemappedFromOld(clauses, moves, id);
      }
      clauses := newClauses;
      ok := true;
    }

    /** The OriginalClause constructor followed by `add_clause` under `id` (-1: logged only). */
    method AddOriginal(lits: seq<int>, id: int) returns (c: nat)
      requires Replaying() && !Live(id)
      modifies this`nodes, this`required, this`skippable, this`deletionTime
      modifies this`clauses, this`eventList
      ensures c == old(|nodes|) && nodes == old(nodes) + [OriginalClauseNode(lits)]
      ensures clauses == (if id < 0 then old(clauses) else Store(old(clauses), id, c))
      ensures eventList == old(eventList) + [c] && deletionTime == old(deletionTime) + [-1]
      ensures Replaying()
    {
      c := Allocate(OriginalClauseNode(lits));
      AddClause(c, id);
    }

    /**
     * What a numbered original clause (`<id>: l1 .. ln 0`) does: it passes
     * when the slot of `id` is empty and the clause has at least two
     * literals; the clause is appended and stored under `id` in any case.
     */
    twostate predicate NumberedStep(id: nat, lits: seq<int>, ok: bool)
      reads this
    {
      && (ok <==> !old(Live(id)) && |lits| > 1)
      && (ok ==>
            var n := old(|nodes|);
            && nodes == old(nodes) + [OriginalClauseNode(lits)] && clauses == Store(old(clauses), id, n)
            && eventList == old(eventList) + [n] && deletionTime == old(deletionTime) + [-1]
            && assignments == old(assignments) && trail == old(trail) && trailLim == old(trailLim)
            && deletionCount == old(deletionCount))
    }

    /** A numbered original clause (`<id>: l1 .. ln 0`). */
    method AnalyzeNumberedClause(id: nat, lits: seq<int>) returns (ok: bool)
      requires Replaying()
      modifies this`nodes, this`required, this`skippable, this`deletionTime
      modifies this`clauses, this`eventList
      ensures NumberedStep(id, lits, ok)
      ensures ok ==> Replaying()
    {
      if Live(id) {
        return false;
      }
      var c := AddOriginal(lits, id);
      ok := |lits| > 1;
    }

    /**
     * What an unnumbered original clause (`: l1 .. ln 0`) does: it is logged
     * without an id.  Empty, it is the empty clause and ends the replay;
     * otherwise it must be a unit clause on an unassigned variable, whose
     * literal it implies without dependencies.
     */
    twostate predicate UnitStep(lits: seq<int>, st: Step)
      reads this
    {
      && (st.Proved? <==> lits == [])
      && (st.Continue? <==> |lits| == 1 && Var(lits[0]) !in old(assignments))
      && (st.Proved? ==>
            var n := old(|nodes|);
            && st.clause == n && nodes == old(nodes) + [OriginalClauseNode([])]
            && eventList == old(eventList) + [n] && deletionTime == old(deletionTime) + [-1]
            && clauses == old(clauses) && assignments == old(assignments) && trail == old(trail)
            && trailLim == old(trailLim) && deletionCount == old(deletionCount))
      && (st.Continue? ==>
            var n := old(|nodes|);
            && nodes == old(nodes) + [OriginalClauseNode(lits), ImplicationNode(lits[0], Some(n), [])]
            && assignments == old(assignments)[Var(lits[0]) := n + 1]
            && trail == old(trail) + [n + 1] && eventList == old(eventList) + [n, n + 1]
            && deletionTime == old(deletionTime) + [-1, -1]
            && clauses == old(clauses) && trailLim == old(trailLim) && deletionCount == old(deletionCount))
    }

    /** An unnumbered original clause (`: l1 .. ln 0`). */
    method AnalyzeUnitClause(lits: seq<int>) returns (st: Step)
      requires Replaying()
      modifies this`nodes, this`required, this`skippable, this`deletionTime
      modifies this`clauses, this`assignments, this`trail, this`eventList
      ensures UnitStep(lits, st)
      ensures st.Proved? ==> st.clause == |nodes| - 1 && LitsOf(nodes[st.clause]) == []
      ensures !st.Failed? ==> Replaying()
    {
      var c := AddOriginal(lits, -1);
      if |lits| == 0 {
        return Proved(c);
      } else if |lits| != 1 {
        return Failed;
      }
      UnitDeps(nodes, assignments, lits);
      var ok := Imply(lits[0], c);
      if !ok {
        return Failed;
      }
      AppendTwice(old(nodes), OriginalClauseNode(lits), ImplicationNode(lits[0], Some(c), []));
      AppendTwice(old(eventList), c, c + 1);
      AppendTwice(old(deletionTime), -1, -1);
      st := Continue;
    }

    /** The learned clause `lits`, with the dependencies the LearnedClause constructor captures on clause `conf`. */
    ghost function LearnedNode(conf: nat, lits: seq<int>): (r: Node)
      requires Valid() && conf < |nodes| && Falsifiers(nodes, assignments, LitsOf(nodes[conf])).Some?
      reads this
    {
      LearnedClauseNode(lits, conf, Falsifiers(nodes, assignments, LitsOf(nodes[conf])).value)
    }

    /**
     * The clause `lits` learned on clause `conf` was appended, stored under
     * `id` when `id` is not negative, and logged; nothing else changed.
     */
    twostate predicate ClauseLearned(conf: nat, id: int, lits: seq<int>)
      requires old(Valid()) && conf < old(|nodes|)
      requires old(Falsifiers(nodes, assignments, LitsOf(nodes[conf]))).Some?
      reads this
    {
      var n := old(|nodes|);
      && nodes == old(nodes) + [old(LearnedNode(conf, lits))]
      && clauses == (if id < 0 then old(clauses) else Store(old(clauses), id, n))
      && eventList == old(eventList) + [n] && deletionTime == old(deletionTime) + [-1]
      && assignments == old(assignments) && trail == old(trail)
      && trailLim == old(trailLim) && deletionCount == old(deletionCount)
    }

    /**
     * The LearnedClause constructor reading the learned clause, then
     * `add_clause` under `id`: the dependency capture on the conflicting
     * clause succeeds and the slot, when `id` is given, is empty.
     */
    method AddLearned(conf: nat, id: int, lits: seq<int>) returns (ok: bool)
      requires Replaying() && conf < |nodes| && IsClause(nodes[conf])
      modifies this`nodes, this`required, this`skippable, this`deletionTime
      modifies this`clauses, this`eventList
      ensures ok <==> old(Falsifiers(nodes, assignments, LitsOf(nodes[conf]))).Some? && !old(Live(id))
      ensures ok ==> ClauseLearned(conf, id, lits) && Replaying()
    {
      var deps := LearnedDependencies(conf);
      if deps.None? || Live(id) {
        return false;
      }
      FalsifiersBound(nodes, assignments, LitsOf(nodes[conf]));
      var c := Allocate(LearnedClauseNode(lits, conf, deps.value));
      AddClause(c, id);
      ok := true;
    }

    /**
     * A conflict on clause `conf` with backtrack level -1: the empty clause
     * is learned (the LearnedClause constructor without literals, whose
     * dependency capture must succeed) and logged without an id.
     */
    method LearnEmpty(conf: nat) returns (st: Step)
      requires Replaying() && conf < |nodes| && IsClause(nodes[conf])
      modifies this`nodes, this`required, this`skippable, this`deletionTime
      modifies this`clauses, this`eventList
      ensures !st.Continue?
      ensures st.Proved? <==> old(Falsifiers(nodes, assignments, LitsOf(nodes[conf]))).Some?
      ensures st.Proved? ==> st.clause == old(|nodes|) && ClauseLearned(conf, -1, []) && Replaying()
    {
      var ok := AddLearned(conf, -1, []);
      st := if ok then Proved(|nodes| - 1) else Failed;
    }

    /**
     * The end of `analyze_conflict`: cut the trail back to `level` and imply
     * the first literal of the learned clause `c`, which it now asserts.  It
     * passes when, in the table left by the backtrack, the clause's other
     * literals are all falsified and the first literal's variable is
     * unassigned.
     */
    method Assert(level: nat, c: nat, ghost lits: seq<int>) returns (ok: bool)
      requires Replaying() && c < |nodes| && level <= DecisionLevel() && LitsOf(nodes[c]) == lits && lits != []
      modifies this`nodes, this`required, this`skippable, this`deletionTime
      modifies this`assignments, this`trail, this`trailLim, this`eventList
      ensures trailLim == old(trailLim)[..level]
      ensures ok <==>
        ImplicationDeps(old(nodes), old(Backtracked(level)), lits[0], lits).Some? && Var(lits[0]) !in old(Backtracked(level))
      ensures ok ==>
        var n := old(|nodes|);
        && nodes == old(nodes) + [ImplicationNode(lits[0], Some(c),
             ImplicationDeps(old(nodes), old(Backtracked(level)), lits[0], lits).value)]
        && assignments == old(Backtracked(level))[Var(lits[0]) := n]
        && trail == old(trail)[..Cut(old(trail), old(trailLim), level)] + [n]
        && eventList == old(eventList) + [n] && deletionTime == old(deletionTime) + [-1]
        && Replaying()
    {
      BacktrackTo(level);
      ok := Imply(LitsOf(nodes[c])[0], c);
    }

    /**
     * When the end of `analyze_conflict` passes for conflicting clause
     * `conf`, learned clause `lits` under `id` and backtrack level `level`:
     * the dependency capture on `conf` succeeds, the slot of `id` is empty,
     * the level is between 0 and the decision level, the clause is not
     * empty, and after the backtrack its first literal can be implied by it.
     */
    ghost predicate CanLearn(conf: nat, id: int, lits: seq<int>, level: int)
      requires Valid() && conf < |nodes|
      reads this
    {
      && Falsifiers(nodes, assignments, LitsOf(nodes[conf])).Some? && !Live(id)
      && 0 <= level <= DecisionLevel() && lits != []
      && AssertingDeps(conf, lits, level).Some?
      && Var(lits[0]) !in Backtracked(level)
    }

    /** The dependencies of the implication a learned clause `lits` asserts after the backtrack to `level`. */
    ghost function AssertingDeps(conf: nat, lits: seq<int>, level: nat): (r: Option<seq<nat>>)
      requires Valid() && conf < |nodes| && Falsifiers(nodes, assignments, LitsOf(nodes[conf])).Some?
      requires level <= DecisionLevel() && lits != []
      reads this
    {
      ImplicationDeps(nodes + [LearnedNode(conf, lits)], Backtracked(level), lits[0], lits)
    }

    /**
     * The learned clause was appended and stored under `id`, the trail cut
     * back to `level`, and the implication of its first literal appended,
     * assigned and logged.
     */
    twostate predicate Learned(conf: nat, id: int, lits: seq<int>, level: nat)
      requires old(Valid()) && conf < old(|nodes|) && old(CanLearn(conf, id, lits, level))
      reads this
    {
      var n := old(|nodes|);
      && nodes == old(nodes) + [old(LearnedNode(conf, lits)),
           ImplicationNode(lits[0], Some(n), old(AssertingDeps(conf, lits, level)).value)]
      && clauses == (if id < 0 then old(clauses) else Store(old(clauses), id, n))
      && assignments == old(Backtracked(level))[Var(lits[0]) := n + 1]
      && trail == old(trail)[..Cut(old(trail), old(trailLim), level)] + [n + 1]
      && trailLim == old(trailLim)[..level]
      && eventList == old(eventList) + [n, n + 1]
      && deletionTime == old(deletionTime) + [-1, -1] && deletionCount == old(deletionCount)
    }

    /**
     * A conflict on clause `conf` followed by the learned clause
     * (`[<id>]: l1 .. ln 0`): the clause is learned and stored, the trail is
     * cut back to `level`, and the first literal, which the clause now
     * asserts, is implied by it.
     */
    method Learn(conf: nat, id: int, lits: seq<int>, level: int) returns (ok: bool)
      requires Replaying() && conf < |nodes| && IsClause(nodes[conf])
      modifies this`nodes, this`required, this`skippable, this`deletionTime
      modifies this`clauses, this`assignments, this`trail, this`trailLim, this`eventList
      ensures ok <==> old(CanLearn(conf, id, lits, level))
      ensures ok ==> Learned(conf, id, lits, level) && Replaying()
    {
      var n := |nodes|;
      ok := AddLearned(conf, id, lits);
      if !ok {
        return;
      }
      if !(0 <= level <= DecisionLevel()) || lits == [] {
        return false;
      }
      assert |nodes| == n + 1 && LitsOf(nodes[n]) == lits;
      ghost var mid := Learning(conf, id, lits, level, Snapshot(), Backtracked(level));
      ok := Assert(level, n, lits);
      if ok {
        LearnedComposed(mid);
      }
    }

    /**
     * The two steps of `Learn` compose into `Learned`: the learned clause
     * appended (giving state `s.mid`), then the backtrack and the
     * implication of its first literal.
     */
    twostate lemma LearnedComposed(s: Learning)
      requires old(Valid()) && s.conf < old(|nodes|) && old(CanLearn(s.conf, s.id, s.lits, s.level))
      requires s.mid.nodes == old(nodes) + [old(LearnedNode(s.conf, s.lits))]
      requires s.mid.clauses == (if s.id < 0 then old(clauses) else Store(old(clauses), s.id, old(|nodes|)))
      requires s.mid.eventList == old(eventList) + [old(|nodes|)] && s.mid.deletionTime == old(deletionTime) + [-1]
      requires s.mid.assignments == old(assignments) && s.mid.trail == old(trail) && s.mid.trailLim == old(trailLim)
      requires s.mid.deletionCount == old(deletionCount)
      requires s.level <= |s.mid.trailLim| && Cut(s.mid.trail, s.mid.trailLim, s.level) <= |s.mid.trail|
      requires s.bt == Undone(s.mid.assignments, s.mid.trail, Cut(s.mid.trail, s.mid.trailLim, s.level))
      requires ImplicationDeps(s.mid.nodes, s.bt, s.lits[0], s.lits).Some?
      requires nodes == s.mid.nodes + [ImplicationNode(s.lits[0], Some(old(|nodes|)),
                 ImplicationDeps(s.mid.nodes, s.bt, s.lits[0], s.lits).value)]
      requires assignments == s.bt[Var(s.lits[0]) := |s.mid.nodes|]
      requires trail == s.mid.trail[..Cut(s.mid.trail, s.mid.trailLim, s.level)] + [|s.mid.nodes|]
      requires trailLim == s.mid.trailLim[..s.level]
      requires eventList == s.mid.eventList + [|s.mid.nodes|] && deletionTime == s.mid.deletionTime + [-1]
      requires clauses == s.mid.clauses && deletionCount == s.mid.deletionCount
      ensures Learned(s.conf, s.id, s.lits, s.level)
    {
      AppendTwice(old(deletionTime), -1, -1);
      AppendTwice(old(eventList), old(|nodes|), |s.mid.nodes|);
    }

    /**
     * What `analyze_conflict` (`k <id> <level>`) does, `next` being the
     * record after it: `id` must name a live clause, the conflicting one.
     * Level -1 learns the empty clause and ends the replay; any other level
     * needs the learned clause as the next record, with a non-negative id
     * when it has one, and learns it.
     */
    twostate predicate ConflictStep(cref: int, level: int, next: Option<Record>, st: Step)
      requires old(Valid())
      reads this
    {
      && (st.Proved? <==>
            level == -1 && old(Live(cref)) && old(Falsifiers(nodes, assignments, LitsOf(nodes[clauses[cref].value]))).Some?)
      && (st.Continue? <==>
            && old(Live(cref)) && next.Some? && next.value.ClauseDef?
            && (next.value.id.Some? ==> next.value.id.value >= 0)
            && var id := if next.value.id.Some? then next.value.id.value else -1;
               old(CanLearn(clauses[cref].value, id, next.value.lits, level)))
      && (st.Proved? ==> st.clause == old(|nodes|) && ClauseLearned(old(clauses)[cref].value, -1, []))
      && (st.Continue? ==>
            var id := if next.value.id.Some? then next.value.id.value else -1;
            Learned(old(clauses)[cref].value, id, next.value.lits, level))
    }

    /** `analyze_conflict` (`k <id> <level>`), `next` being the record after it. */
    method AnalyzeConflict(cref: int, level: int, next: Option<Record>) returns (st: Step)
      requires Replaying()
      modifies this`nodes, this`required, this`skippable, this`deletionTime
      modifies this`clauses, this`assignments, this`trail, this`trailLim, this`eventList
      ensures ConflictStep(cref, level, next, st)
      ensures st.Proved? ==> level == -1 && st.clause == |nodes| - 1 && LitsOf(nodes[st.clause]) == []
      ensures st.Continue? ==> 0 <= level && next.Some? && next.value.ClauseDef? && next.value.lits != []
      ensures !st.Failed? ==> Replaying()
    {
      if !Live(cref) {
        return Failed;
      }
      var conf := clauses[cref].value;
      if level == -1 {
        st := LearnEmpty(conf);
        return;
      }
      if next.None? || !next.value.ClauseDef? {
        return Failed;
      }
      var id := if next.value.id.Some? then next.value.id.value else -1;
      if next.value.id.Some? && id < 0 {
        return Failed;
      }
      var ok := Learn(conf, id, next.value.lits, level);
      st := if ok then Continue else Failed;
    }

    /**
     * The end of `analyze`: mark the empty clause required, which marks
     * exactly what it reaches besides the Deletions, then write one line per
     * event.
     */
    method Finish(e: nat) returns (lines: seq<OutLine>)
      requires Replaying() && e < |nodes|
      modifies this`required, this`skippable
      ensures WF(nodes) && |required| == |nodes| && |deletionTime| == |nodes|
      ensures forall k :: 0 <= k < |nodes| ==>
        (required[k] <==> InitiallyRequired(nodes[k]) || Reaches(nodes, e, k))
      ensures Closed(nodes, required)
      ensures |lines| == |eventList| && forall k :: 0 <= k < |eventList| ==> eventList[k] < |nodes|
      ensures forall k :: 0 <= k < |eventList| ==>
        lines[k] == OutLine(Skippable(nodes, required, eventList[k]), required[eventList[k]],
                            Render(nodes, deletionTime, eventList[k]))
    {
      forall k | 0 <= k < |nodes| && required[k]
        ensures Children(nodes[k]) == []
      {
        assert InitiallyRequired(nodes[k]);
      }
      assert Closed(nodes, required);
      MarkClosure(nodes, required, e);
      SetRequired(e);
      lines := WriteOut();
    }

    /**
     * What the record at `p0` does, `p` being the index just past the records
     * it used (a conflict also uses the learned clause after it, a clause
     * movement every `m` record of its block): each kind of record does what
     * its step predicate says; a clause record with a negative id and a bare
     * `0` record fail.
     */
    twostate predicate RecordStep(records: seq<Record>, p0: nat, st: Step, p: nat)
      requires old(Valid()) && p0 < p <= |records|
      reads this
    {
      match records[p0]
      case ClauseDef(id, lits) =>
        if id.None? then p == p0 + 1 && UnitStep(lits, st)
        else if id.value >= 0 then p == p0 + 1 && !st.Proved? && NumberedStep(id.value, lits, st.Continue?)
        else st.Failed?
      case Imp(lit, cref) => p == p0 + 1 && !st.Proved? && ImplicationStep(lit, cref, st.Continue?)
      case Branch(lit) => p == p0 + 1 && !st.Proved? && BranchStep(lit, st.Continue?)
      case Conflict(cref, level) =>
        && p == p0 + (if st.Continue? then 2 else 1)
        && ConflictStep(cref, level, if p0 + 1 < |records| then Some(records[p0 + 1]) else None, st)
      case Reset => p == p0 + 1 && st.Continue? && BackedTo(0)
      case Del(cref) => p == p0 + 1 && !st.Proved? && DeleteStep(cref, st.Continue?)
      case Move(_, _) =>
        && (forall k :: p0 <= k < p ==> records[k].Move?) && (p == |records| || !records[p].Move?)
        && !st.Proved? && MoveStep(MoveBlock(records[p0..p]), st.Continue?)
      case EmptyClause => st.Failed?
    }

    /** A clause record at `p0`. */
    method DispatchClause(records: seq<Record>, p0: nat) returns (st: Step, p: nat)
      requires Replaying() && p0 < |records| && records[p0].ClauseDef?
      modifies this
      ensures p0 < p <= |records| && RecordStep(records, p0, st, p)
      ensures !st.Failed? ==> Replaying()
      ensures st.Proved? ==> st.clause == |nodes| - 1 && LitsOf(nodes[st.clause]) == []
      ensures st.Proved? ==> p == p0 + 1 && EndsReplay(records[p0])
      ensures st.Continue? ==> forall k :: p0 <= k < p ==> !EndsReplay(records[k]) && !records[k].EmptyClause?
    {
      p := p0 + 1;
      var id, lits := records[p0].id, records[p0].lits;
      if id.None? {
        st := AnalyzeUnitClause(lits);
      } else if id.value >= 0 {
        var ok := AnalyzeNumberedClause(id.value, lits);
        st := if ok then Continue else Failed;
      } else {
        st := Failed;
      }
    }

    /** A conflict record at `p0`, with the learned clause after it. */
    method DispatchConflict(records: seq<Record>, p0: nat) returns (st: Step, p: nat)
      requires Replaying() && p0 < |records| && records[p0].Conflict?
      modifies this
      ensures p0 < p <= |records| && RecordStep(records, p0, st, p)
      ensures !st.Failed? ==> Replaying()
      ensures st.Proved? ==> st.clause == |nodes| - 1 && LitsOf(nodes[st.clause]) == []
      ensures st.Proved? ==> p == p0 + 1 && EndsReplay(records[p0])
      ensures st.Continue? ==> forall k :: p0 <= k < p ==> !EndsReplay(records[k]) && !records[k].EmptyClause?
    {
      var next := if p0 + 1 < |records| then Some(records[p0 + 1]) else None;
      st := AnalyzeConflict(records[p0].cref, records[p0].level, next);
      p := if st.Continue? then p0 + 2 else p0 + 1;
      if st.Continue? {
        LearnedPairGoesOn(records, p0);
      }
    }

    /** Any other record at `p0`. */
    method DispatchOther(records: seq<Record>, p0: nat) returns (st: Step, p: nat)
      requires Replaying() && p0 < |records| && !records[p0].ClauseDef? && !records[p0].Conflict?
      modifies this
      ensures p0 < p <= |records| && RecordStep(records, p0, st, p) && !st.Proved?
      ensures !st.Failed? ==> Replaying()
      ensures st.Continue? ==> forall k :: p0 <= k < p ==> !EndsReplay(records[k]) && !records[k].EmptyClause?
    {
      p := p0 + 1;
      if !records[p0].EmptyClause? {
        RecordGoesOn(records, p0);
      }
      match records[p0] {
        case Imp(lit, cref) =>
          var ok := AnalyzeImplication(lit, cref);
          st := if ok then Continue else Failed;
        case Branch(lit) =>
          var ok := AnalyzeBranch(lit);
          st := if ok then Continue else Failed;
        case Reset =>
          BacktrackTo(0);
          st := Continue;
        case Del(cref) =>
          var ok := Delete(cref);
          st := if ok then Continue else Failed;
        case Move(_, _) =>
          var moves;
          moves, p := ReadMoves(records, p0);
          MovesGoOn(records, p0, p);
          var ok := AnalyzeClauseMovement(moves);
          st := if ok then Continue else Failed;
        case EmptyClause =>
          st := Failed;
      }
    }

    /** One pass of the replay loop of `analyze`, on the record at `p0`. */
    method Dispatch(records: seq<Record>, p0: nat) returns (st: Step, p: nat)
      requires Replaying() && p0 < |records|
      modifies this
      ensures p0 < p <= |records| && RecordStep(records, p0, st, p)
      ensures !st.Failed? ==> Replaying()
      ensures st.Proved? ==> st.clause == |nodes| - 1 && LitsOf(nodes[st.clause]) == []
      ensures st.Proved? ==> p == p0 + 1 && EndsReplay(records[p0])
      ensures st.Continue? ==> forall k :: p0 <= k < p ==> !EndsReplay(records[k]) && !records[k].EmptyClause?
    {
      if records[p0].ClauseDef? {
        st, p := DispatchClause(records, p0);
      } else if records[p0].Conflict? {
        st, p := DispatchConflict(records, p0);
      } else {
        st, p := DispatchOther(records, p0);
      }
    }

    /**
     * `analyze`: replay records until one of them reaches the empty clause,
     * then mark it required and write out the analysis.  Running out of
     * records first is the end of file before the empty clause.
     */
    method Analyze(records: seq<Record>) returns (res: Outcome)
      requires Replaying()
      modifies this
      ensures res.Exhausted? ==> forall k :: 0 <= k < |records| ==> !EndsReplay(records[k]) && !records[k].EmptyClause?
      ensures res.Complete? ==>
        exists k :: 0 <= k < |records| && EndsReplay(records[k]) && forall j :: 0 <= j < k ==> !EndsReplay(records[j])
      ensures res.Complete? ==>
        && WF(nodes) && |required| == |nodes| && |deletionTime| == |nodes| && res.emptyClause == |nodes| - 1
        && IsClause(nodes[res.emptyClause]) && LitsOf(nodes[res.emptyClause]) == []
        && Closed(nodes, required)
        && (forall k :: 0 <= k < |nodes| ==>
              (required[k] <==> InitiallyRequired(nodes[k]) || Reaches(nodes, res.emptyClause, k)))
      ensures res.Complete? ==>
        && |res.lines| == |eventList| && (forall k :: 0 <= k < |eventList| ==> eventList[k] < |nodes|)
        && forall k :: 0 <= k < |eventList| ==>
             res.lines[k] == OutLine(Skippable(nodes, required, eventList[k]), required[eventList[k]],
                                     Render(nodes, deletionTime, eventList[k]))
    {
      var p := 0;
      while p < |records|
        invariant p <= |records| && Replaying()
        invariant forall k :: 0 <= k < p ==> !EndsReplay(records[k]) && !records[k].EmptyClause?
        decreases |records| - p
      {
        var st, p' := Dispatch(records, p);
        if st.Failed? {
          return Malformed;
        } else if st.Proved? {
          var lines := Finish(st.clause);
          return Complete(st.clause, lines);
        }
        p := p';
      }
      res := Exhausted;
    }
  }
}
