/**
 * The older trace analyser (minisat/core/analyze_trace.py).
 *
 * It reads the original clauses from the header lines, then replays
 * implications, branches, conflicts with their learned clauses, and
 * deletions.  When a conflict is followed by the `0` line, the empty clause
 * is learned and marked needed, the mark spreads backwards through
 * antecedents and captured assignments, and the literals of the needed
 * branches are written out.
 *
 * The analyser's dicts and lists are the fields of `TraceAnalyzer`.  Its
 * Assignment and Clause objects live in the arena `nodes`, and their
 * `is_needed` flags are the sequence `needed`, indexed by arena index.
 */
module PyAnalysis {
  import opened Wrappers
  import opened Trace
  import opened EventGraph
  import opened Trail

  /**
   * The check of the Implication constructor on a literal of its antecedent:
   * the variable is assigned, and `(lit > 0) != assn.get_val()`.
   */
  predicate Opposed(nodes: seq<Node>, assignments: map<nat, nat>, l: int)
  {
    Var(l) in assignments && assignments[Var(l)] < |nodes|
    && (l > 0) != (LitOf(nodes[assignments[Var(l)]]) > 0)
  }

  /**
   * The assignments the Implication constructor collects for the literals
   * `lits`, in order, or `None` once a lookup or a sign check fails.
   */
  function Opposers(nodes: seq<Node>, assignments: map<nat, nat>, lits: seq<int>): (r: Option<seq<nat>>)
    ensures r.Some? ==> |r.value| == |lits|
  {
    if lits == [] then Some([])
    else
      var l := lits[|lits| - 1];
      match Opposers(nodes, assignments, lits[..|lits| - 1])
      case None => None
      case Some(acc) =>
        if Opposed(nodes, assignments, l) then Some(acc + [assignments[Var(l)]]) else None
  }

  lemma OpposersSnoc(nodes: seq<Node>, assignments: map<nat, nat>, lits: seq<int>, l: int)
    ensures Opposers(nodes, assignments, lits + [l])
      == match Opposers(nodes, assignments, lits)
         case None => None
         case Some(acc) =>
           if Opposed(nodes, assignments, l) then Some(acc + [assignments[Var(l)]]) else None
  {
    assert (lits + [l])[..|lits|] == lits;
  }

  /**
   * The collection succeeds exactly when every literal is opposed by its
   * assignment, and then it is the table lookup of the literals' variables.
   */
  lemma {:induction false} OpposersSpec(nodes: seq<Node>, assignments: map<nat, nat>, lits: seq<int>)
    ensures Opposers(nodes, assignments, lits).Some?
      <==> forall l :: l in lits ==> Opposed(nodes, assignments, l)
    ensures Opposers(nodes, assignments, lits).Some? ==>
      (forall l :: l in lits ==> Var(l) in assignments)
      && Opposers(nodes, assignments, lits).value == Lookup(assignments, lits)
  {
    if lits != [] {
      var init, l := lits[..|lits| - 1], lits[|lits| - 1];
      assert lits == init + [l];
      OpposersSpec(nodes, assignments, init);
      if !Opposed(nodes, assignments, l) {
        assert l in lits;
      }
      if Opposers(nodes, assignments, init).None? {
        var x :| x in init && !Opposed(nodes, assignments, x);
        assert x in lits;
      }
      if Opposers(nodes, assignments, lits).Some? {
        LookupSnoc(assignments, init, l);
      }
    }
  }

  /** The collected assignments are objects of the arena. */
  lemma OpposersBound(nodes: seq<Node>, assignments: map<nat, nat>, lits: seq<int>)
    requires Opposers(nodes, assignments, lits).Some?
    ensures forall d :: d in Opposers(nodes, assignments, lits).value ==> d < |nodes|
  {
    OpposersSpec(nodes, assignments, lits);
    var r := Opposers(nodes, assignments, lits).value;
    forall d | d in r
      ensures d < |nodes|
    {
      var j :| 0 <= j < |r| && r[j] == d;
      assert lits[j] in lits;
    }
  }

  /**
   * The Implication constructor's capture for `lit` implied by a clause with
   * literals `lits`: the assignments opposing the literals on other
   * variables.  Unlike the newer analyser, it does not check how many
   * literals the clause has on `lit`'s own variable.
   */
  function ImplicationNeeds(nodes: seq<Node>, assignments: map<nat, nat>, lit: int, lits: seq<int>): (r: Option<seq<nat>>)
  {
    Opposers(nodes, assignments, Others(lits, Var(lit)))
  }

  /**
   * The capture succeeds exactly when every literal on another variable is
   * opposed, and then holds the assignment of each such literal, in order.
   */
  lemma ImplicationNeedsSpec(nodes: seq<Node>, assignments: map<nat, nat>, lit: int, lits: seq<int>)
    ensures ImplicationNeeds(nodes, assignments, lit, lits).Some?
      <==> forall l :: l in lits && Var(l) != Var(lit) ==> Opposed(nodes, assignments, l)
    ensures ImplicationNeeds(nodes, assignments, lit, lits).Some? ==>
      (forall l :: l in Others(lits, Var(lit)) ==> Var(l) in assignments)
      && ImplicationNeeds(nodes, assignments, lit, lits).value == Lookup(assignments, Others(lits, Var(lit)))
  {
    OpposersSpec(nodes, assignments, Others(lits, Var(lit)));
    forall l ensures l in Others(lits, Var(lit)) <==> l in lits && Var(l) != Var(lit) {
      OthersMember(lits, Var(lit), l);
    }
  }

  /**
   * What the LearnedClause constructor collects from the conflicting clause
   * `lits`: the assignment of every literal's variable, with no sign check;
   * `None` when a variable is unassigned.
   */
  function LearnedNeeds(assignments: map<nat, nat>, lits: seq<int>): (r: Option<seq<nat>>)
    ensures r.Some? ==> |r.value| == |lits|
  {
    if forall l :: l in lits ==> Var(l) in assignments then Some(Lookup(assignments, lits)) else None
  }

  /** What the LearnedClause constructor collects are live assignments, objects of the arena. */
  lemma LearnedNeedsBound(nodes: seq<Node>, assignments: map<nat, nat>, trail: seq<nat>, trailLim: seq<nat>, lits: seq<int>)
    requires TrailOk(nodes, assignments, trail, trailLim) && LearnedNeeds(assignments, lits).Some?
    ensures forall d :: d in LearnedNeeds(assignments, lits).value ==> d < |nodes| && d in trail
  {
    var r := LearnedNeeds(assignments, lits).value;
    forall d | d in r
      ensures d < |nodes| && d in trail
    {
      var j :| 0 <= j < |r| && r[j] == d;
      assert lits[j] in lits;
      TableEntries(nodes, assignments, trail, trailLim, Var(lits[j]));
    }
  }

  /** Python's `trail_lim[level]` index: a negative level counts from the end. */
  function PyIndex(level: int, len: nat): (r: Option<nat>)
    ensures r.Some? ==> r.value < len
  {
    if 0 <= level < len then Some(level)
    else if level < 0 && 0 <= level + len then Some((level + len) as nat)
    else None
  }

  /** The indices of the Branch objects of the arena, in creation order. */
  function BranchIndices(nodes: seq<Node>): (r: seq<nat>)
  {
    if nodes == [] then []
    else
      var n := |nodes| - 1;
      BranchIndices(nodes[..n]) + (if nodes[n].BranchNode? then [n] else [])
  }

  lemma BranchIndicesSnoc(nodes: seq<Node>, n: Node)
    ensures BranchIndices(nodes + [n]) == BranchIndices(nodes) + (if n.BranchNode? then [|nodes|] else [])
  {
    assert (nodes + [n])[..|nodes|] == nodes;
  }

  /** Exactly the Branches are listed, each once, in increasing order. */
  lemma {:induction false} BranchIndicesSpec(nodes: seq<Node>)
    ensures forall j :: 0 <= j < |BranchIndices(nodes)| ==> BranchIndices(nodes)[j] < |nodes|
    ensures forall k: nat :: k in BranchIndices(nodes) <==> k < |nodes| && nodes[k].BranchNode?
    ensures forall i, j :: 0 <= i < j < |BranchIndices(nodes)| ==> BranchIndices(nodes)[i] < BranchIndices(nodes)[j]
  {
    if nodes != [] {
      var n := |nodes| - 1;
      BranchIndicesSpec(nodes[..n]);
      assert forall k :: 0 <= k < n ==> nodes[..n][k] == nodes[k];
    }
  }

  /** The literals `foutput` writes for `branches`: those of the needed ones, in order. */
  function NeededBranchLits(nodes: seq<Node>, needed: seq<bool>, branches: seq<nat>): (r: seq<int>)
    requires |needed| == |nodes| && forall j :: 0 <= j < |branches| ==> branches[j] < |nodes|
    ensures |r| <= |branches|
  {
    if branches == [] then []
    else
      var b := branches[|branches| - 1];
      NeededBranchLits(nodes, needed, branches[..|branches| - 1])
        + (if needed[b] then [LitOf(nodes[b])] else [])
  }

  /** The literal of every needed listed branch is written. */
  lemma {:induction false} NeededBranchLitsComplete(nodes: seq<Node>, needed: seq<bool>, branches: seq<nat>)
    requires |needed| == |nodes| && forall j :: 0 <= j < |branches| ==> branches[j] < |nodes|
    ensures forall j :: 0 <= j < |branches| && needed[branches[j]] ==>
      LitOf(nodes[branches[j]]) in NeededBranchLits(nodes, needed, branches)
  {
    if branches != [] {
      var init := branches[..|branches| - 1];
      NeededBranchLitsComplete(nodes, needed, init);
      assert forall j :: 0 <= j < |init| ==> init[j] == branches[j];
    }
  }

  /** Every written literal is that of a needed listed branch. */
  lemma {:induction false} NeededBranchLitsSound(nodes: seq<Node>, needed: seq<bool>, branches: seq<nat>, x: int)
    requires |needed| == |nodes| && forall j :: 0 <= j < |branches| ==> branches[j] < |nodes|
    requires x in NeededBranchLits(nodes, needed, branches)
    ensures exists j :: 0 <= j < |branches| && needed[branches[j]] && LitOf(nodes[branches[j]]) == x
  {
    var n := |branches| - 1;
    var init := branches[..n];
    if x in NeededBranchLits(nodes, needed, init) {
      NeededBranchLitsSound(nodes, needed, init, x);
      var j :| 0 <= j < |init| && needed[init[j]] && LitOf(nodes[init[j]]) == x;
      assert init[j] == branches[j];
    } else {
      assert needed[branches[n]] && LitOf(nodes[branches[n]]) == x;
    }
  }

  /** With no listed branch needed, nothing is written. */
  lemma {:induction false} NeededBranchLitsNone(nodes: seq<Node>, needed: seq<bool>, branches: seq<nat>)
    requires |needed| == |nodes| && forall j :: 0 <= j < |branches| ==> branches[j] < |nodes|
    requires forall j :: 0 <= j < |branches| ==> !needed[branches[j]]
    ensures NeededBranchLits(nodes, needed, branches) == []
  {
    if branches != [] {
      NeededBranchLitsNone(nodes, needed, branches[..|branches| - 1]);
    }
  }

  datatype Outcome =
    | Written(emptyClause: Option<nat>, lits: seq<int>)  // the branch literals written, and the empty clause if learned
    | Crashed                                            // a failed assertion or a lookup of a missing key or index

  /** The analyser's dicts and lists, as one value. */
  datatype State = State(nodes: seq<Node>, clauses: map<int, nat>, assignments: map<nat, nat>,
    trail: seq<nat>, trailLim: seq<nat>)

  /**
   * A learned clause `lits` on conflicting clause `conf` under `cref` with
   * backtrack level `level` (checkpoint `index`), caught between its two
   * steps: `mid` is the state once the clause is registered, `bt` the table
   * the backtrack leaves.
   */
  datatype Learning = Learning(conf: nat, cref: Option<int>, lits: seq<int>, level: int, index: nat,
    mid: State, bt: map<nat, nat>)

  /** The line at `k` is a conflict and the one after it the `0` that learns the empty clause. */
  predicate LearnsEmpty(records: seq<Record>, k: nat)
  {
    k + 1 < |records| && records[k].Conflict? && records[k + 1].EmptyClause?
  }

  /** The clause `lits`, with the assignments the LearnedClause constructor captures on clause `conf`. */
  function LearnedNode(nodes: seq<Node>, assignments: map<nat, nat>, conf: nat, lits: seq<int>): (r: Node)
    requires conf < |nodes| && LearnedNeeds(assignments, LitsOf(nodes[conf])).Some?
  {
    LearnedClauseNode(lits, conf, LearnedNeeds(assignments, LitsOf(nodes[conf])).value)
  }

  /**
   * The learning case of `_analyze_conflict` passes in state `s`, on
   * conflicting clause `conf` and the learned clause `lits` under `cref`:
   * every variable of `conf` is assigned, the id is new, `trail_lim[level]`
   * exists, the clause is not empty, and once the trail is cut there the
   * clause can imply its first literal.
   */
  ghost predicate LearnsIn(s: State, conf: nat, cref: Option<int>, lits: seq<int>, level: int)
  {
    && conf < |s.nodes| && LearnedNeeds(s.assignments, LitsOf(s.nodes[conf])).Some?
    && (cref.None? || cref.value !in s.clauses)
    && PyIndex(level, |s.trailLim|).Some? && lits != []
    && var i := PyIndex(level, |s.trailLim|).value;
       && s.trailLim[i] <= |s.trail|
       && var bt := Undone(s.assignments, s.trail, s.trailLim[i]);
          && ImplicationNeeds(s.nodes + [LearnedNode(s.nodes, s.assignments, conf, lits)], bt, lits[0], lits).Some?
          && Var(lits[0]) !in bt
  }

  /**
   * The main loop of `analyze` raises on the line at `q` when it reaches it
   * in state `s`: an `i` line whose antecedent is unregistered or cannot
   * imply the literal, a `b` line on an assigned variable, a `k` line whose
   * conflicting clause is unregistered or whose learning fails, a `d` line
   * on an unregistered id, and any other line.
   */
  ghost predicate Fails(records: seq<Record>, q: nat, s: State)
    requires q < |records|
  {
    match records[q]
    case Imp(lit, cref) =>
      !(&& cref in s.clauses && s.clauses[cref] < |s.nodes|
        && ImplicationNeeds(s.nodes, s.assignments, lit, LitsOf(s.nodes[s.clauses[cref]])).Some?
        && Var(lit) !in s.assignments)
    case Branch(lit) => Var(lit) in s.assignments
    case Conflict(cref, level) =>
      var next := if q + 1 < |records| then Some(records[q + 1]) else None;
      || cref !in s.clauses || s.clauses[cref] >= |s.nodes|
      || (next == Some(EmptyClause) && LearnedNeeds(s.assignments, LitsOf(s.nodes[s.clauses[cref]])).None?)
      || (&& next != Some(EmptyClause)
          && !(next.Some? && next.value.ClauseDef? && LearnsIn(s, s.clauses[cref], next.value.id, next.value.lits, level)))
    case Del(cref) => cref !in s.clauses
    case _ => true
  }

  /** State `s` once the Branch or Implication `n` is appended and `_add_assignment` has run. */
  function Pushed(s: State, n: Node): (r: State)
  {
    var k := |s.nodes|;
    s.(nodes := s.nodes + [n], assignments := s.assignments[Var(LitOf(n)) := k], trail := s.trail + [k])
  }

  /**
   * The state the learning case of `_analyze_conflict` leaves when it passes
   * in state `s`: the learned clause appended and registered, the trail cut
   * at `trail_lim[level]`, and the implication of its first literal appended
   * and assigned.
   */
  ghost function LearnedState(s: State, conf: nat, cref: Option<int>, lits: seq<int>, level: int): (r: State)
    requires LearnsIn(s, conf, cref, lits, level)
  {
    var n := |s.nodes|;
    var i := PyIndex(level, |s.trailLim|).value;
    var ln := LearnedNode(s.nodes, s.assignments, conf, lits);
    var bt := Undone(s.assignments, s.trail, s.trailLim[i]);
    State(s.nodes + [ln, ImplicationNode(lits[0], Some(n), ImplicationNeeds(s.nodes + [ln], bt, lits[0], lits).value)],
      if cref.Some? then s.clauses[cref.value := n] else s.clauses,
      bt[Var(lits[0]) := n + 1], s.trail[..s.trailLim[i]] + [n + 1], s.trailLim[..i])
  }

  /**
   * One pass of the main loop of `analyze` on the line at `p` in state `s`,
   * when it neither raises nor learns the empty clause: the index of the
   * line after those it used, and the state it leaves.
   */
  ghost function Next(records: seq<Record>, p: nat, s: State): (r: Option<(nat, State)>)
    requires p < |records|
    ensures r.Some? ==> p < r.value.0 <= |records| && !Fails(records, p, s)
  {
    match records[p]
    case Imp(lit, cref) =>
      if Fails(records, p, s) then None
      else
        var c := s.clauses[cref];
        Some((p + 1, Pushed(s, ImplicationNode(lit, Some(c), ImplicationNeeds(s.nodes, s.assignments, lit, LitsOf(s.nodes[c])).value))))
    case Branch(lit) =>
      if Var(lit) in s.assignments then None
      else Some((p + 1, Pushed(s.(trailLim := s.trailLim + [|s.trail|]), BranchNode(lit))))
    case Conflict(cref, level) =>
      if && cref in s.clauses && s.clauses[cref] < |s.nodes| && p + 1 < |records| && records[p + 1].ClauseDef?
         && LearnsIn(s, s.clauses[cref], records[p + 1].id, records[p + 1].lits, level)
      then Some((p + 2, LearnedState(s, s.clauses[cref], records[p + 1].id, records[p + 1].lits, level)))
      else None
    case Del(cref) => if cref in s.clauses then Some((p + 1, s.(clauses := s.clauses - {cref}))) else None
    case _ => None
  }

  /**
   * Replaying from line `p` in state `s` reaches line `q` in state `t`:
   * every line in between passes, none of them learning the empty clause.
   */
  ghost predicate Replays(records: seq<Record>, p: nat, s: State, q: nat, t: State)
    decreases if p < q then q - p else 0
  {
    if q <= p then p == q && s == t
    else
      && p < |records| && Next(records, p, s).Some?
      && Replays(records, Next(records, p, s).value.0, Next(records, p, s).value.1, q, t)
  }

  /** A run that reaches line `q` goes on by the step the line at `q` takes. */
  lemma {:induction false} ReplaysStep(records: seq<Record>, p: nat, s: State, q: nat, t: State)
    requires Replays(records, p, s, q, t) && q < |records| && Next(records, q, t).Some?
    ensures Replays(records, p, s, Next(records, q, t).value.0, Next(records, q, t).value.1)
    decreases if p < q then q - p else 0
  {
    if p < q {
      var n := Next(records, p, s).value;
      ReplaysStep(records, n.0, n.1, q, t);
    }
  }

  /** A run reaches each line in at most one state: the state is a function of the lines replayed. */
  lemma {:induction false} ReplaysFunctional(records: seq<Record>, p: nat, s: State, q: nat, t: State, t': State)
    requires Replays(records, p, s, q, t) && Replays(records, p, s, q, t')
    ensures t == t'
    decreases if p < q then q - p else 0
  {
    if p < q {
      var n := Next(records, p, s).value;
      ReplaysFunctional(records, n.0, n.1, q, t, t');
    }
  }

  /** The empty clause that the `0` after the conflict at `q` learns in state `s`. */
  ghost function EmptyLearnedIn(records: seq<Record>, q: nat, s: State): (r: Node)
    requires LearnsEmpty(records, q) && !Fails(records, q, s)
  {
    LearnedNode(s.nodes, s.assignments, s.clauses[records[q].cref], [])
  }

  /** The header line at `p` repeats the id of an earlier header line, which `_add_clause` asserts against. */
  predicate HeaderClash(records: seq<Record>, p: nat)
  {
    && p < |records| && (forall k :: 0 <= k <= p ==> records[k].ClauseDef?) && records[p].id.Some?
    && exists k :: 0 <= k < p && records[k].id == records[p].id
  }

  /**
   * The header lines `records[..p]` were read into the arena `nodes` and the
   * table `clauses`: each is a clause, appended in order, and each id maps
   * to the line that gave it.
   */
  ghost predicate HeaderRead(records: seq<Record>, p: nat, nodes: seq<Node>, clauses: map<int, nat>)
  {
    && p <= |records| && (forall k :: 0 <= k < p ==> records[k].ClauseDef?)
    && |nodes| == p && (forall k :: 0 <= k < p ==> nodes[k] == OriginalClauseNode(records[k].lits))
    && (forall id :: id in clauses ==> clauses[id] < p && records[clauses[id]].id == Some(id))
    && (forall k :: 0 <= k < p && records[k].id.Some? ==> records[k].id.value in clauses && clauses[records[k].id.value] == k)
  }

  /** A registered id was given by an earlier header line. */
  lemma HeaderReadEarlier(records: seq<Record>, p: nat, nodes: seq<Node>, clauses: map<int, nat>, id: int)
    requires HeaderRead(records, p, nodes, clauses) && id in clauses
    ensures exists k :: 0 <= k < p && records[k].ClauseDef? && records[k].id == Some(id)
  {
    assert records[clauses[id]].id == Some(id);
  }

  /** Reading one more header line with a new id keeps `HeaderRead`. */
  lemma HeaderReadStep(records: seq<Record>, p: nat, nodes: seq<Node>, clauses: map<int, nat>)
    requires HeaderRead(records, p, nodes, clauses) && p < |records| && records[p].ClauseDef?
    requires records[p].id.None? || records[p].id.value !in clauses
    ensures HeaderRead(records, p + 1, nodes + [OriginalClauseNode(records[p].lits)],
      if records[p].id.Some? then clauses[records[p].id.value := p] else clauses)
  {
    var clauses' := if records[p].id.Some? then clauses[records[p].id.value := p] else clauses;
    forall k | 0 <= k <= p && records[k].id.Some?
      ensures records[k].id.value in clauses' && clauses'[records[k].id.value] == k
    {
      if k < p {
        assert records[k].id.value in clauses;
      }
    }
  }

  /**
   * The main loop of `analyze` starts at line `p` in state `h`: the header
   * lines before `p` were read into `h`'s arena and table, the line at `p`
   * is not a header line, and nothing is assigned yet.
   */
  ghost predicate Started(records: seq<Record>, p: nat, h: State)
  {
    && HeaderRead(records, p, h.nodes, h.clauses) && (p == |records| || !records[p].ClauseDef?)
    && h.assignments == map[] && h.trail == [] && h.trailLim == []
  }

  /** The main loop starts at `p` in state `h` and replays every line to the end, leaving state `t`. */
  ghost predicate RunsThrough(records: seq<Record>, p: nat, h: State, t: State)
  {
    Started(records, p, h) && Replays(records, p, h, |records|, t)
  }

  /**
   * The main loop starts at `p` in state `h` and reaches the conflict at `q`
   * in state `s`; the `0` after it learns the empty clause, the last object
   * of the arena `nodes`.
   */
  ghost predicate ProvesAt(records: seq<Record>, p: nat, h: State, q: nat, s: State, nodes: seq<Node>)
  {
    && Started(records, p, h) && Replays(records, p, h, q, s) && q < |records| && LearnsEmpty(records, q)
    && !Fails(records, q, s) && nodes == s.nodes + [EmptyLearnedIn(records, q, s)]
  }

  /** The main loop starts at `p` in state `h` and reaches line `q` in state `s`, where that line raises. */
  ghost predicate CrashesAt(records: seq<Record>, p: nat, h: State, q: nat, s: State)
  {
    && Started(records, p, h) && Replays(records, p, h, q, s) && q < |records|
    && (forall k :: 0 <= k < q ==> !records[k].EmptyClause?) && Fails(records, q, s)
  }

  /** The header lines fix where the main loop starts and the state it starts in. */
  lemma StartedUnique(records: seq<Record>, p: nat, h: State, p': nat, h': State)
    requires Started(records, p, h) && Started(records, p', h')
    ensures p == p' && h == h'
  {
    if p < p' {
      assert false;
    }
    if p' < p {
      assert false;
    }
    forall id | id in h.clauses
      ensures id in h'.clauses && h'.clauses[id] == h.clauses[id]
    {
      assert records[h.clauses[id]].id == Some(id);
    }
    forall id | id in h'.clauses
      ensures id in h.clauses
    {
      assert records[h'.clauses[id]].id == Some(id);
    }
    assert h.nodes == h'.nodes;
    assert h.clauses == h'.clauses;
  }

  /** A conflict followed by its learned clause holds no `0` line. */
  lemma LearnedPairGoesOn(records: seq<Record>, p0: nat)
    requires p0 + 1 < |records| && records[p0].Conflict? && records[p0 + 1].ClauseDef?
    ensures forall k :: p0 <= k < p0 + 2 ==> !records[k].EmptyClause?
  {
  }

  class TraceAnalyzer {
    var nodes: seq<Node>
    var needed: seq<bool>
    var clauses: map<int, nat>
    var assignments: map<nat, nat>
    var trail: seq<nat>
    var trailLim: seq<nat>

    ghost predicate Valid()
      reads this
    {
      && WF(nodes) && |needed| == |nodes|
      && (forall id :: id in clauses ==> clauses[id] < |nodes| && IsClause(nodes[clauses[id]]))
      && TrailOk(nodes, assignments, trail, trailLim)
    }

    /** During replay no object is needed yet. */
    ghost predicate Replaying()
      reads this
    {
      Valid() && forall k :: 0 <= k < |nodes| ==> !needed[k]
    }

    constructor ()
      ensures Replaying()
      ensures nodes == [] && clauses == map[] && assignments == map[] && trail == [] && trailLim == []
    {
      nodes, needed := [], [];
      clauses, assignments := map[], map[];
      trail, trailLim := [], [];
    }

    ghost function Snapshot(): (r: State)
      reads this
    {
      State(nodes, clauses, assignments, trail, trailLim)
    }

    /** A new Assignment or Clause object, not needed. */
    method Allocate(n: Node) returns (k: nat)
      requires Replaying() && NodeOk(n, |nodes|)
      modifies this`nodes, this`needed
      ensures k == old(|nodes|) && nodes == old(nodes) + [n] && needed == old(needed) + [false]
      ensures Replaying()
    {
      k := |nodes|;
      AppendWF(nodes, n);
      AppendNodeTrailOk(nodes, n, assignments, trail, trailLim);
      nodes := nodes + [n];
      needed := needed + [false];
    }

    /** `_add_assignment`: the variable must be unassigned. */
    method AddAssignment(k: nat)
      requires Replaying() && k < |nodes| && IsAssignment(nodes[k])
      requires VarAt(nodes, k) !in assignments
      modifies this`assignments, this`trail
      ensures assignments == old(assignments)[VarAt(nodes, k) := k] && trail == old(trail) + [k]
      ensures Replaying()
    {
      PushTrailOk(nodes, assignments, trail, trailLim, k);
      assignments := assignments[VarAt(nodes, k) := k];
      trail := trail + [k];
    }

    /** The Branch or Implication `n` was appended and assigned; nothing else changed. */
    twostate predicate Assigned(n: Node)
      reads this
    {
      var k := old(|nodes|);
      && nodes == old(nodes) + [n] && assignments == old(assignments)[Var(LitOf(n)) := k]
      && trail == old(trail) + [k] && clauses == old(clauses) && trailLim == old(trailLim)
    }

    /** A new Branch or Implication object, then `_add_assignment`. */
    method PushAssignment(n: Node)
      requires Replaying() && IsAssignment(n) && NodeOk(n, |nodes|)
      requires Var(LitOf(n)) !in assignments
      modifies this`nodes, this`needed, this`assignments, this`trail
      ensures Assigned(n) && Replaying()
    {
      var k := Allocate(n);
      AddAssignment(k);
    }

    /**
     * `_add_clause`: only a non-empty id registers the clause, and that id
     * may not be registered already.
     */
    method AddClause(c: nat, cref: Option<int>) returns (ok: bool)
      requires Replaying() && c < |nodes| && IsClause(nodes[c])
      modifies this`clauses
      ensures ok <==> cref.None? || cref.value !in old(clauses)
      ensures clauses == if ok && cref.Some? then old(clauses)[cref.value := c] else old(clauses)
      ensures Replaying()
    {
      if cref.None? {
        return true;
      }
      if cref.value in clauses {
        return false;
      }
      clauses := clauses[cref.value := c];
      ok := true;
    }

    method NewDecisionLevel()
      requires Replaying()
      modifies this`trailLim
      ensures trailLim == old(trailLim) + [|trail|]
      ensures Replaying()
    {
      trailLim := trailLim + [|trail|];
    }

    /**
     * The table `_backtrack_to` leaves when it cuts at checkpoint `i`:
     * every variable assigned on the trail from `trail_lim[i]` on is
     * unassigned.
     */
    ghost function Backtracked(i: nat): (r: map<nat, nat>)
      requires i < |trailLim| && trailLim[i] <= |trail|
      reads this`assignments, this`trail, this`trailLim
    {
      Undone(assignments, trail, trailLim[i])
    }

    /**
     * The state `_backtrack_to` leaves when it cuts at checkpoint `i`: both
     * lists cut before it, the variables cut off unassigned, nothing else
     * changed.
     */
    twostate predicate BackedTo(i: nat)
      requires old(Valid()) && i < old(|trailLim|)
      reads this
    {
      && trail == old(trail)[..old(trailLim)[i]] && trailLim == old(trailLim)[..i]
      && assignments == old(Backtracked(i))
      && nodes == old(nodes) && clauses == old(clauses)
    }

    /**
     * `_backtrack_to(level)`: `trail_lim[level]` must exist, with Python's
     * negative indices counting from the end (so, unlike the newer
     * analyser, backtracking to the current level fails).  The variables on
     * the trail from that checkpoint on are unassigned and both lists cut.
     */
    method BacktrackTo(level: int) returns (ok: bool)
      requires Replaying()
      modifies this`assignments, this`trail, this`trailLim
      ensures ok <==> PyIndex(level, old(|trailLim|)).Some?
      ensures ok <==> -old(|trailLim|) <= level < old(|trailLim|)
      ensures ok ==> BackedTo(PyIndex(level, old(|trailLim|)).value)
      ensures !ok ==> trail == old(trail) && trailLim == old(trailLim) && assignments == old(assignments)
      ensures Replaying()
    {
      var i := PyIndex(level, |trailLim|);
      if i.None? {
        return false;
      }
      var lo := trailLim[i.value];
      BacktrackTrailOk(nodes, assignments, trail, trailLim, i.value);
      UndoneUnassigns(nodes, assignments, trail, trailLim, lo);
      var t := trail;
      var asg := Unassign(nodes, assignments, t, lo);
      assignments := asg;
      trail := t[..lo];
      trailLim := trailLim[..i.value];
      ok := true;
    }

    /**
     * The capture loop of the Implication constructor: look up the
     * assignment of every antecedent literal on another variable than
     * `lit`'s and check that it makes the literal false.
     */
    method ImplicationDependencies(lit: int, ante: nat) returns (deps: Option<seq<nat>>)
      requires TrailOk(nodes, assignments, trail, trailLim) && ante < |nodes|
      ensures deps == ImplicationNeeds(nodes, assignments, lit, LitsOf(nodes[ante]))
    {
      var lits := LitsOf(nodes[ante]);
      var v := Var(lit);
      var acc: seq<nat> := [];
      var j := 0;
      while j < |lits|
        invariant 0 <= j <= |lits|
        invariant Opposers(nodes, assignments, Others(lits[..j], v)) == Some(acc)
      {
        var l := lits[j];
        OthersPrefix(lits, j, v);
        if Var(l) != v {
          OpposersSnoc(nodes, assignments, Others(lits[..j], v), l);
          if Var(l) !in assignments {
            OthersMember(lits, v, l);
            OpposersSpec(nodes, assignments, Others(lits, v));
            return None;
          }
          var a := assignments[Var(l)];
          TableEntries(nodes, assignments, trail, trailLim, Var(l));
          if (l > 0) == (LitOf(nodes[a]) > 0) {
            OthersMember(lits, v, l);
            OpposersSpec(nodes, assignments, Others(lits, v));
            return None;
          }
          acc := acc + [a];
        }
        j := j + 1;
      }
      assert lits[..j] == lits;
      deps := Some(acc);
    }

    /**
     * The capture loop of the LearnedClause constructor: look up the
     * assignment of the variable of every literal of the conflicting clause.
     */
    method LearnedDependencies(conflicting: nat) returns (deps: Option<seq<nat>>)
      requires conflicting < |nodes|
      ensures deps == LearnedNeeds(assignments, LitsOf(nodes[conflicting]))
    {
      var lits := LitsOf(nodes[conflicting]);
      var acc: seq<nat> := [];
      var j := 0;
      while j < |lits|
        invariant 0 <= j <= |lits|
        invariant forall l :: l in lits[..j] ==> Var(l) in assignments
        invariant acc == Lookup(assignments, lits[..j])
      {
        var l := lits[j];
        assert lits[..j + 1] == lits[..j] + [l];
        if Var(l) !in assignments {
          assert l in lits;
          return None;
        }
        LookupSnoc(assignments, lits[..j], l);
        acc := acc + [assignments[Var(l)]];
        j := j + 1;
      }
      assert lits[..j] == lits;
      deps := Some(acc);
    }

    /*
     * `needed`: an object already needed is left alone; otherwise it is
     * flagged, and an Implication or LearnedClause passes the mark on to
     * its antecedent (the conflicting clause) and then to its captured
     * assignments, in order.
     */

    method SetNeeded(i: nat)
      requires WF(nodes) && |needed| == |nodes| && i < |nodes|
      modifies this`needed
      ensures needed == Mark(nodes, old(needed), i)
      decreases i, 1
    {
      if !needed[i] {
        needed := needed[i := true];
        PassOn(i);
      }
    }

    /** The tail of `needed` in Implication and LearnedClause. */
    method PassOn(i: nat)
      requires WF(nodes) && |needed| == |nodes| && i < |nodes|
      modifies this`needed
      ensures needed == MarkAll(nodes, old(needed), Children(nodes[i]), i)
      decreases i, 0
    {
      var cs := Children(nodes[i]);
      assert NodeOk(nodes[i], i);
      var j := 0;
      while j < |cs|
        invariant 0 <= j <= |cs|
        invariant forall c :: c in cs[..j] ==> c < i
        invariant needed == MarkAll(nodes, old(needed), cs[..j], i)
      {
        assert cs[j] in cs;
        assert cs[..j + 1] == cs[..j] + [cs[j]];
        SetNeeded(cs[j]);
        j := j + 1;
      }
      assert cs[..j] == cs;
    }

    /**
     * The checks of `Implication(lit, ante, assignments)` and
     * `_add_assignment`: every literal of clause `ante` on another variable
     * is opposed by its assignment, and `lit`'s variable is unassigned.
     */
    ghost predicate CanImply(lit: int, ante: nat)
      requires Valid() && ante < |nodes|
      reads this
    {
      ImplicationNeeds(nodes, assignments, lit, LitsOf(nodes[ante])).Some? && Var(lit) !in assignments
    }

    /** The implication of `lit` by `ante`, with its captured assignments, was appended and assigned. */
    twostate predicate Implied(lit: int, ante: nat)
      requires old(Valid()) && ante < old(|nodes|) && old(CanImply(lit, ante))
      reads this
    {
      Assigned(ImplicationNode(lit, Some(ante), old(ImplicationNeeds(nodes, assignments, lit, LitsOf(nodes[ante]))).value))
    }

    /**
     * `Implication(lit, ante, assignments)` followed by `_add_assignment`:
     * the constructor's lookups and sign checks pass and the variable is
     * unassigned; the implication is then appended and assigned.
     */
    method Imply(lit: int, ante: nat) returns (ok: bool)
      requires Replaying() && ante < |nodes|
      modifies this`nodes, this`needed, this`assignments, this`trail
      ensures ok <==> old(CanImply(lit, ante))
      ensures ok ==> Implied(lit, ante) && Replaying()
    {
      var deps := ImplicationDependencies(lit, ante);
      if deps.None? || Var(lit) in assignments {
        return false;
      }
      OpposersBound(nodes, assignments, Others(LitsOf(nodes[ante]), Var(lit)));
      PushAssignment(ImplicationNode(lit, Some(ante), deps.value));
      ok := true;
    }

    /**
     * What an `i <lit> <ante>` line does: `clauses[ante]` must exist and
     * imply `lit`; it becomes the implication's antecedent.
     */
    twostate predicate ImplicationStep(lit: int, cref: int, ok: bool)
      requires old(Valid())
      reads this
    {
      && (ok <==> cref in old(clauses) && old(CanImply(lit, clauses[cref])))
      && (ok ==> Implied(lit, old(clauses)[cref]))
    }

    /** An `i <lit> <ante>` line. */
    method AnalyzeImplication(lit: int, cref: int) returns (ok: bool)
      requires Replaying()
      modifies this`nodes, this`needed, this`assignments, this`trail
      ensures ImplicationStep(lit, cref, ok)
      ensures ok ==> Replaying() && BranchIndices(nodes) == BranchIndices(old(nodes))
    {
      if cref !in clauses {
        return false;
      }
      ok := Imply(lit, clauses[cref]);
      if ok {
        BranchIndicesSnoc(old(nodes), nodes[old(|nodes|)]);
      }
    }

    /**
     * What a `b <lit>` line does: a decision level is opened in any case;
     * it passes when the variable is unassigned, and then the branch is
     * appended and assigned.
     */
    twostate predicate BranchStep(lit: int, ok: bool)
      requires old(Valid())
      reads this
    {
      && (ok <==> Var(lit) !in old(assignments))
      && trailLim == old(trailLim) + [old(|trail|)]
      && (ok ==>
            var n := old(|nodes|);
            && nodes == old(nodes) + [BranchNode(lit)] && assignments == old(assignments)[Var(lit) := n]
            && trail == old(trail) + [n] && clauses == old(clauses))
    }

    /**
     * A `b <lit>` line: `_new_decision_level`, then a new Branch and
     * `_add_assignment`.  `k` is the branch, which the caller lists.
     */
    method AnalyzeBranch(lit: int) returns (ok: bool, k: nat)
      requires Replaying()
      modifies this`nodes, this`needed, this`assignments, this`trail, this`trailLim
      ensures BranchStep(lit, ok)
      ensures ok ==> k == old(|nodes|) && Replaying()
    {
      NewDecisionLevel();
      if Var(lit) in assignments {
        return false, 0;
      }
      k := |nodes|;
      PushAssignment(BranchNode(lit));
      ok := true;
    }

    /** What a `d <id>` line does: the id must be registered, and it is removed. */
    twostate predicate DeleteStep(cref: int, ok: bool)
      reads this
    {
      && (ok <==> cref in old(clauses)) && clauses == old(clauses) - {cref}
      && nodes == old(nodes) && assignments == old(assignments) && trail == old(trail) && trailLim == old(trailLim)
    }

    /** A `d <id>` line: `del self.clauses[id]`. */
    method Delete(cref: int) returns (ok: bool)
      requires Replaying()
      modifies this`clauses
      ensures DeleteStep(cref, ok)
      ensures Replaying()
    {
      if cref !in clauses {
        return false;
      }
      clauses := clauses - {cref};
      ok := true;
    }

    /**
     * A header line `<id>: l1 .. ln 0` (or `: l1 .. ln 0`): an original
     * clause, registered under its id when it has one.
     */
    method AddOriginal(cref: Option<int>, lits: seq<int>) returns (ok: bool)
      requires Replaying()
      modifies this`nodes, this`needed, this`clauses
      ensures ok <==> cref.None? || cref.value !in old(clauses)
      ensures nodes == old(nodes) + [OriginalClauseNode(lits)]
      ensures clauses == if ok && cref.Some? then old(clauses)[cref.value := old(|nodes|)] else old(clauses)
      ensures Replaying()
      ensures BranchIndices(nodes) == BranchIndices(old(nodes))
    {
      var c := Allocate(OriginalClauseNode(lits));
      ok := AddClause(c, cref);
    }

    /**
     * The empty clause learned on clause `conf` was appended as object `e`,
     * not registered, and marked needed, which marked exactly what it
     * reaches; nothing else changed.
     */
    twostate predicate EmptyLearned(conf: nat, e: nat)
      requires old(Valid()) && conf < old(|nodes|) && old(LearnedNeeds(assignments, LitsOf(nodes[conf]))).Some?
      reads this
    {
      && e == old(|nodes|) && nodes == old(nodes) + [LearnedNode(old(nodes), old(assignments), conf, [])]
      && clauses == old(clauses) && assignments == old(assignments)
      && trail == old(trail) && trailLim == old(trailLim)
      && WF(nodes) && |needed| == |nodes| && Closed(nodes, needed)
      && forall k :: 0 <= k < |nodes| ==> (needed[k] <==> Reaches(nodes, e, k))
    }

    /**
     * `_analyze_conflict` when the next line is `0`: the empty clause is
     * learned from the conflicting clause `conf` (every variable of which
     * must be assigned) and marked needed; it is not registered.
     */
    method LearnEmpty(conf: nat) returns (st: Step)
      requires Replaying() && conf < |nodes| && IsClause(nodes[conf])
      modifies this`nodes, this`needed
      ensures !st.Continue?
      ensures st.Proved? <==> old(LearnedNeeds(assignments, LitsOf(nodes[conf]))).Some?
      ensures st.Proved? ==> EmptyLearned(conf, st.clause)
      ensures st.Proved? ==> BranchIndices(nodes) == BranchIndices(old(nodes))
    {
      var deps := LearnedDependencies(conf);
      if deps.None? {
        return Failed;
      }
      LearnedNeedsBound(nodes, assignments, trail, trailLim, LitsOf(nodes[conf]));
      var e := Allocate(LearnedClauseNode([], conf, deps.value));
      assert Closed(nodes, needed);
      MarkClosure(nodes, needed, e);
      SetNeeded(e);
      st := Proved(e);
    }

    /**
     * The clause `lits` learned on clause `conf` was appended and
     * registered under `cref` when it has one; nothing else changed.
     */
    twostate predicate ClauseLearned(conf: nat, cref: Option<int>, lits: seq<int>)
      requires old(Valid()) && conf < old(|nodes|) && old(LearnedNeeds(assignments, LitsOf(nodes[conf]))).Some?
      reads this
    {
      && nodes == old(nodes) + [LearnedNode(old(nodes), old(assignments), conf, lits)]
      && clauses == (if cref.Some? then old(clauses)[cref.value := old(|nodes|)] else old(clauses))
      && assignments == old(assignments) && trail == old(trail) && trailLim == old(trailLim)
    }

    /**
     * `LearnedClause(lits, conflicting, assignments)` and `_add_clause`
     * under `cref`: every variable of the conflicting clause is assigned and
     * the id, when there is one, is new.
     */
    method AddLearned(conf: nat, cref: Option<int>, lits: seq<int>) returns (ok: bool)
      requires Replaying() && conf < |nodes| && IsClause(nodes[conf])
      modifies this`nodes, this`needed, this`clauses
      ensures ok <==>
        old(LearnedNeeds(assignments, LitsOf(nodes[conf]))).Some? && (cref.None? || cref.value !in old(clauses))
      ensures ok ==> ClauseLearned(conf, cref, lits) && Replaying()
    {
      var deps := LearnedDependencies(conf);
      if deps.None? || (cref.Some? && cref.value in clauses) {
        return false;
      }
      LearnedNeedsBound(nodes, assignments, trail, trailLim, LitsOf(nodes[conf]));
      var n := LearnedClauseNode(lits, conf, deps.value);
      assert n == LearnedNode(nodes, assignments, conf, lits);
      var c := Allocate(n);
      ok := AddClause(c, cref);
    }

    /**
     * Once the trail is cut at checkpoint `i`, the clause `lits` can imply
     * its first literal: it has one, every other literal on another variable
     * is opposed by an assignment left standing, and the first literal's
     * variable is unassigned.
     */
    ghost predicate CanAssert(i: nat, lits: seq<int>)
      requires Valid() && i < |trailLim|
      reads this
    {
      lits != [] && ImplicationNeeds(nodes, Backtracked(i), lits[0], lits).Some? && Var(lits[0]) !in Backtracked(i)
    }

    /** The assignments the implication asserted by clause `c` captures after the cut at checkpoint `i`. */
    ghost function AssertingNeedsOf(i: nat, c: nat): (r: Option<seq<nat>>)
      requires Valid() && i < |trailLim| && c < |nodes| && LitsOf(nodes[c]) != []
      reads this
    {
      ImplicationNeeds(nodes, Backtracked(i), LitsOf(nodes[c])[0], LitsOf(nodes[c]))
    }

    /**
     * The trail was cut at checkpoint `i` and the implication of the first
     * literal of clause `c`, with its captured assignments, appended and
     * assigned.
     */
    twostate predicate Asserted(i: nat, c: nat)
      requires old(Valid()) && i < old(|trailLim|) && c < old(|nodes|) && old(CanAssert(i, LitsOf(nodes[c])))
      reads this
    {
      var n := old(|nodes|);
      var lits := old(LitsOf(nodes[c]));
      && nodes == old(nodes) + [ImplicationNode(lits[0], Some(c), old(AssertingNeedsOf(i, c)).value)]
      && assignments == old(Backtracked(i))[Var(lits[0]) := n]
      && trail == old(trail)[..old(trailLim)[i]] + [n] && trailLim == old(trailLim)[..i]
      && clauses == old(clauses)
    }

    /**
     * The end of `_analyze_conflict`: backtrack to `level`, then imply the
     * first literal of the learned clause `c` by it.  It passes when
     * `trail_lim[level]` exists, the clause is not empty, and it can imply
     * that literal in the table the backtrack leaves.
     */
    method Assert(level: int, c: nat) returns (ok: bool)
      requires Replaying() && c < |nodes|
      modifies this`nodes, this`needed, this`assignments, this`trail, this`trailLim
      ensures ok <==>
        PyIndex(level, old(|trailLim|)).Some? && old(CanAssert(PyIndex(level, |trailLim|).value, LitsOf(nodes[c])))
      ensures ok ==> Asserted(PyIndex(level, old(|trailLim|)).value, c) && Replaying()
    {
      ok := BacktrackTo(level);
      if !ok || LitsOf(nodes[c]) == [] {
        return false;
      }
      ok := Imply(LitsOf(nodes[c])[0], c);
    }

    /**
     * When `_analyze_conflict` learns the clause `lits` on clause `conf`
     * and passes: every variable of `conf` is assigned, the id is new,
     * `trail_lim[level]` exists, the clause is not empty, and once the
     * trail is cut there it can imply its first literal.
     */
    ghost predicate CanLearn(conf: nat, cref: Option<int>, lits: seq<int>, level: int)
      requires Valid() && conf < |nodes|
      reads this
    {
      && LearnedNeeds(assignments, LitsOf(nodes[conf])).Some? && (cref.None? || cref.value !in clauses)
      && PyIndex(level, |trailLim|).Some? && lits != []
      && AssertingNeeds(conf, lits, PyIndex(level, |trailLim|).value).Some?
      && Var(lits[0]) !in Backtracked(PyIndex(level, |trailLim|).value)
    }

    /** `CanLearn` is the learning condition `LearnsIn` on the current state. */
    lemma CanLearnIn(conf: nat, cref: Option<int>, lits: seq<int>, level: int)
      requires Valid() && conf < |nodes|
      ensures CanLearn(conf, cref, lits, level) <==> LearnsIn(Snapshot(), conf, cref, lits, level)
    {
    }

    /** The assignments the implication asserted by the learned clause `lits` captures after the cut at checkpoint `i`. */
    ghost function AssertingNeeds(conf: nat, lits: seq<int>, i: nat): (r: Option<seq<nat>>)
      requires Valid() && conf < |nodes| && LearnedNeeds(assignments, LitsOf(nodes[conf])).Some?
      requires i < |trailLim| && lits != []
      reads this
    {
      ImplicationNeeds(nodes + [LearnedNode(nodes, assignments, conf, lits)], Backtracked(i), lits[0], lits)
    }

    /**
     * The learned clause was appended and registered, the trail cut at the
     * checkpoint of `level`, and the implication of its first literal
     * appended and assigned.
     */
    twostate predicate Learned(conf: nat, cref: Option<int>, lits: seq<int>, level: int)
      requires old(Valid()) && conf < old(|nodes|) && old(CanLearn(conf, cref, lits, level))
      reads this
    {
      var n := old(|nodes|);
      var i := PyIndex(level, old(|trailLim|)).value;
      && nodes == old(nodes) + [LearnedNode(old(nodes), old(assignments), conf, lits),
           ImplicationNode(lits[0], Some(n), old(AssertingNeeds(conf, lits, PyIndex(level, |trailLim|).value)).value)]
      && clauses == (if cref.Some? then old(clauses)[cref.value := n] else old(clauses))
      && assignments == old(Backtracked(PyIndex(level, |trailLim|).value))[Var(lits[0]) := n + 1]
      && trail == old(trail)[..old(trailLim)[i]] + [n + 1]
      && trailLim == old(trailLim)[..i]
    }

    /**
     * A conflict on clause `conf` followed by the learned clause `lits`
     * (under `cref`, when it has an id): the clause is learned and
     * registered, the trail is cut back to `level`, and its first literal is
     * implied by it.
     */
    method Learn(conf: nat, cref: Option<int>, lits: seq<int>, level: int) returns (ok: bool)
      requires Replaying() && conf < |nodes| && IsClause(nodes[conf])
      modifies this`nodes, this`needed, this`clauses, this`assignments, this`trail, this`trailLim
      ensures ok <==> old(CanLearn(conf, cref, lits, level))
      ensures ok ==> Learned(conf, cref, lits, level) && Replaying()
    {
      var n := |nodes|;
      ok := AddLearned(conf, cref, lits);
      if !ok {
        return;
      }
      var i := PyIndex(level, |trailLim|);
      if i.None? || lits == [] {
        return false;
      }
      assert |nodes| == n + 1 && LitsOf(nodes[n]) == lits;
      ghost var mid := Learning(conf, cref, lits, level, i.value, Snapshot(), Backtracked(i.value));
      ok := Assert(level, n);
      if ok {
        LearnedComposed(mid);
      }
    }

    /**
     * The two steps of `Learn` compose into `Learned`: the learned clause
     * registered (giving state `s.mid`), then the backtrack and the
     * implication of its first literal.
     */
    twostate lemma LearnedComposed(s: Learning)
      requires old(Valid()) && s.conf < old(|nodes|) && old(CanLearn(s.conf, s.cref, s.lits, s.level))
      requires PyIndex(s.level, old(|trailLim|)) == Some(s.index)
      requires s.mid.nodes == old(nodes) + [LearnedNode(old(nodes), old(assignments), s.conf, s.lits)]
      requires s.mid.clauses == (if s.cref.Some? then old(clauses)[s.cref.value := old(|nodes|)] else old(clauses))
      requires s.mid.assignments == old(assignments) && s.mid.trail == old(trail) && s.mid.trailLim == old(trailLim)
      requires s.bt == Undone(s.mid.assignments, s.mid.trail, s.mid.trailLim[s.index])
      requires ImplicationNeeds(s.mid.nodes, s.bt, s.lits[0], s.lits).Some?
      requires nodes == s.mid.nodes + [ImplicationNode(s.lits[0], Some(old(|nodes|)),
                 ImplicationNeeds(s.mid.nodes, s.bt, s.lits[0], s.lits).value)]
      requires assignments == s.bt[Var(s.lits[0]) := |s.mid.nodes|]
      requires trail == s.mid.trail[..s.mid.trailLim[s.index]] + [|s.mid.nodes|]
      requires trailLim == s.mid.trailLim[..s.index] && clauses == s.mid.clauses
      ensures Learned(s.conf, s.cref, s.lits, s.level)
    {
    }

    /**
     * What `_analyze_conflict` on a `k <id> <level>` line does, `next` being
     * the line after it: `clauses[id]` must exist, the conflicting clause.
     * When the next line is `0` the empty clause is learned and marked;
     * otherwise the next line must be the learned clause, which is learned.
     */
    twostate predicate ConflictStep(cref: int, level: int, next: Option<Record>, st: Step)
      requires old(Valid())
      reads this
    {
      && (st.Proved? <==>
            && cref in old(clauses) && next == Some(EmptyClause)
            && old(LearnedNeeds(assignments, LitsOf(nodes[clauses[cref]]))).Some?)
      && (st.Continue? <==>
            && cref in old(clauses) && next.Some? && next.value.ClauseDef?
            && old(CanLearn(clauses[cref], next.value.id, next.value.lits, level)))
      && (st.Proved? ==> EmptyLearned(old(clauses)[cref], st.clause))
      && (st.Continue? ==> Learned(old(clauses)[cref], next.value.id, next.value.lits, level))
    }

    /** `_analyze_conflict` on a `k <id> <level>` line, `next` being the line after it. */
    method AnalyzeConflict(cref: int, level: int, next: Option<Record>) returns (st: Step)
      requires Replaying()
      modifies this`nodes, this`needed, this`clauses, this`assignments, this`trail, this`trailLim
      ensures ConflictStep(cref, level, next, st)
      ensures st.Continue? ==> next.Some? && next.value.ClauseDef? && Replaying()
      ensures st.Continue? ==> BranchIndices(nodes) == BranchIndices(old(nodes))
      ensures st.Proved? ==> BranchIndices(nodes) == BranchIndices(old(nodes))
    {
      if cref !in clauses {
        return Failed;
      }
      var conf := clauses[cref];
      if next == Some(EmptyClause) {
        st := LearnEmpty(conf);
        return;
      }
      if next.None? || !next.value.ClauseDef? {
        return Failed;
      }
      ghost var before := nodes;
      var ok := Learn(conf, next.value.id, next.value.lits, level);
      st := if ok then Continue else Failed;
      if ok {
        BranchIndicesSnoc(before, nodes[|before|]);
        BranchIndicesSnoc(before + [nodes[|before|]], nodes[|before| + 1]);
        assert nodes == before + [nodes[|before|]] + [nodes[|before| + 1]];
      }
    }

    /**
     * What the line at `p0` does, `p` being the index just past the lines
     * it used (a conflict also uses the learned clause after it): each kind
     * of line does what its step predicate says, and any line other than
     * `i`, `b`, `k` and `d` fails the final assertion.
     */
    twostate predicate RecordStep(records: seq<Record>, p0: nat, st: Step, p: nat)
      requires old(Valid()) && p0 < p <= |records|
      reads this
    {
      match records[p0]
      case Imp(lit, cref) => p == p0 + 1 && !st.Proved? && ImplicationStep(lit, cref, st.Continue?)
      case Branch(lit) => p == p0 + 1 && !st.Proved? && BranchStep(lit, st.Continue?)
      case Conflict(cref, level) =>
        && p == p0 + (if st.Continue? then 2 else 1)
        && ConflictStep(cref, level, if p0 + 1 < |records| then Some(records[p0 + 1]) else None, st)
      case Del(cref) => p == p0 + 1 && !st.Proved? && DeleteStep(cref, st.Continue?)
      case ClauseDef(_, _) => p == p0 + 1 && st.Failed?
      case Reset => p == p0 + 1 && st.Failed?
      case Move(_, _) => p == p0 + 1 && st.Failed?
      case EmptyClause => p == p0 + 1 && st.Failed?
    }

    /** A `k` line at `p0`, with the line after it. */
    method DispatchConflict(records: seq<Record>, p0: nat) returns (st: Step, p: nat)
      requires Replaying() && p0 < |records| && records[p0].Conflict?
      modifies this
      ensures p0 < p <= |records| && RecordStep(records, p0, st, p)
      ensures st.Failed? <==> Fails(records, p0, old(Snapshot()))
      ensures st.Continue? <==> Next(records, p0, old(Snapshot())).Some?
      ensures st.Continue? ==> Next(records, p0, old(Snapshot())) == Some((p, Snapshot()))
      ensures st.Continue? ==> Replaying() && BranchIndices(nodes) == BranchIndices(old(nodes))
      ensures st.Continue? ==> forall k :: p0 <= k < p ==> !records[k].EmptyClause?
      ensures st.Proved? ==> LearnsEmpty(records, p0)
      ensures st.Proved? ==>
        && LearnsEmpty(records, p0) && !Fails(records, p0, old(Snapshot()))
        && st.clause == old(|nodes|) && nodes == old(nodes) + [EmptyLearnedIn(records, p0, old(Snapshot()))]
      ensures st.Proved? ==>
        && st.clause < |nodes| && nodes[st.clause].LearnedClauseNode? && nodes[st.clause].lits == []
        && WF(nodes) && |needed| == |nodes|
        && (forall k :: 0 <= k < |nodes| ==> (needed[k] <==> Reaches(nodes, st.clause, k)))
        && BranchIndices(nodes) == BranchIndices(old(nodes))
    {
      var cref, level := records[p0].cref, records[p0].level;
      var next := if p0 + 1 < |records| then Some(records[p0 + 1]) else None;
      if cref in clauses && next.Some? && next.value.ClauseDef? {
        CanLearnIn(clauses[cref], next.value.id, next.value.lits, level);
      }
      st := AnalyzeConflict(cref, level, next);
      p := p0 + 1;
      if st.Continue? {
        p := p0 + 2;
        LearnedPairGoesOn(records, p0);
      }
    }

    /** Any line at `p0` but a `k` line; `branch` is the branch it appended, if any. */
    method DispatchOther(records: seq<Record>, p0: nat) returns (st: Step, p: nat, branch: Option<nat>)
      requires Replaying() && p0 < |records| && !records[p0].Conflict?
      modifies this
      ensures p == p0 + 1 && RecordStep(records, p0, st, p) && !st.Proved?
      ensures st.Failed? <==> Fails(records, p0, old(Snapshot()))
      ensures st.Continue? <==> Next(records, p0, old(Snapshot())).Some?
      ensures st.Continue? ==> Next(records, p0, old(Snapshot())) == Some((p, Snapshot()))
      ensures st.Continue? ==> Replaying()
      ensures st.Continue? ==>
        BranchIndices(nodes) == BranchIndices(old(nodes)) + (if branch.Some? then [branch.value] else [])
      ensures branch.Some? <==> st.Continue? && records[p0].Branch?
      ensures st.Continue? ==> !records[p0].EmptyClause?
    {
      p := p0 + 1;
      branch := None;
      match records[p0] {
        case Imp(lit, cref) =>
          var ok := AnalyzeImplication(lit, cref);
          st := if ok then Continue else Failed;
        case Branch(lit) =>
          var ok, k := AnalyzeBranch(lit);
          st := if ok then Continue else Failed;
          if ok {
            BranchIndicesSnoc(old(nodes), BranchNode(lit));
            branch := Some(k);
          }
        case Del(cref) =>
          var ok := Delete(cref);
          st := if ok then Continue else Failed;
        case _ =>
          st := Failed;
      }
    }

    /**
     * One pass of the main loop of `analyze` on the line at `p0`; `branch`
     * is the branch it appended, if any.
     */
    method Dispatch(records: seq<Record>, p0: nat) returns (st: Step, p: nat, branch: Option<nat>)
      requires Replaying() && p0 < |records|
      modifies this
      ensures p0 < p <= |records| && RecordStep(records, p0, st, p)
      ensures st.Failed? <==> Fails(records, p0, old(Snapshot()))
      ensures st.Continue? <==> Next(records, p0, old(Snapshot())).Some?
      ensures st.Continue? ==> Next(records, p0, old(Snapshot())) == Some((p, Snapshot()))
      ensures st.Continue? ==> Replaying()
      ensures st.Continue? ==>
        BranchIndices(nodes) == BranchIndices(old(nodes)) + (if branch.Some? then [branch.value] else [])
      ensures branch.Some? <==> st.Continue? && records[p0].Branch?
      ensures st.Continue? ==> forall k :: p0 <= k < p ==> !records[k].EmptyClause?
      ensures st.Proved? ==> LearnsEmpty(records, p0)
      ensures st.Proved? ==>
        && LearnsEmpty(records, p0) && !Fails(records, p0, old(Snapshot()))
        && st.clause == old(|nodes|) && nodes == old(nodes) + [EmptyLearnedIn(records, p0, old(Snapshot()))]
      ensures st.Proved? ==>
        && st.clause < |nodes| && nodes[st.clause].LearnedClauseNode? && nodes[st.clause].lits == []
        && WF(nodes) && |needed| == |nodes|
        && (forall k :: 0 <= k < |nodes| ==> (needed[k] <==> Reaches(nodes, st.clause, k)))
        && BranchIndices(nodes) == BranchIndices(old(nodes))
    {
      if records[p0].Conflict? {
        st, p := DispatchConflict(records, p0);
        branch := None;
      } else {
        st, p, branch := DispatchOther(records, p0);
      }
    }

    /**
     * The header loop of `analyze`: every leading line holding `:` is an
     * original clause, appended and registered under its id, which must be
     * new.  `p` is the index of the first line it did not read.
     */
    method ReadHeader(records: seq<Record>) returns (ok: bool, p: nat)
      requires Replaying() && nodes == [] && clauses == map[] && assignments == map[] && trail == [] && trailLim == []
      modifies this`nodes, this`needed, this`clauses
      ensures p <= |records| && forall k :: 0 <= k < p ==> records[k].ClauseDef?
      ensures ok ==> HeaderRead(records, p, nodes, clauses) && (p == |records| || !records[p].ClauseDef?)
      ensures ok ==> Started(records, p, Snapshot())
      ensures !ok ==>
        && p < |records| && records[p].ClauseDef? && records[p].id.Some?
        && exists k :: 0 <= k < p && records[k].id == records[p].id
      ensures Replaying() && BranchIndices(nodes) == []
    {
      p := 0;
      while p < |records| && records[p].ClauseDef?
        invariant HeaderRead(records, p, nodes, clauses) && Replaying() && BranchIndices(nodes) == []
        decreases |records| - p
      {
        var id := records[p].id;
        if id.Some? && id.value in clauses {
          HeaderReadEarlier(records, p, nodes, clauses, id.value);
        } else {
          HeaderReadStep(records, p, nodes, clauses);
        }
        ok := AddOriginal(id, records[p].lits);
        if !ok {
          return;
        }
        p := p + 1;
      }
      ok := true;
    }

    /**
     * The main loop of `analyze` from line `p0`: lines are replayed until a
     * conflict learns the empty clause (`empty`) or the input ends;
     * `branches` lists the branches appended, in order.  `ok` is false when
     * a line fails: `q` is that line and `s` the state the loop reached it in.
     */
    method Replay(records: seq<Record>, p0: nat)
      returns (ok: bool, empty: Option<nat>, branches: seq<nat>, ghost q: nat, ghost s: State)
      requires Replaying() && p0 <= |records| && BranchIndices(nodes) == []
      modifies this
      ensures !ok ==>
        && p0 <= q < |records| && (forall k :: p0 <= k < q ==> !records[k].EmptyClause?)
        && Replays(records, p0, old(Snapshot()), q, s) && Fails(records, q, s)
      ensures ok && empty.None? ==> Replays(records, p0, old(Snapshot()), |records|, Snapshot())
      ensures ok && empty.Some? ==>
        && Replays(records, p0, old(Snapshot()), q, s) && q < |records| && LearnsEmpty(records, q)
        && !Fails(records, q, s) && empty.value == |s.nodes| && nodes == s.nodes + [EmptyLearnedIn(records, q, s)]
      ensures ok ==> WF(nodes) && |needed| == |nodes| && branches == BranchIndices(nodes)
      ensures ok && empty.None? ==> Replaying() && forall k :: p0 <= k < |records| ==> !records[k].EmptyClause?
      ensures ok && empty.Some? ==>
        exists k :: p0 <= k && LearnsEmpty(records, k) && forall j :: p0 <= j < k ==> !records[j].EmptyClause?
      ensures ok && empty.Some? ==>
        && empty.value < |nodes|
        && nodes[empty.value].LearnedClauseNode? && nodes[empty.value].lits == []
        && forall k :: 0 <= k < |nodes| ==> (needed[k] <==> Reaches(nodes, empty.value, k))
    {
      var p := p0;
      branches := [];
      empty := None;
      q, s := p0, Snapshot();
      while p < |records|
        invariant p0 <= p <= |records| && Replaying() && branches == BranchIndices(nodes)
        invariant forall k :: p0 <= k < p ==> !records[k].EmptyClause?
        invariant Replays(records, p0, old(Snapshot()), p, Snapshot())
        decreases |records| - p
      {
        q, s := p, Snapshot();
        var st, p', branch := Dispatch(records, p);
        if st.Failed? {
          return false, None, [], q, s;
        }
        if st.Continue? {
          ReplaysStep(records, p0, old(Snapshot()), q, s);
        }
        if branch.Some? {
          branches := branches + [branch.value];
        }
        if st.Proved? {
          return true, Some(st.clause), branches, q, s;
        }
        p := p';
      }
      ok := true;
    }

    /**
     * `analyze` on a fresh analyser: the header lines (those holding `:`)
     * are the original clauses; then lines are replayed until a conflict
     * learns the empty clause or the input ends, and the literals of the
     * needed branches are written, in branch order.
     */
    method Analyze(records: seq<Record>) returns (res: Outcome)
      requires Replaying() && nodes == [] && clauses == map[] && assignments == map[] && trail == [] && trailLim == []
      modifies this
      ensures res.Written? && res.emptyClause.None? ==> exists p: nat, h :: RunsThrough(records, p, h, Snapshot())
      ensures res.Written? && res.emptyClause.None? ==> |needed| == |nodes| && forall k :: 0 <= k < |nodes| ==> !needed[k]
      ensures res.Written? && res.emptyClause.Some? ==>
        exists p: nat, h, q: nat, s :: ProvesAt(records, p, h, q, s, nodes) && res.emptyClause.value == |s.nodes|
      ensures res.Written? && res.emptyClause.None? ==> forall k :: 0 <= k < |records| ==> !records[k].EmptyClause?
      ensures res.Written? && res.emptyClause.Some? ==>
        exists k :: 0 <= k && LearnsEmpty(records, k) && forall j :: 0 <= j < k ==> !records[j].EmptyClause?
      ensures res.Written? ==> WF(nodes) && |needed| == |nodes|
      ensures res.Written? ==>
        && (forall j :: 0 <= j < |BranchIndices(nodes)| ==> BranchIndices(nodes)[j] < |nodes|)
        && res.lits == NeededBranchLits(nodes, needed, BranchIndices(nodes))
      ensures res.Written? && res.emptyClause.None? ==> res.lits == []
      ensures res.Written? && res.emptyClause.Some? ==>
        && res.emptyClause.value < |nodes|
        && nodes[res.emptyClause.value].LearnedClauseNode? && nodes[res.emptyClause.value].lits == []
        && forall k :: 0 <= k < |nodes| ==> (needed[k] <==> Reaches(nodes, res.emptyClause.value, k))
      ensures res.Crashed? ==>
        || (exists p :: HeaderClash(records, p))
        || exists p: nat, h, q: nat, s :: CrashesAt(records, p, h, q, s)
    {
      var ok, p := ReadHeader(records);
      if !ok {
        assert HeaderClash(records, p);
        return Crashed;
      }
      ghost var h := Snapshot();
      var empty, branches;
      ghost var q, s;
      ok, empty, branches, q, s := Replay(records, p);
      if !ok {
        assert forall k :: 0 <= k < q ==> !records[k].EmptyClause?;
        assert CrashesAt(records, p, h, q, s);
        return Crashed;
      }
      BranchIndicesSpec(nodes);
      var lits := WriteBranches(branches);
      if empty.None? {
        NeededBranchLitsNone(nodes, needed, branches);
        assert RunsThrough(records, p, h, Snapshot());
      } else {
        assert ProvesAt(records, p, h, q, s, nodes);
      }
      res := Written(empty, lits);
    }

    /** The output loop of `analyze`: `foutput` of every listed branch, in order. */
    method WriteBranches(branches: seq<nat>) returns (lits: seq<int>)
      requires |needed| == |nodes| && forall j :: 0 <= j < |branches| ==> branches[j] < |nodes|
      ensures lits == NeededBranchLits(nodes, needed, branches)
    {
      lits := [];
      var j := 0;
      while j < |branches|
        invariant 0 <= j <= |branches|
        invariant lits == NeededBranchLits(nodes, needed, branches[..j])
      {
        assert branches[..j + 1][..j] == branches[..j];
        var b := branches[j];
        if needed[b] {
          lits := lits + [LitOf(nodes[b])];
        }
        j := j + 1;
      }
      assert branches[..j] == branches;
    }
  }
}
