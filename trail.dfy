/**
 * The assignment trail both analysers keep: the variable -> assignment table,
 * the trail of live assignments in the order they were made, and the
 * decision-level checkpoints (`trail_lim`).  `TrailOk` is the invariant the
 * two replays preserve; the lemmas show that pushing an assignment and
 * backtracking keep it.
 */
module Trail {
  import opened Wrappers
  import opened Trace
  import opened EventGraph

  /** The variables assigned by the arena indices in `trail`. */
  ghost function TrailVars(nodes: seq<Node>, trail: seq<nat>): (r: set<nat>)
    requires forall a :: 0 <= a < |trail| ==> trail[a] < |nodes|
  {
    set a | 0 <= a < |trail| :: VarAt(nodes, trail[a])
  }

  /**
   * The trail holds assignments on pairwise distinct variables (at most one
   * live assignment per variable), the table maps exactly those variables to
   * their assignment, and the checkpoints are ascending offsets into the trail.
   */
  ghost predicate TrailOk(nodes: seq<Node>, assignments: map<nat, nat>, trail: seq<nat>, trailLim: seq<nat>)
  {
    && (forall a :: 0 <= a < |trail| ==> trail[a] < |nodes| && IsAssignment(nodes[trail[a]]))
    && (forall a, b :: 0 <= a < b < |trail| ==> VarAt(nodes, trail[a]) != VarAt(nodes, trail[b]))
    && assignments.Keys == TrailVars(nodes, trail)
    && (forall a :: 0 <= a < |trail| ==> assignments[VarAt(nodes, trail[a])] == trail[a])
    && (forall j :: 0 <= j < |trailLim| ==> trailLim[j] <= |trail|)
    && (forall j, j' :: 0 <= j < j' < |trailLim| ==> trailLim[j] <= trailLim[j'])
  }

  /** Every table entry is a live assignment to its own variable. */
  lemma TableEntries(nodes: seq<Node>, assignments: map<nat, nat>, trail: seq<nat>, trailLim: seq<nat>, v: nat)
    requires TrailOk(nodes, assignments, trail, trailLim) && v in assignments
    ensures assignments[v] in trail && assignments[v] < |nodes|
    ensures IsAssignment(nodes[assignments[v]]) && VarAt(nodes, assignments[v]) == v
  {
    var a :| 0 <= a < |trail| && VarAt(nodes, trail[a]) == v;
  }

  lemma TrailVarsSnoc(nodes: seq<Node>, s: seq<nat>, x: nat)
    requires forall a :: 0 <= a < |s| ==> s[a] < |nodes|
    requires x < |nodes|
    ensures TrailVars(nodes, s + [x]) == TrailVars(nodes, s) + {VarAt(nodes, x)}
  {
    var t := s + [x];
    forall v | v in TrailVars(nodes, t)
      ensures v in TrailVars(nodes, s) + {VarAt(nodes, x)}
    {
      var a :| 0 <= a < |t| && VarAt(nodes, t[a]) == v;
      if a < |s| {
        assert t[a] == s[a];
      }
    }
    forall v | v in TrailVars(nodes, s)
      ensures v in TrailVars(nodes, t)
    {
      var a :| 0 <= a < |s| && VarAt(nodes, s[a]) == v;
      assert t[a] == s[a];
    }
    assert t[|s|] == x;
  }

  /** Allocating a new object leaves the trail invariant intact. */
  lemma AppendNodeTrailOk(nodes: seq<Node>, n: Node, assignments: map<nat, nat>, trail: seq<nat>, trailLim: seq<nat>)
    requires TrailOk(nodes, assignments, trail, trailLim)
    ensures TrailOk(nodes + [n], assignments, trail, trailLim)
  {
    var nodes' := nodes + [n];
    forall a | 0 <= a < |trail|
      ensures nodes'[trail[a]] == nodes[trail[a]]
    {
    }
    assert TrailVars(nodes', trail) == TrailVars(nodes, trail);
  }

  /** `add_assignment` on an unassigned variable keeps the invariant. */
  lemma PushTrailOk(nodes: seq<Node>, assignments: map<nat, nat>, trail: seq<nat>, trailLim: seq<nat>, k: nat)
    requires TrailOk(nodes, assignments, trail, trailLim)
    requires k < |nodes| && IsAssignment(nodes[k]) && VarAt(nodes, k) !in assignments
    ensures TrailOk(nodes, assignments[VarAt(nodes, k) := k], trail + [k], trailLim)
  {
    var t := trail + [k];
    TrailVarsSnoc(nodes, trail, k);
    forall a, b | 0 <= a < b < |t|
      ensures VarAt(nodes, t[a]) != VarAt(nodes, t[b])
    {
      if b == |trail| {
        assert t[a] == trail[a];
        assert VarAt(nodes, trail[a]) in TrailVars(nodes, trail);
      } else {
        assert t[a] == trail[a] && t[b] == trail[b];
      }
    }
    forall a | 0 <= a < |t|
      ensures assignments[VarAt(nodes, k) := k][VarAt(nodes, t[a])] == t[a]
    {
      if a < |trail| {
        assert t[a] == trail[a];
        assert VarAt(nodes, trail[a]) in TrailVars(nodes, trail);
      }
    }
  }

  /**
   * Where backtracking to `level` cuts the trail: the checkpoint of that
   * level, or the end of the trail when `level` is the current one.
   */
  function Cut(trail: seq<nat>, trailLim: seq<nat>, level: nat): (r: nat)
    requires level <= |trailLim|
    ensures (forall j :: 0 <= j < |trailLim| ==> trailLim[j] <= |trail|) ==> r <= |trail|
  {
    if level < |trailLim| then trailLim[level] else |trail|
  }

  /**
   * `backtrack_to(level)` below the current level: unassigning the variables
   * of `trail[trail_lim[level]..]` and truncating both sequences keeps the
   * invariant.
   */
  lemma BacktrackTrailOk(nodes: seq<Node>, assignments: map<nat, nat>, trail: seq<nat>, trailLim: seq<nat>, level: nat)
    requires TrailOk(nodes, assignments, trail, trailLim) && level < |trailLim|
    ensures var lo := trailLim[level];
      TrailOk(nodes, assignments - TrailVars(nodes, trail[lo..]), trail[..lo], trailLim[..level])
  {
    var lo := trailLim[level];
    var pre, suf := trail[..lo], trail[lo..];
    var asg := assignments - TrailVars(nodes, suf);
    assert trail == pre + suf;
    TrailVarsAppend(nodes, pre, suf);
    TrailVarsDisjoint(nodes, trail, lo);
    assert asg.Keys == TrailVars(nodes, pre);
    forall a | 0 <= a < |pre|
      ensures asg[VarAt(nodes, pre[a])] == pre[a]
    {
      assert pre[a] == trail[a];
      assert VarAt(nodes, pre[a]) in TrailVars(nodes, pre);
    }
  }

  /** Variables on a trail of distinct variables are on only one side of a cut. */
  lemma TrailVarsDisjoint(nodes: seq<Node>, trail: seq<nat>, lo: nat)
    requires lo <= |trail| && forall a :: 0 <= a < |trail| ==> trail[a] < |nodes|
    requires forall a, b :: 0 <= a < b < |trail| ==> VarAt(nodes, trail[a]) != VarAt(nodes, trail[b])
    ensures TrailVars(nodes, trail[..lo]) !! TrailVars(nodes, trail[lo..])
  {
    var pre, suf := trail[..lo], trail[lo..];
    forall v | v in TrailVars(nodes, pre)
      ensures v !in TrailVars(nodes, suf)
    {
      var a :| 0 <= a < |pre| && VarAt(nodes, pre[a]) == v;
      assert pre[a] == trail[a];
      forall b | 0 <= b < |suf|
        ensures VarAt(nodes, suf[b]) != v
      {
        assert suf[b] == trail[lo + b];
      }
    }
  }

  lemma TrailVarsAppend(nodes: seq<Node>, s: seq<nat>, t: seq<nat>)
    requires forall a :: 0 <= a < |s| ==> s[a] < |nodes|
    requires forall a :: 0 <= a < |t| ==> t[a] < |nodes|
    ensures forall a :: 0 <= a < |s + t| ==> (s + t)[a] < |nodes|
    ensures TrailVars(nodes, s + t) == TrailVars(nodes, s) + TrailVars(nodes, t)
  {
    var u := s + t;
    forall v | v in TrailVars(nodes, u)
      ensures v in TrailVars(nodes, s) + TrailVars(nodes, t)
    {
      var a :| 0 <= a < |u| && VarAt(nodes, u[a]) == v;
      if a < |s| {
        assert u[a] == s[a];
      } else {
        assert u[a] == t[a - |s|];
      }
    }
    forall v | v in TrailVars(nodes, s)
      ensures v in TrailVars(nodes, u)
    {
      var a :| 0 <= a < |s| && VarAt(nodes, s[a]) == v;
      assert u[a] == s[a];
    }
    forall v | v in TrailVars(nodes, t)
      ensures v in TrailVars(nodes, u)
    {
      var a :| 0 <= a < |t| && VarAt(nodes, t[a]) == v;
      assert u[|s| + a] == t[a];
    }
  }

  /**
   * The table with the assignments on `trail[lo..]` undone, stated without
   * the arena: an entry survives when its assignment is not on that suffix.
   */
  ghost function Undone(assignments: map<nat, nat>, trail: seq<nat>, lo: nat): (r: map<nat, nat>)
    requires lo <= |trail|
  {
    map v | v in assignments && assignments[v] !in trail[lo..] :: assignments[v]
  }

  /** Under the invariant, undoing the assignments on a suffix of the trail unassigns exactly its variables. */
  lemma UndoneUnassigns(nodes: seq<Node>, assignments: map<nat, nat>, trail: seq<nat>, trailLim: seq<nat>, lo: nat)
    requires TrailOk(nodes, assignments, trail, trailLim) && lo <= |trail|
    ensures Undone(assignments, trail, lo) == assignments - TrailVars(nodes, trail[lo..])
  {
    var suf := trail[lo..];
    forall v | v in assignments
      ensures assignments[v] in suf <==> v in TrailVars(nodes, suf)
    {
      TableEntries(nodes, assignments, trail, trailLim, v);
      if assignments[v] in suf {
        var b :| 0 <= b < |suf| && suf[b] == assignments[v];
        assert VarAt(nodes, suf[b]) == v;
      }
      if v in TrailVars(nodes, suf) {
        var b :| 0 <= b < |suf| && VarAt(nodes, suf[b]) == v;
        assert suf[b] == trail[lo + b];
      }
    }
  }

  /** The loop of `backtrack_to` / `_backtrack_to`: clear the table entry of every variable on `trail[lo..]`. */
  method Unassign(nodes: seq<Node>, assignments: map<nat, nat>, trail: seq<nat>, lo: nat) returns (r: map<nat, nat>)
    requires lo <= |trail| && forall a :: 0 <= a < |trail| ==> trail[a] < |nodes|
    ensures r == assignments - TrailVars(nodes, trail[lo..])
  {
    r := assignments;
    var i := lo;
    while i < |trail|
      invariant lo <= i <= |trail|
      invariant r == assignments - TrailVars(nodes, trail[lo..i])
    {
      TrailVarsSnoc(nodes, trail[lo..i], trail[i]);
      assert trail[lo..i + 1] == trail[lo..i] + [trail[i]];
      r := r - {VarAt(nodes, trail[i])};
      i := i + 1;
    }
    assert trail[lo..i] == trail[lo..];
  }

  /** The table's assignment to the variable of `l` has the opposite sign: it falsifies `l`. */
  predicate Falsifies(nodes: seq<Node>, assignments: map<nat, nat>, l: int)
  {
    Var(l) in assignments && assignments[Var(l)] < |nodes|
    && Sign(LitOf(nodes[assignments[Var(l)]])) != Sign(l)
  }

  /**
   * The dependency capture the clause constructors perform: the assignment
   * falsifying each literal of `lits`, in order, or `None` once one literal
   * is unassigned or agrees in sign with its assignment.
   */
  function Falsifiers(nodes: seq<Node>, assignments: map<nat, nat>, lits: seq<int>): (r: Option<seq<nat>>)
    ensures r.Some? ==> |r.value| == |lits|
  {
    if lits == [] then Some([])
    else
      var l := lits[|lits| - 1];
      match Falsifiers(nodes, assignments, lits[..|lits| - 1])
      case None => None
      case Some(acc) =>
        if Falsifies(nodes, assignments, l) then Some(acc + [assignments[Var(l)]]) else None
  }

  lemma FalsifiersSnoc(nodes: seq<Node>, assignments: map<nat, nat>, lits: seq<int>, l: int)
    ensures Falsifiers(nodes, assignments, lits + [l])
      == match Falsifiers(nodes, assignments, lits)
         case None => None
         case Some(acc) =>
           if Falsifies(nodes, assignments, l) then Some(acc + [assignments[Var(l)]]) else None
  {
    assert (lits + [l])[..|lits|] == lits;
  }

  /** One literal left unfalsified makes the capture fail. */
  lemma FalsifiersMiss(nodes: seq<Node>, assignments: map<nat, nat>, lits: seq<int>, l: int)
    requires l in lits && !Falsifies(nodes, assignments, l)
    ensures Falsifiers(nodes, assignments, lits) == None
  {
    FalsifiersSpec(nodes, assignments, lits);
  }

  /** `FalsifiersSnoc` for the prefixes of one clause. */
  lemma FalsifiersPrefix(nodes: seq<Node>, assignments: map<nat, nat>, lits: seq<int>, j: nat)
    requires j < |lits|
    ensures Falsifiers(nodes, assignments, lits[..j + 1])
      == match Falsifiers(nodes, assignments, lits[..j])
         case None => None
         case Some(acc) =>
           if Falsifies(nodes, assignments, lits[j]) then Some(acc + [assignments[Var(lits[j])]]) else None
  {
    assert lits[..j + 1] == lits[..j] + [lits[j]];
    FalsifiersSnoc(nodes, assignments, lits[..j], lits[j]);
  }

  /**
   * The capture succeeds exactly when every literal is falsified, and then
   * its j-th entry is the assignment to the variable of the j-th literal.
   */
  lemma {:induction false} FalsifiersSpec(nodes: seq<Node>, assignments: map<nat, nat>, lits: seq<int>)
    ensures Falsifiers(nodes, assignments, lits).Some?
      <==> forall l :: l in lits ==> Falsifies(nodes, assignments, l)
    ensures Falsifiers(nodes, assignments, lits).Some? ==>
      forall j :: 0 <= j < |lits| ==>
        Var(lits[j]) in assignments && Falsifiers(nodes, assignments, lits).value[j] == assignments[Var(lits[j])]
  {
    if lits != [] {
      var init, l := lits[..|lits| - 1], lits[|lits| - 1];
      assert lits == init + [l];
      FalsifiersSpec(nodes, assignments, init);
      if !Falsifies(nodes, assignments, l) {
        assert l in lits;
      }
      if Falsifiers(nodes, assignments, init).None? {
        var x :| x in init && !Falsifies(nodes, assignments, x);
        assert x in lits;
      }
    }
  }

  /** The captured assignments are objects of the arena. */
  lemma FalsifiersBound(nodes: seq<Node>, assignments: map<nat, nat>, lits: seq<int>)
    requires Falsifiers(nodes, assignments, lits).Some?
    ensures forall d :: d in Falsifiers(nodes, assignments, lits).value ==> d < |nodes|
  {
    FalsifiersSpec(nodes, assignments, lits);
    var r := Falsifiers(nodes, assignments, lits).value;
    forall d | d in r
      ensures d < |nodes|
    {
      var j :| 0 <= j < |r| && r[j] == d;
      assert lits[j] in lits;
    }
  }
}
