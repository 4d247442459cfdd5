/**
 * The solver's trace, already split into records, and the literal helpers
 * both analysers share.  A literal is a signed integer: its variable is the
 * absolute value and a negative literal has the sign bit set.
 */
module Trace {
  import opened Wrappers

  /** One line of the trace. */
  datatype Record =
    | ClauseDef(id: Option<int>, lits: seq<int>)  // `<id>: l1 .. ln 0`, or `: l1 .. ln 0` without an id
    | Imp(lit: int, cref: int)                    // `i <lit> <cref>`
    | Branch(lit: int)                            // `b <lit>`
    | Conflict(cref: int, level: int)             // `k <cref> <level>`
    | Del(cref: int)                              // `d <cref>`
    | Reset                                       // `r`
    | Move(oldId: int, newId: int)                // `m <old> <new>`
    | EmptyClause                                 // a bare `0` line (older format only)

  /** The `(old, new)` pairs of a block of `m` records. */
  function MoveBlock(rs: seq<Record>): (r: seq<(int, int)>)
    requires forall k :: 0 <= k < |rs| ==> rs[k].Move?
  {
    seq(|rs|, k requires 0 <= k < |rs| => (rs[k].oldId, rs[k].newId))
  }

  /** How one record of the trace went: failed, replayed, or the empty clause reached. */
  datatype Step = Failed | Continue | Proved(clause: nat)

  function Var(lit: int): (r: nat) { if lit < 0 then -lit else lit }

  predicate Sign(lit: int) { lit < 0 }

  /** The literals of `lits` whose variable is not `v`, in order. */
  function Others(lits: seq<int>, v: nat): (r: seq<int>)
    ensures |r| <= |lits|
  {
    if lits == [] then []
    else
      var init := lits[..|lits| - 1];
      var last := lits[|lits| - 1];
      assert lits == init + [last];
      Others(init, v) + (if Var(last) != v then [last] else [])
  }

  /** The table entries of the variables of `lits`, in order. */
  function Lookup(table: map<nat, nat>, lits: seq<int>): (r: seq<nat>)
    requires forall l :: l in lits ==> Var(l) in table
    ensures |r| == |lits|
    ensures forall j :: 0 <= j < |lits| ==> r[j] == table[Var(lits[j])]
  {
    if lits == [] then []
    else Lookup(table, lits[..|lits| - 1]) + [table[Var(lits[|lits| - 1])]]
  }

  lemma {:induction false} OthersMember(lits: seq<int>, v: nat, l: int)
    ensures l in Others(lits, v) <==> l in lits && Var(l) != v
  {
    if lits != [] {
      var init, last := lits[..|lits| - 1], lits[|lits| - 1];
      assert lits == init + [last];
      OthersMember(init, v, l);
    }
  }

  lemma OthersSnoc(lits: seq<int>, l: int, v: nat)
    ensures Others(lits + [l], v) == Others(lits, v) + (if Var(l) != v then [l] else [])
  {
    assert (lits + [l])[..|lits|] == lits;
  }

  /** `OthersSnoc` for the prefixes of one clause. */
  lemma OthersPrefix(lits: seq<int>, j: nat, v: nat)
    requires j < |lits|
    ensures Others(lits[..j + 1], v) == if Var(lits[j]) != v then Others(lits[..j], v) + [lits[j]] else Others(lits[..j], v)
  {
    assert lits[..j + 1] == lits[..j] + [lits[j]];
    OthersSnoc(lits[..j], lits[j], v);
    assert Others(lits[..j], v) + [] == Others(lits[..j], v);
  }

  lemma LookupSnoc(table: map<nat, nat>, lits: seq<int>, l: int)
    requires forall x :: x in lits + [l] ==> Var(x) in table
    ensures Lookup(table, lits + [l]) == Lookup(table, lits) + [table[Var(l)]]
  {
    assert (lits + [l])[..|lits|] == lits;
  }

  /** Exactly one literal of `lits` is on variable `v` when `Others` drops exactly one. */
  lemma {:induction false} OthersDropsOne(lits: seq<int>, v: nat)
    requires |Others(lits, v)| == |lits| - 1
    ensures exists j :: 0 <= j < |lits| && Var(lits[j]) == v
  {
    var init := lits[..|lits| - 1];
    var last := lits[|lits| - 1];
    if Var(last) != v {
      OthersDropsOne(init, v);
      var j :| 0 <= j < |init| && Var(init[j]) == v;
      assert lits[j] == init[j];
    }
  }

  /** Appending two elements one at a time appends the pair. */
  lemma AppendTwice<T>(s: seq<T>, a: T, b: T)
    ensures s + [a] + [b] == s + [a, b]
  {
    assert s + [a] + [b] == s + ([a] + [b]);
  }
}
