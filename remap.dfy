/**
 * The clause-id table of analyze_trace.cc (a vector of clause pointers with
 * null slots) and its wholesale rebuild on a block of `m` records.
 */
module Remap {
  import opened Wrappers

  /** `table[id] = v` after growing the table with null slots when `id` is past its end. */
  function Store(table: seq<Option<nat>>, id: nat, v: nat): (r: seq<Option<nat>>)
    ensures |r| == if id < |table| then |table| else id + 1
    ensures r[id] == Some(v)
    ensures forall j :: 0 <= j < |r| && j != id ==> r[j] == if j < |table| then table[j] else None
  {
    if id < |table| then table[id := Some(v)]
    else table + seq(id - |table|, _ => None) + [Some(v)]
  }

  /** A move `(old_id, new_id)` the C++ analyser accepts: `old_id` names a live clause. */
  predicate MoveOk(table: seq<Option<nat>>, move: (int, int))
  {
    0 <= move.0 < |table| && table[move.0].Some? && 0 <= move.1
  }

  predicate MovesOk(table: seq<Option<nat>>, moves: seq<(int, int)>)
  {
    forall j :: 0 <= j < |moves| ==> MoveOk(table, moves[j])
  }

  /**
   * The table built from scratch by a block of moves: each move copies the
   * entry of `old_id` in the OLD table to `new_id` of the new one.
   */
  function Remapped(table: seq<Option<nat>>, moves: seq<(int, int)>): (r: seq<Option<nat>>)
    requires MovesOk(table, moves)
  {
    if moves == [] then []
    else
      var last := moves[|moves| - 1];
      Store(Remapped(table, moves[..|moves| - 1]), last.1 as nat, table[last.0].value)
  }

  /** Every `new_id` lands inside the rebuilt table, which ends at the largest of them. */
  lemma {:induction false} RemappedLength(table: seq<Option<nat>>, moves: seq<(int, int)>)
    requires MovesOk(table, moves)
    ensures forall j :: 0 <= j < |moves| ==> moves[j].1 < |Remapped(table, moves)|
    ensures var n := |Remapped(table, moves)|;
      n == 0 || exists j :: 0 <= j < |moves| && moves[j].1 == n - 1
  {
    if moves != [] {
      var init, last := moves[..|moves| - 1], moves[|moves| - 1];
      assert MovesOk(table, init);
      RemappedLength(table, init);
      var r0 := Remapped(table, init);
      var r := Remapped(table, moves);
      forall j | 0 <= j < |moves|
        ensures moves[j].1 < |r|
      {
        if j < |init| { assert moves[j] == init[j]; }
      }
      if last.1 != |r| - 1 {
        var j :| 0 <= j < |init| && init[j].1 == |r0| - 1;
        assert moves[j] == init[j];
      }
    }
  }

  /** A slot of the rebuilt table is filled exactly when some move names it as `new_id`. */
  lemma {:induction false} RemappedFilled(table: seq<Option<nat>>, moves: seq<(int, int)>, id: nat)
    requires MovesOk(table, moves) && id < |Remapped(table, moves)|
    ensures Remapped(table, moves)[id].Some? <==> exists j :: 0 <= j < |moves| && moves[j].1 == id
  {
    if moves != [] {
      var init, last := moves[..|moves| - 1], moves[|moves| - 1];
      assert MovesOk(table, init);
      var r0 := Remapped(table, init);
      var r := Remapped(table, moves);
      if id != last.1 {
        if id < |r0| {
          RemappedFilled(table, init, id);
        }
        if r[id].Some? {
          var j :| 0 <= j < |init| && init[j].1 == id;
          assert moves[j] == init[j];
        }
        if exists j :: 0 <= j < |moves| && moves[j].1 == id {
          var j :| 0 <= j < |moves| && moves[j].1 == id;
          assert moves[j] == init[j];
          RemappedLength(table, init);
        }
      } else {
        assert moves[|moves| - 1].1 == id;
      }
    }
  }

  /** The last move naming a `new_id` decides its entry: the clause under that move's `old_id`. */
  lemma {:induction false} RemappedLastWins(table: seq<Option<nat>>, moves: seq<(int, int)>, j: nat)
    requires MovesOk(table, moves) && j < |moves|
    requires forall j' :: j < j' < |moves| ==> moves[j'].1 != moves[j].1
    ensures moves[j].1 < |Remapped(table, moves)|
    ensures Remapped(table, moves)[moves[j].1] == table[moves[j].0]
  {
    RemappedLength(table, moves);
    var init := moves[..|moves| - 1];
    if j < |init| {
      assert MovesOk(table, init);
      assert moves[j] == init[j];
      forall j' | j < j' < |init| ensures init[j'].1 != init[j].1 {
        assert moves[j'] == init[j'];
      }
      RemappedLastWins(table, init, j);
    }
  }

  /** Every entry of the rebuilt table is an entry of the old one. */
  lemma {:induction false} RemappedFromOld(table: seq<Option<nat>>, moves: seq<(int, int)>, id: nat)
    requires MovesOk(table, moves) && id < |Remapped(table, moves)|
    requires Remapped(table, moves)[id].Some?
    ensures Remapped(table, moves)[id] in table
  {
    var init, last := moves[..|moves| - 1], moves[|moves| - 1];
    assert MovesOk(table, init);
    if id != last.1 {
      RemappedFromOld(table, init, id);
    }
  }
}
