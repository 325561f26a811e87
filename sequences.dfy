/**
 * Properties of the board under more than one swap: what a whole sequence of
 * swaps does to a placement, and how to undo it.
 */
module SwapSequences {
  import opened Placements

  /** Every key named by a move has stored coordinates in `p`. */
  predicate Movable<K(==)>(p: Placement<K>, moves: seq<(K, K)>)
  {
    forall i :: 0 <= i < |moves| ==> moves[i].0 in p.at && moves[i].1 in p.at
  }

  /** Every key named by a move sits in its own cell in `p`. */
  predicate Seated<K(==)>(p: Placement<K>, moves: seq<(K, K)>)
  {
    forall i :: 0 <= i < |moves| ==> Occupies(p, moves[i].0) && Occupies(p, moves[i].1)
  }

  /** The placement after applying `moves` one swap at a time, first to last. */
  function ApplySwaps<K(==)>(p: Placement<K>, moves: seq<(K, K)>): (q: Placement<K>)
    requires Movable(p, moves)
    ensures q.at.Keys == p.at.Keys
    decreases |moves|
  {
    if moves == [] then p
    else ApplySwaps(Swapped(p, moves[0].0, moves[0].1), moves[1..])
  }

  /** The moves in the opposite order. */
  function Reversed<T>(moves: seq<T>): (r: seq<T>)
    ensures |r| == |moves|
    ensures forall i :: 0 <= i < |moves| ==> r[i] == moves[|moves| - 1 - i]
    decreases |moves|
  {
    if moves == [] then [] else Reversed(moves[1..]) + [moves[0]]
  }

  /** Any sequence of swaps keeps the grid and the stored coordinates in step. */
  lemma {:induction false} SwapsPreserveConsistency<K>(p: Placement<K>, moves: seq<(K, K)>)
    requires Consistent(p) && Movable(p, moves)
    ensures Consistent(ApplySwaps(p, moves))
    decreases |moves|
  {
    if moves != [] {
      var q := Swapped(p, moves[0].0, moves[0].1);
      SwapPreservesConsistency(p, moves[0].0, moves[0].1);
      SwapsPreserveConsistency(q, moves[1..]);
    }
  }

  /** A swap of two seated keys leaves every other seated key seated. */
  lemma SwapKeepsSeated<K>(p: Placement<K>, a: K, b: K, k: K)
    requires Occupies(p, a) && Occupies(p, b) && Occupies(p, k)
    ensures Occupies(Swapped(p, a, b), k)
  {
    if k != a && k != b {
      assert p.at[k] != p.at[a] && p.at[k] != p.at[b];
    }
  }

  /** Applying `front` and then `back` is applying their concatenation. */
  lemma {:induction false} ApplySwapsAppend<K>(p: Placement<K>, front: seq<(K, K)>, back: seq<(K, K)>)
    requires Movable(p, front + back)
    ensures Movable(p, front) && Movable(ApplySwaps(p, front), back)
    ensures ApplySwaps(p, front + back) == ApplySwaps(ApplySwaps(p, front), back)
    decreases |front|
  {
    assert Movable(p, front) by {
      forall i | 0 <= i < |front| ensures front[i].0 in p.at && front[i].1 in p.at {
        assert (front + back)[i] == front[i];
      }
    }
    if front != [] {
      var q := Swapped(p, front[0].0, front[0].1);
      assert (front + back)[1..] == front[1..] + back;
      ApplySwapsAppend(q, front[1..], back);
    } else {
      assert front + back == back;
    }
  }

  /**
   * Replaying a sequence of swaps backwards undoes it, provided every key the
   * moves name sits in its own cell to begin with.
   */
  lemma {:induction false} ReplayBackwardsRestores<K>(p: Placement<K>, moves: seq<(K, K)>)
    requires Seated(p, moves)
    ensures Movable(p, moves) && Movable(ApplySwaps(p, moves), Reversed(moves))
    ensures ApplySwaps(ApplySwaps(p, moves), Reversed(moves)) == p
    decreases |moves|
  {
    if moves == [] {
      assert Reversed(moves) == [];
    } else {
      var a, b := moves[0].0, moves[0].1;
      var q := Swapped(p, a, b);
      var tail := moves[1..];
      assert Seated(q, tail) by {
        forall i | 0 <= i < |tail| ensures Occupies(q, tail[i].0) && Occupies(q, tail[i].1) {
          assert tail[i] == moves[i + 1];
          SwapKeepsSeated(p, a, b, tail[i].0);
          SwapKeepsSeated(p, a, b, tail[i].1);
        }
      }
      ReplayBackwardsRestores(q, tail);
      var r := ApplySwaps(q, tail);
      assert Reversed(moves) == Reversed(tail) + [(a, b)];
      ApplySwapsAppend(r, Reversed(tail), [(a, b)]);
      SwapTwiceRestores(p, a, b);
    }
  }
}
