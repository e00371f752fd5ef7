/** The availability answer of the slots endpoint: the grid minus the
    times already taken, in grid order. */
module Availability {
  import opened Tables
  import opened SlotGrid

  /** `allSlots.filter((t) => !taken.includes(t))`. */
  function Available(all: seq<string>, taken: seq<string>): (r: seq<string>)
    ensures IsSubsequence(r, all)
    ensures forall i :: 0 <= i < |r| ==> r[i] in all && r[i] !in taken
    ensures forall i :: 0 <= i < |all| && all[i] !in taken ==> all[i] in r
    ensures forall x :: multiset(r)[x] == if x !in taken then multiset(all)[x] else 0
  {
    FilterCounts(all, (t: string) => t !in taken);
    Filter(all, (t: string) => t !in taken)
  }

  /** With nothing taken, every slot is available, in the same order. */
  lemma {:induction false} NothingTakenAllAvailable(all: seq<string>)
    ensures Available(all, []) == all
  {
    if |all| > 0 {
      NothingTakenAllAvailable(all[1..]);
      assert all == [all[0]] + all[1..];
    }
  }

  /** Dropping elements from a strictly ascending sequence keeps it strictly ascending. */
  lemma {:induction false} SubsequenceAscending(a: seq<string>, b: seq<string>)
    requires IsSubsequence(a, b) && Ascending(b)
    ensures Ascending(a)
    decreases |b|
  {
    if |a| == 0 {
      return;
    }
    assert Ascending(b[1..]) by {
      forall i, j | 0 <= i < j < |b| - 1 ensures Before(b[1..][i], b[1..][j]) {
        assert Before(b[i + 1], b[j + 1]);
      }
    }
    if a[0] == b[0] && IsSubsequence(a[1..], b[1..]) {
      SubsequenceAscending(a[1..], b[1..]);
      SubsequenceMembers(a[1..], b[1..]);
      forall i, j | 0 <= i < j < |a| ensures Before(a[i], a[j]) {
        if i == 0 {
          assert a[j] == a[1..][j - 1];
          var k :| 0 <= k < |b[1..]| && b[1..][k] == a[j];
          assert Before(b[0], b[k + 1]);
        } else {
          assert Before(a[1..][i - 1], a[1..][j - 1]);
        }
      }
    } else {
      SubsequenceAscending(a, b[1..]);
    }
  }

  /** The available slots of any day are in strictly ascending time order. */
  lemma AvailableAscending(taken: seq<string>)
    ensures Ascending(Available(Grid(), taken))
  {
    GridSpacing();
    SubsequenceAscending(Available(Grid(), taken), Grid());
  }
}
