/**
 The offset-based edits SwiftUI's `onDelete` and `onMove` hand to an array:
 `remove(atOffsets:)` and `move(fromOffsets:toOffset:)`. Offsets are an
 `IndexSet`, modelled as a set of positions. Both edits are used on the
 route's rule list and on every string list the rule editor shows.
 */
module ListEdits {

  /** Every offset names a position of a sequence of length `n`
      (Swift traps on any other offset). */
  predicate ValidOffsets(offsets: set<nat>, n: nat) {
    forall i :: i in offsets ==> i < n
  }

  ghost predicate NoDup<T>(s: seq<T>) {
    forall i, j :: 0 <= i < j < |s| ==> s[i] != s[j]
  }

  /** How many offsets lie below `n`. */
  function MarkedBelow(offsets: set<nat>, n: nat): (k: nat)
    ensures k <= n
  {
    if n == 0 then 0 else MarkedBelow(offsets, n - 1) + (if n - 1 in offsets then 1 else 0)
  }

  /** The elements `s[i]`, `lo <= i < hi`, whose position is in `offsets`
      (`marked`) or not in it (`!marked`), in their original order. */
  function Select<T>(s: seq<T>, offsets: set<nat>, lo: nat, hi: nat, marked: bool): (r: seq<T>)
    requires lo <= hi <= |s|
    ensures |r| == if marked then MarkedBelow(offsets, hi) - MarkedBelow(offsets, lo)
                   else (hi - lo) - (MarkedBelow(offsets, hi) - MarkedBelow(offsets, lo))
    decreases hi
  {
    if hi == lo then []
    else Select(s, offsets, lo, hi - 1, marked) + (if (hi - 1 in offsets) == marked then [s[hi - 1]] else [])
  }

  /** Every selected element sits at a position of the range with the right marking. */
  lemma {:induction false} SelectFrom<T>(s: seq<T>, offsets: set<nat>, lo: nat, hi: nat, marked: bool)
    requires lo <= hi <= |s|
    ensures forall x :: x in Select(s, offsets, lo, hi, marked) ==>
              exists i :: lo <= i < hi && (i in offsets) == marked && s[i] == x
    decreases hi
  {
    if hi > lo {
      SelectFrom(s, offsets, lo, hi - 1, marked);
      var prefix := Select(s, offsets, lo, hi - 1, marked);
      var r := Select(s, offsets, lo, hi, marked);
      assert r == prefix + (if (hi - 1 in offsets) == marked then [s[hi - 1]] else []);
      forall x | x in r
        ensures exists i :: lo <= i < hi && (i in offsets) == marked && s[i] == x
      {
        if x !in prefix {
          assert x == s[hi - 1] && (hi - 1 in offsets) == marked;
        }
      }
    }
  }

  /** `remove(atOffsets:)`: keeps the elements at the positions not in `offsets`. */
  function RemoveAt<T>(s: seq<T>, offsets: set<nat>): (r: seq<T>)
    requires ValidOffsets(offsets, |s|)
    ensures |r| == |s| - |offsets|
  {
    MarkedBelowCardinality(offsets, |s|);
    Select(s, offsets, 0, |s|, false)
  }

  /** Every survivor of a removal stood at a position that was not removed. */
  lemma RemoveAtFrom<T>(s: seq<T>, offsets: set<nat>)
    requires ValidOffsets(offsets, |s|)
    ensures forall x :: x in RemoveAt(s, offsets) ==> exists i :: 0 <= i < |s| && i !in offsets && s[i] == x
  {
    SelectFrom(s, offsets, 0, |s|, false);
  }

  /** `move(fromOffsets:toOffset:)`: the elements at `offsets` are lifted out,
      keeping their relative order, and reinserted as one block in front of the
      element that was at position `to` (or at the end when `to == |s|`). */
  function Move<T>(s: seq<T>, offsets: set<nat>, to: nat): (r: seq<T>)
    requires ValidOffsets(offsets, |s|) && to <= |s|
    ensures |r| == |s|
    ensures multiset(r) == multiset(s)
  {
    MovePermutes(s, offsets, to);
    Select(s, offsets, 0, to, false) + Select(s, offsets, 0, |s|, true) + Select(s, offsets, to, |s|, false)
  }

  lemma MovePermutes<T>(s: seq<T>, offsets: set<nat>, to: nat)
    requires to <= |s|
    ensures multiset(Select(s, offsets, 0, to, false) + Select(s, offsets, 0, |s|, true)
                     + Select(s, offsets, to, |s|, false)) == multiset(s)
  {
    var before := Select(s, offsets, 0, to, false);
    var movedLow := Select(s, offsets, 0, to, true);
    var movedHigh := Select(s, offsets, to, |s|, true);
    var after := Select(s, offsets, to, |s|, false);
    SelectSplit(s, offsets, 0, to, |s|, true);
    SelectMultiset(s, offsets, 0, to);
    SelectMultiset(s, offsets, to, |s|);
    Regroup(before, movedLow, movedHigh, after, s, to);
  }

  lemma Regroup<T>(before: seq<T>, movedLow: seq<T>, movedHigh: seq<T>, after: seq<T>, s: seq<T>, to: nat)
    requires to <= |s|
    requires multiset(movedLow) + multiset(before) == multiset(s[0..to])
    requires multiset(movedHigh) + multiset(after) == multiset(s[to..|s|])
    ensures multiset(before + (movedLow + movedHigh) + after) == multiset(s)
  {
    assert s[0..to] + s[to..|s|] == s;
  }

  lemma {:induction false} MarkedBelowAgree(a: set<nat>, b: set<nat>, n: nat)
    requires forall i :: 0 <= i < n ==> (i in a <==> i in b)
    ensures MarkedBelow(a, n) == MarkedBelow(b, n)
  {
    if n > 0 {
      MarkedBelowAgree(a, b, n - 1);
    }
  }

  /** When every offset is below `n`, all of them are counted. */
  lemma {:induction false} MarkedBelowCardinality(offsets: set<nat>, n: nat)
    requires ValidOffsets(offsets, n)
    ensures MarkedBelow(offsets, n) == |offsets|
  {
    if n > 0 {
      var rest := offsets - {n - 1};
      MarkedBelowAgree(offsets, rest, n - 1);
      MarkedBelowCardinality(rest, n - 1);
    } else {
      assert offsets == {};
    }
  }

  lemma {:induction false} SelectSplit<T>(s: seq<T>, offsets: set<nat>, lo: nat, mid: nat, hi: nat, marked: bool)
    requires lo <= mid <= hi <= |s|
    ensures Select(s, offsets, lo, hi, marked)
            == Select(s, offsets, lo, mid, marked) + Select(s, offsets, mid, hi, marked)
    decreases hi
  {
    if hi > mid {
      SelectSplit(s, offsets, lo, mid, hi - 1, marked);
    }
  }

  /** The marked and unmarked selections of a range together hold the range. */
  ghost predicate SplitsRange<T>(s: seq<T>, offsets: set<nat>, lo: nat, hi: nat)
    requires lo <= hi <= |s|
  {
    multiset(Select(s, offsets, lo, hi, true)) + multiset(Select(s, offsets, lo, hi, false))
    == multiset(s[lo..hi])
  }

  lemma {:induction false} SelectMultiset<T>(s: seq<T>, offsets: set<nat>, lo: nat, hi: nat)
    requires lo <= hi <= |s|
    ensures SplitsRange(s, offsets, lo, hi)
    decreases hi
  {
    if hi > lo {
      SelectMultiset(s, offsets, lo, hi - 1);
      SelectMultisetStep(s, offsets, lo, hi);
    } else {
      SelectMultisetBase(s, offsets, lo, hi);
    }
  }

  lemma SelectMultisetBase<T>(s: seq<T>, offsets: set<nat>, lo: nat, hi: nat)
    requires lo == hi <= |s|
    ensures SplitsRange(s, offsets, lo, hi)
  {
    assert s[lo..hi] == [];
  }

  lemma SelectMultisetStep<T>(s: seq<T>, offsets: set<nat>, lo: nat, hi: nat)
    requires lo < hi <= |s|
    requires SplitsRange(s, offsets, lo, hi - 1)
    ensures SplitsRange(s, offsets, lo, hi)
  {
    SelectLast(s, offsets, lo, hi);
    SliceLast(s, lo, hi);
  }

  /** Extending a range by one position adds its element to exactly one side. */
  lemma SelectLast<T>(s: seq<T>, offsets: set<nat>, lo: nat, hi: nat)
    requires lo < hi <= |s|
    ensures multiset(Select(s, offsets, lo, hi, true)) + multiset(Select(s, offsets, lo, hi, false))
            == multiset(Select(s, offsets, lo, hi - 1, true)) + multiset(Select(s, offsets, lo, hi - 1, false))
               + multiset{s[hi - 1]}
  {
    var a := Select(s, offsets, lo, hi - 1, true);
    var b := Select(s, offsets, lo, hi - 1, false);
    if hi - 1 in offsets {
      assert Select(s, offsets, lo, hi, true) == a + [s[hi - 1]];
      assert Select(s, offsets, lo, hi, false) == b;
    } else {
      assert Select(s, offsets, lo, hi, true) == a;
      assert Select(s, offsets, lo, hi, false) == b + [s[hi - 1]];
    }
  }

  lemma SliceLast<T>(s: seq<T>, lo: nat, hi: nat)
    requires lo < hi <= |s|
    ensures multiset(s[lo..hi]) == multiset(s[lo..hi - 1]) + multiset{s[hi - 1]}
  {
    assert s[lo..hi] == s[lo..hi - 1] + [s[hi - 1]];
  }

  /** A range of one position selects its element or nothing. */
  lemma SelectOne<T>(s: seq<T>, offsets: set<nat>, i: nat, marked: bool)
    requires i < |s|
    ensures Select(s, offsets, i, i + 1, marked) == if (i in offsets) == marked then [s[i]] else []
  {
    assert Select(s, offsets, i, i, marked) == [];
  }

  /** A selected position `i` lands after the selected positions below it. */
  lemma SelectPosition<T>(s: seq<T>, offsets: set<nat>, lo: nat, hi: nat, marked: bool, i: nat)
    requires lo <= i < hi <= |s| && (i in offsets) == marked
    ensures |Select(s, offsets, lo, i, marked)| < |Select(s, offsets, lo, hi, marked)|
    ensures Select(s, offsets, lo, hi, marked)[|Select(s, offsets, lo, i, marked)|] == s[i]
  {
    var below := Select(s, offsets, lo, i, marked);
    var above := Select(s, offsets, i + 1, hi, marked);
    SelectSplit(s, offsets, lo, i, hi, marked);
    SelectSplit(s, offsets, i, i + 1, hi, marked);
    SelectOne(s, offsets, i, marked);
    var whole := Select(s, offsets, lo, hi, marked);
    assert whole == below + ([s[i]] + above);
    assert whole[|below|] == ([s[i]] + above)[0];
  }

  lemma {:induction false} SelectNoDup<T>(s: seq<T>, offsets: set<nat>, lo: nat, hi: nat, marked: bool)
    requires lo <= hi <= |s| && NoDup(s)
    ensures NoDup(Select(s, offsets, lo, hi, marked))
    decreases hi
  {
    if hi > lo {
      SelectNoDup(s, offsets, lo, hi - 1, marked);
      SelectFrom(s, offsets, lo, hi - 1, marked);
      var prefix := Select(s, offsets, lo, hi - 1, marked);
      assert forall i :: lo <= i < hi - 1 ==> s[i] != s[hi - 1];
      assert s[hi - 1] !in prefix;
    }
  }

  lemma NoDupAppend<T>(a: seq<T>, b: seq<T>)
    requires NoDup(a) && NoDup(b)
    requires forall x :: x in a ==> x !in b
    ensures NoDup(a + b)
  {
    forall i, j | 0 <= i < j < |a + b|
      ensures (a + b)[i] != (a + b)[j]
    {
      if j < |a| {
        assert (a + b)[i] == a[i] && (a + b)[j] == a[j];
      } else if i < |a| {
        assert (a + b)[i] == a[i] && (a + b)[j] == b[j - |a|];
        assert a[i] in a;
      } else {
        assert (a + b)[i] == b[i - |a|] && (a + b)[j] == b[j - |a|];
      }
    }
  }

  /** Every element not removed keeps its place among the survivors: it moves
      up by the number of removed positions before it. With the length in
      `RemoveAt`'s contract this says the survivors are exactly the elements at
      the positions not in `offsets`, in their original relative order. */
  lemma RemoveAtKeepsOrder<T>(s: seq<T>, offsets: set<nat>, i: nat)
    requires ValidOffsets(offsets, |s|) && i < |s| && i !in offsets
    ensures i - MarkedBelow(offsets, i) < |RemoveAt(s, offsets)|
    ensures RemoveAt(s, offsets)[i - MarkedBelow(offsets, i)] == s[i]
  {
    SelectPosition(s, offsets, 0, |s|, false, i);
    assert MarkedBelow(offsets, 0) == 0;
    assert |Select(s, offsets, 0, i, false)| == i - MarkedBelow(offsets, i);
    assert RemoveAt(s, offsets) == Select(s, offsets, 0, |s|, false);
  }

  /** Removing entries from a list without duplicates leaves it without duplicates. */
  lemma RemoveAtNoDup<T>(s: seq<T>, offsets: set<nat>)
    requires ValidOffsets(offsets, |s|) && NoDup(s)
    ensures NoDup(RemoveAt(s, offsets))
  {
    SelectNoDup(s, offsets, 0, |s|, false);
  }

  /** An unmoved element below `to` shifts up by the moved elements before it. */
  lemma MoveKeepsBefore<T>(s: seq<T>, offsets: set<nat>, to: nat, i: nat)
    requires ValidOffsets(offsets, |s|) && to <= |s|
    requires i < to && i !in offsets
    ensures i - MarkedBelow(offsets, i) < |s|
    ensures Move(s, offsets, to)[i - MarkedBelow(offsets, i)] == s[i]
  {
    var before := Select(s, offsets, 0, to, false);
    var moved := Select(s, offsets, 0, |s|, true);
    var after := Select(s, offsets, to, |s|, false);
    SelectPosition(s, offsets, 0, to, false, i);
    var k := i - MarkedBelow(offsets, i);
    assert k == |Select(s, offsets, 0, i, false)| < |before|;
    assert Move(s, offsets, to) == (before + moved) + after;
    assert (before + moved)[k] == before[k];
  }

  /** An unmoved element at or after `to` shifts up by the moved elements
      before it and back down by the whole moved block. */
  lemma MoveKeepsAfter<T>(s: seq<T>, offsets: set<nat>, to: nat, i: nat)
    requires ValidOffsets(offsets, |s|) && to <= |s|
    requires to <= i < |s| && i !in offsets
    ensures i - MarkedBelow(offsets, i) + |offsets| < |s|
    ensures Move(s, offsets, to)[i - MarkedBelow(offsets, i) + |offsets|] == s[i]
  {
    var before := Select(s, offsets, 0, to, false);
    var moved := Select(s, offsets, 0, |s|, true);
    var after := Select(s, offsets, to, |s|, false);
    MarkedBelowCardinality(offsets, |s|);
    SelectPosition(s, offsets, to, |s|, false, i);
    assert Move(s, offsets, to)[|before| + |moved|..] == after;
  }

  /** The moved elements form one block, in their original order, starting at
      `to` less the number of moved elements below `to`. */
  lemma MoveBlock<T>(s: seq<T>, offsets: set<nat>, to: nat, i: nat)
    requires ValidOffsets(offsets, |s|) && to <= |s|
    requires i in offsets
    ensures to - MarkedBelow(offsets, to) + MarkedBelow(offsets, i) < |s|
    ensures Move(s, offsets, to)[to - MarkedBelow(offsets, to) + MarkedBelow(offsets, i)] == s[i]
  {
    var before := Select(s, offsets, 0, to, false);
    var moved := Select(s, offsets, 0, |s|, true);
    SelectPosition(s, offsets, 0, |s|, true, i);
    assert Move(s, offsets, to)[|before|..|before| + |moved|] == moved;
  }

  /** Elements drawn from disjoint sets of positions of a list without
      duplicates are different. */
  lemma SelectDisjoint<T>(s: seq<T>, offsets: set<nat>, lo1: nat, hi1: nat, m1: bool,
                          lo2: nat, hi2: nat, m2: bool)
    requires lo1 <= hi1 <= |s| && lo2 <= hi2 <= |s| && NoDup(s)
    requires m1 != m2 || hi1 <= lo2
    ensures forall x :: x in Select(s, offsets, lo1, hi1, m1) ==> x !in Select(s, offsets, lo2, hi2, m2)
  {
    SelectFrom(s, offsets, lo1, hi1, m1);
    SelectFrom(s, offsets, lo2, hi2, m2);
    forall x | x in Select(s, offsets, lo1, hi1, m1)
      ensures x !in Select(s, offsets, lo2, hi2, m2)
    {
      var i :| lo1 <= i < hi1 && (i in offsets) == m1 && s[i] == x;
      forall j | lo2 <= j < hi2 && (j in offsets) == m2
        ensures s[j] != x
      {
        assert i != j;
      }
    }
  }

  /** Moving entries of a list without duplicates leaves it without duplicates. */
  lemma MoveNoDup<T>(s: seq<T>, offsets: set<nat>, to: nat)
    requires ValidOffsets(offsets, |s|) && to <= |s| && NoDup(s)
    ensures NoDup(Move(s, offsets, to))
  {
    var before := Select(s, offsets, 0, to, false);
    var moved := Select(s, offsets, 0, |s|, true);
    var after := Select(s, offsets, to, |s|, false);
    SelectNoDup(s, offsets, 0, to, false);
    SelectNoDup(s, offsets, 0, |s|, true);
    SelectNoDup(s, offsets, to, |s|, false);
    SelectDisjoint(s, offsets, 0, to, false, 0, |s|, true);
    SelectDisjoint(s, offsets, 0, to, false, to, |s|, false);
    SelectDisjoint(s, offsets, to, |s|, false, 0, |s|, true);
    NoDupAppend(before, moved);
    NoDupAppend(before + moved, after);
  }

  /** With no offset inside the range, the unmarked elements are the range itself. */
  lemma {:induction false} SelectUntouched<T>(s: seq<T>, offsets: set<nat>, lo: nat, hi: nat)
    requires lo <= hi <= |s|
    requires forall i :: lo <= i < hi ==> i !in offsets
    ensures Select(s, offsets, lo, hi, false) == s[lo..hi]
    decreases hi
  {
    if hi > lo {
      SelectUntouched(s, offsets, lo, hi - 1);
      assert s[lo..hi] == s[lo..hi - 1] + [s[hi - 1]];
    }
  }

  /** Deleting one row removes exactly that row and closes the gap. */
  lemma RemoveOne<T>(s: seq<T>, i: nat)
    requires i < |s|
    ensures RemoveAt(s, {i}) == s[..i] + s[i + 1..]
  {
    var offsets := {i};
    var below := Select(s, offsets, 0, i, false);
    var above := Select(s, offsets, i + 1, |s|, false);
    assert Select(s, offsets, 0, |s|, false) == below + above by {
      SelectSplit(s, offsets, 0, i, |s|, false);
      SelectSplit(s, offsets, i, i + 1, |s|, false);
      SelectOne(s, offsets, i, false);
    }
    assert below == s[..i] by {
      SelectUntouched(s, offsets, 0, i);
    }
    assert above == s[i + 1..] by {
      SelectUntouched(s, offsets, i + 1, |s|);
    }
  }
}
