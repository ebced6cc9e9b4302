/**
 * The ascending-placement rule of the number-placing game: numbers are
 * dropped one at a time into slots (0 marks an empty slot) and every
 * occupied slot must read in non-decreasing order from left to right.
 */
module AscendingPlacement {

  /** A Java `int`. */
  newtype int32 = x: int | -0x8000_0000 <= x < 0x8000_0000

  /** The value of an empty slot. */
  const EMPTY: int32 := 0
  /** `Integer.MIN_VALUE` and `Integer.MAX_VALUE`, standing for a missing neighbour. */
  const MIN_VALUE: int32 := -0x8000_0000
  const MAX_VALUE: int32 := 0x7fff_ffff

  /** Occupied slot `i` contradicts putting `value` at `index`. */
  predicate Violation(p: seq<int32>, index: int, value: int32, i: int)
  {
    && 0 <= i < |p| && p[i] != EMPTY
    && ((i < index && p[i] > value) || (i > index && p[i] < value))
  }

  /** `value` at `index` is ordered consistently with every other occupied slot. */
  predicate ValidPlacement(p: seq<int32>, index: int, value: int32)
  {
    forall i :: 0 <= i < |p| ==> !Violation(p, index, value, i)
  }

  /** The occupied slots read in non-decreasing order. */
  predicate Ascending(p: seq<int32>)
  {
    forall a, b :: 0 <= a < b < |p| && p[a] != EMPTY && p[b] != EMPTY ==> p[a] <= p[b]
  }

  /** Value of the nearest occupied slot left of `k`, or MIN_VALUE when there is none. */
  function LeftBound(p: seq<int32>, k: int): (b: int32)
    requires 0 <= k < |p|
    decreases k
  {
    if k == 0 then MIN_VALUE
    else if p[k - 1] != EMPTY then p[k - 1]
    else LeftBound(p, k - 1)
  }

  /** Value of the nearest occupied slot right of `k`, or MAX_VALUE when there is none. */
  function RightBound(p: seq<int32>, k: int): (b: int32)
    requires 0 <= k < |p|
    decreases |p| - k
  {
    if k == |p| - 1 then MAX_VALUE
    else if p[k + 1] != EMPTY then p[k + 1]
    else RightBound(p, k + 1)
  }

  /** Empty slot `i` sits strictly between its nearest occupied neighbours' values. */
  predicate Brackets(p: seq<int32>, i: int, v: int32)
  {
    0 <= i < |p| && p[i] == EMPTY && LeftBound(p, i) < v < RightBound(p, i)
  }

  /** Some empty slot can take `v`. */
  predicate CanPlace(p: seq<int32>, v: int32)
  {
    exists i :: 0 <= i < |p| && Brackets(p, i, v)
  }

  /** Checks every occupied slot against `value` placed at `index`, stopping at the first conflict. */
  method IsValidPlacement(positions: array<int32>, index: int, value: int32) returns (ok: bool)
    ensures ok == ValidPlacement(positions[..], index, value)
  {
    for i := 0 to positions.Length
      invariant forall j :: 0 <= j < i ==> !Violation(positions[..], index, value, j)
    {
      if positions[i] == EMPTY {
        continue;
      }
      var invalidBefore := i < index && positions[i] > value;
      var invalidAfter := i > index && positions[i] < value;
      if invalidBefore || invalidAfter {
        assert Violation(positions[..], index, value, i);
        return false;
      }
    }
    return true;
  }

  /** Looks for an empty slot whose nearest occupied neighbours bracket `nextValue`. */
  method CanPlaceNext(positions: array<int32>, nextValue: int32) returns (ok: bool)
    ensures ok == CanPlace(positions[..], nextValue)
  {
    ghost var p := positions[..];
    for i := 0 to positions.Length
      invariant forall j :: 0 <= j < i ==> !Brackets(p, j, nextValue)
    {
      if positions[i] != EMPTY {
        continue;
      }
      var left := MIN_VALUE;
      var right := MAX_VALUE;
      var l := i - 1;
      while l >= 0
        invariant -1 <= l < i
        invariant left == MIN_VALUE && LeftBound(p, l + 1) == LeftBound(p, i)
      {
        if positions[l] != EMPTY {
          left := positions[l];
          break;
        }
        l := l - 1;
      }
      assert left == LeftBound(p, i);
      var r := i + 1;
      while r < positions.Length
        invariant i < r <= positions.Length
        invariant right == MAX_VALUE && RightBound(p, r - 1) == RightBound(p, i)
      {
        if positions[r] != EMPTY {
          right := positions[r];
          break;
        }
        r := r + 1;
      }
      assert right == RightBound(p, i);
      if left < nextValue && nextValue < right {
        assert Brackets(p, i, nextValue);
        return true;
      }
    }
    return false;
  }

  /**
   * The left bound is the value of the nearest occupied slot before `k`
   * (returned as `l`), or MIN_VALUE when every slot before `k` is empty (`l == -1`).
   */
  lemma {:induction false} NearestLeft(p: seq<int32>, k: int) returns (l: int)
    requires 0 <= k < |p|
    ensures -1 <= l < k
    ensures forall m :: l < m < k ==> p[m] == EMPTY
    ensures l == -1 ==> LeftBound(p, k) == MIN_VALUE
    ensures l >= 0 ==> p[l] != EMPTY && LeftBound(p, k) == p[l]
    decreases k
  {
    if k == 0 {
      l := -1;
    } else if p[k - 1] != EMPTY {
      l := k - 1;
    } else {
      l := NearestLeft(p, k - 1);
    }
  }

  /**
   * The right bound is the value of the nearest occupied slot after `k`
   * (returned as `r`), or MAX_VALUE when every slot after `k` is empty (`r == |p|`).
   */
  lemma {:induction false} NearestRight(p: seq<int32>, k: int) returns (r: int)
    requires 0 <= k < |p|
    ensures k < r <= |p|
    ensures forall m :: k < m < r ==> p[m] == EMPTY
    ensures r == |p| ==> RightBound(p, k) == MAX_VALUE
    ensures r < |p| ==> p[r] != EMPTY && RightBound(p, k) == p[r]
    decreases |p| - k
  {
    if k == |p| - 1 {
      r := |p|;
    } else if p[k + 1] != EMPTY {
      r := k + 1;
    } else {
      r := NearestRight(p, k + 1);
    }
  }

  /** In an ascending row every occupied slot before `i` holds at most the left bound of `i`. */
  lemma BelowLeftBound(p: seq<int32>, i: int, j: int)
    requires Ascending(p) && 0 <= j < i < |p| && p[j] != EMPTY
    ensures p[j] <= LeftBound(p, i)
  {
    var l := NearestLeft(p, i);
  }

  /** ... and every occupied slot after `i` at least its right bound. */
  lemma AboveRightBound(p: seq<int32>, i: int, j: int)
    requires Ascending(p) && 0 <= i < j < |p| && p[j] != EMPTY
    ensures RightBound(p, i) <= p[j]
  {
    var r := NearestRight(p, i);
  }

  /**
   * In an ascending row, a slot that makes `CanPlace` true also passes the
   * placement check, both before and after the value is written into it.
   */
  lemma BracketedSlotIsValid(p: seq<int32>, i: int, v: int32)
    requires Ascending(p) && Brackets(p, i, v)
    ensures ValidPlacement(p, i, v)
    ensures ValidPlacement(p[i := v], i, v)
  {
    forall j | 0 <= j < |p| && p[j] != EMPTY
      ensures !Violation(p, i, v, j) && !Violation(p[i := v], i, v, j)
    {
      if j < i {
        BelowLeftBound(p, i, j);
      } else if j > i {
        AboveRightBound(p, i, j);
      }
    }
  }

  /** A valid placement keeps the row ascending. */
  lemma ValidKeepsAscending(p: seq<int32>, i: int, v: int32)
    requires Ascending(p) && 0 <= i < |p| && ValidPlacement(p, i, v)
    ensures Ascending(p[i := v])
  {
    var q := p[i := v];
    forall a, b | 0 <= a < b < |q| && q[a] != EMPTY && q[b] != EMPTY ensures q[a] <= q[b] {
      if a == i {
        assert !Violation(p, i, v, b);
      } else if b == i {
        assert !Violation(p, i, v, a);
      }
    }
  }

  /**
   * Conversely, an empty slot that validly takes a value held by no occupied
   * slot, strictly between the sentinels, brackets it: `CanPlace` holds.
   */
  lemma FreshValidSlotBrackets(p: seq<int32>, i: int, v: int32)
    requires 0 <= i < |p| && p[i] == EMPTY && ValidPlacement(p, i, v)
    requires MIN_VALUE < v < MAX_VALUE
    requires forall j :: 0 <= j < |p| && p[j] != EMPTY ==> p[j] != v
    ensures CanPlace(p, v)
  {
    var l := NearestLeft(p, i);
    var r := NearestRight(p, i);
    if l >= 0 {
      assert !Violation(p, i, v, l);
    }
    if r < |p| {
      assert !Violation(p, i, v, r);
    }
    assert Brackets(p, i, v);
  }

  /** A row with no empty slot takes nothing. */
  lemma FullRejects(p: seq<int32>, v: int32)
    requires forall i :: 0 <= i < |p| ==> p[i] != EMPTY
    ensures !CanPlace(p, v)
  {
  }

  /**
   * On an empty row every placement is valid, and a next value fits exactly
   * when it lies strictly between the sentinels.
   */
  lemma EmptyRow(p: seq<int32>, index: int, v: int32)
    requires |p| > 0 && forall i :: 0 <= i < |p| ==> p[i] == EMPTY
    ensures ValidPlacement(p, index, v)
    ensures CanPlace(p, v) <==> MIN_VALUE < v < MAX_VALUE
  {
    var l := NearestLeft(p, 0);
    var r := NearestRight(p, 0);
    if CanPlace(p, v) {
      var i :| 0 <= i < |p| && Brackets(p, i, v);
      var li := NearestLeft(p, i);
      var ri := NearestRight(p, i);
    } else {
      assert !Brackets(p, 0, v);
    }
  }

  /** The slot being filled does not take part in the check. */
  lemma OwnSlotIgnored(p: seq<int32>, index: int, x: int32, v: int32)
    requires 0 <= index < |p|
    ensures ValidPlacement(p[index := x], index, v) == ValidPlacement(p, index, v)
  {
    var q := p[index := x];
    if ValidPlacement(p, index, v) {
      forall j | 0 <= j < |q| ensures !Violation(q, index, v, j) {
        assert !Violation(p, index, v, j);
      }
    } else {
      var j :| 0 <= j < |p| && Violation(p, index, v, j);
      assert Violation(q, index, v, j);
    }
  }

  /**
   * The two checks disagree on repeated values: the placement check accepts
   * a value equal to its neighbour, while the bracketing check, being strict,
   * reports that the same value cannot be placed.
   */
  lemma EqualValueAcceptedButNotBracketed()
    ensures ValidPlacement([5, 0], 1, 5)
    ensures !CanPlace([5, 0], 5)
  {
    var p: seq<int32> := [5, 0];
    assert LeftBound(p, 1) == 5;
    forall j | 0 <= j < |p| ensures !Violation(p, 1, 5, j) {
    }
  }
}
