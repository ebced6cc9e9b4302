/**
 * Counting the true entries of a boolean sequence. Every tally the board
 * keeps (mines placed, cells revealed, flags planted, cells still eligible
 * for a relocated mine) is the count of a mask over the cells.
 */
module Counting {

  /** Number of `true` entries; defined from the back, as a left-to-right scan tallies them. */
  function Count(s: seq<bool>): (c: nat)
    ensures c <= |s|
  {
    if s == [] then 0 else Count(s[..|s| - 1]) + (if s[|s| - 1] then 1 else 0)
  }

  /** Extending a prefix by one element adds that element to the tally. */
  lemma CountPrefix(s: seq<bool>, i: nat)
    requires i < |s|
    ensures Count(s[..i + 1]) == Count(s[..i]) + (if s[i] then 1 else 0)
  {
    assert s[..i + 1][..i] == s[..i];
  }

  lemma CountAll(s: seq<bool>)
    ensures Count(s[..|s|]) == Count(s)
  {
    assert s[..|s|] == s;
  }

  /** A pointwise weaker mask has no larger count. */
  lemma {:induction false} CountMonotone(a: seq<bool>, b: seq<bool>)
    requires |a| == |b|
    requires forall i :: 0 <= i < |a| && a[i] ==> b[i]
    ensures Count(a) <= Count(b)
  {
    if a != [] {
      CountMonotone(a[..|a| - 1], b[..|b| - 1]);
    }
  }

  /** ... and strictly smaller when it misses one entry the other has. */
  lemma {:induction false} CountStrict(a: seq<bool>, b: seq<bool>, k: nat)
    requires |a| == |b| && k < |a|
    requires forall i :: 0 <= i < |a| && a[i] ==> b[i]
    requires !a[k] && b[k]
    ensures Count(a) < Count(b)
  {
    var n := |a| - 1;
    if k == n {
      CountMonotone(a[..n], b[..n]);
    } else {
      CountStrict(a[..n], b[..n], k);
    }
  }

  /** Overwriting one entry changes the count by at most one, as expected. */
  lemma {:induction false} CountUpdate(s: seq<bool>, k: nat, v: bool)
    requires k < |s|
    ensures Count(s[k := v]) == Count(s) - (if s[k] then 1 else 0) + (if v then 1 else 0)
  {
    var n := |s| - 1;
    var t := s[k := v];
    if k == n {
      assert t[..n] == s[..n];
    } else {
      assert t[..n] == s[..n][k := v];
      CountUpdate(s[..n], k, v);
    }
  }

  /** The count is zero exactly when no entry is true. */
  lemma {:induction false} CountZero(s: seq<bool>)
    ensures Count(s) == 0 <==> forall i :: 0 <= i < |s| ==> !s[i]
  {
    if s != [] {
      var n := |s| - 1;
      CountZero(s[..n]);
      assert forall i :: 0 <= i < n ==> s[..n][i] == s[i];
    }
  }

  /** The count is the full length exactly when every entry is true. */
  lemma {:induction false} CountFull(s: seq<bool>)
    ensures Count(s) == |s| <==> forall i :: 0 <= i < |s| ==> s[i]
  {
    if s != [] {
      var n := |s| - 1;
      CountFull(s[..n]);
      assert forall i :: 0 <= i < n ==> s[..n][i] == s[i];
    }
  }

  /** A mask that is the disjoint union of two others counts their sum. */
  lemma {:induction false} CountSplit(a: seq<bool>, b: seq<bool>, c: seq<bool>)
    requires |a| == |b| == |c|
    requires forall i :: 0 <= i < |a| ==> a[i] == (b[i] || c[i]) && !(b[i] && c[i])
    ensures Count(a) == Count(b) + Count(c)
  {
    if a != [] {
      var n := |a| - 1;
      CountSplit(a[..n], b[..n], c[..n]);
    }
  }
}
