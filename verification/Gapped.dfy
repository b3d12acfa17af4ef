/** Sequences of keys with gaps: the order facts shared by the sorted array and its block index. */
module Gapped {
  /** The null key. It is below every key that is ever stored; the hash table uses the same number for an empty cell. */
  const NULLKEY: int := -0x8000_0000_0000_0000

  /** A stored pair. The value plays no part in any comparison. */
  datatype Pair = Pair(key: int, value: int)

  const NULLVALUE := Pair(NULLKEY, 0)

  function Keys(a: seq<Pair>): seq<int> {
    seq(|a|, i requires 0 <= i < |a| => a[i].key)
  }

  /** The entry at i, with every position outside the sequence read as null. */
  function At(s: seq<int>, i: int): int {
    if 0 <= i < |s| then s[i] else NULLKEY
  }

  predicate AllNull(s: seq<int>, lo: int, hi: int) {
    forall j :: lo <= j < hi ==> At(s, j) == NULLKEY
  }

  /** The non-null entries strictly increase. */
  ghost predicate Sorted(s: seq<int>) {
    forall i, j :: 0 <= i < j < |s| && s[i] != NULLKEY && s[j] != NULLKEY ==> s[i] < s[j]
  }

  /** Every key after slot p, up to hi, is above k. */
  ghost predicate AllAbove(s: seq<int>, p: int, hi: int, k: int) {
    forall j :: p < j <= hi && At(s, j) != NULLKEY ==> At(s, j) > k
  }

  /** p is the greatest slot of [lo, hi] that holds a key at or below k. */
  ghost predicate IsPred(s: seq<int>, lo: int, hi: int, k: int, p: int) {
    lo <= p <= hi && At(s, p) != NULLKEY && At(s, p) <= k && AllAbove(s, p, hi, k)
  }

  /** The next slot after p is the first used slot at or after lo, and its key is above k. */
  ghost predicate IsBelowAll(s: seq<int>, lo: int, k: int, p: int) {
    && lo - 1 <= p
    && AllNull(s, lo, p + 1)
    && At(s, p + 1) != NULLKEY
    && At(s, p + 1) > k
  }

  /** What a predecessor search over the window [lo, hi] answers. */
  ghost predicate SearchResult(s: seq<int>, lo: int, hi: int, k: int, found: bool, p: int) {
    || (AllNull(s, lo, hi + 1) && !found && p == lo)
    || (IsPred(s, lo, hi, k, p) && found == (At(s, p) == k))
    || (IsBelowAll(s, lo, k, p) && p < hi && !found)
  }

  /** The first non-null entry of [lo, hi), or null. */
  function FirstFrom(s: seq<int>, lo: int, hi: int): (r: int)
    ensures r == NULLKEY <==> AllNull(s, lo, hi)
    decreases hi - lo
  {
    if lo >= hi then NULLKEY
    else if At(s, lo) != NULLKEY then At(s, lo)
    else FirstFrom(s, lo + 1, hi)
  }

  lemma {:induction false} FirstFromIs(s: seq<int>, lo: int, p: int, hi: int)
    requires lo <= p < hi && AllNull(s, lo, p) && At(s, p) != NULLKEY
    ensures FirstFrom(s, lo, hi) == At(s, p)
    decreases p - lo
  {
    if lo < p {
      assert At(s, lo) == NULLKEY;
      FirstFromIs(s, lo + 1, p, hi);
    }
  }

  lemma {:induction false} FirstFromSlot(s: seq<int>, lo: int, hi: int) returns (p: int)
    requires !AllNull(s, lo, hi)
    ensures lo <= p < hi && AllNull(s, lo, p) && At(s, p) != NULLKEY && FirstFrom(s, lo, hi) == At(s, p)
    decreases hi - lo
  {
    if At(s, lo) != NULLKEY {
      p := lo;
    } else {
      p := FirstFromSlot(s, lo + 1, hi);
    }
  }

  lemma {:induction false} FirstFromSame(s: seq<int>, t: seq<int>, lo: int, hi: int)
    requires forall j :: lo <= j < hi ==> At(s, j) == At(t, j)
    ensures FirstFrom(s, lo, hi) == FirstFrom(t, lo, hi)
    decreases hi - lo
  {
    if lo < hi {
      assert At(s, lo) == At(t, lo);
      if At(s, lo) == NULLKEY {
        FirstFromSame(s, t, lo + 1, hi);
      }
    }
  }

  /** A change behind the first entry of a stretch does not show in that. */
  lemma LeaderKept(s: seq<int>, i: nat, v: int, lo: int, hi: int) returns (q: int)
    requires i < |s| && lo <= i < hi && !AllNull(s, lo, i)
    ensures lo <= q < i && At(s, q) != NULLKEY
    ensures FirstFrom(s, lo, hi) == At(s, q) == FirstFrom(s[i := v], lo, hi)
  {
    q := FirstFromSlot(s, lo, i);
    FirstFromIs(s, lo, q, hi);
    var t := s[i := v];
    assert forall j :: j != i ==> At(t, j) == At(s, j);
    FirstFromIs(t, lo, q, hi);
  }

  /** Steps down over nulls, but not past floor. */
  method SkipDown(a: seq<int>, start: int, floor: int) returns (p: int)
    requires 0 <= start < |a| && 0 <= floor
    ensures start <= floor ==> p == start
    ensures start > floor ==> floor <= p <= start && AllNull(a, p + 1, start + 1) && (p > floor ==> a[p] != NULLKEY)
  {
    p := start;
    while a[p] == NULLKEY && p > floor
      invariant p <= start && (start <= floor ==> p == start) && (start > floor ==> floor <= p)
      invariant forall j :: p < j <= start ==> At(a, j) == NULLKEY
    {
      p := p - 1;
    }
  }

  /** Steps up over nulls, but not past ceiling. */
  method SkipUp(a: seq<int>, start: int, ceiling: int) returns (p: int)
    requires 0 <= start && start <= ceiling <= |a|
    ensures start <= p <= ceiling && AllNull(a, start, p) && (p < ceiling ==> a[p] != NULLKEY)
  {
    p := start;
    while p < ceiling && a[p] == NULLKEY
      invariant start <= p <= ceiling
      invariant forall j :: start <= j < p ==> At(a, j) == NULLKEY
    {
      p := p + 1;
    }
  }

  /** Past a gap that ends in a key above k, every key is above k. */
  lemma AboveAfterGap(a: seq<int>, p: int, q: int, hi: int, k: int)
    requires Sorted(a) && 0 <= p < q < |a| && AllNull(a, p + 1, q) && a[q] != NULLKEY && a[q] > k
    ensures AllAbove(a, p, hi, k)
  {
  }

  /** Past a key every key is above it. */
  lemma AboveSelf(a: seq<int>, p: int, hi: int)
    requires Sorted(a) && 0 <= p < |a| && a[p] != NULLKEY
    ensures AllAbove(a, p, hi, a[p])
  {
  }

  lemma NoneBeyond(a: seq<int>, last: int, k: int)
    ensures AllAbove(a, last, last, k)
  {
  }

  /** The halving loop, entered with both ends used and the first key not above the target. */
  method Halve(desired: int, a: seq<int>, first0: int, last0: int) returns (found: bool, index: int)
    requires 0 <= first0 <= last0 < |a| && Sorted(a)
    requires a[first0] != NULLKEY && a[first0] <= desired && a[last0] != NULLKEY
    ensures IsPred(a, first0, last0, desired, index) && found == (a[index] == desired)
  {
    hide Sorted, AllAbove, AllNull;
    var first, last := first0, last0;
    var mid := SkipDown(a, (first + last) / 2, first);
    NoneBeyond(a, last0, desired);
    while first <= last
      invariant first0 <= first <= mid <= last <= last0
      invariant a[first] != NULLKEY && a[first] <= desired && a[last] != NULLKEY && a[mid] != NULLKEY
      invariant AllAbove(a, last, last0, desired)
      decreases last - first
    {
      if a[last] < desired {
        return false, last;
      }
      if a[mid] == desired {
        AboveSelf(a, mid, last0);
        return true, mid;
      }
      if desired < a[mid] {
        // The first key is at or below the target, so the step down stops at it at the latest.
        last := SkipDown(a, mid - 1, first);
        AboveAfterGap(a, last, mid, last0, desired);
      } else {
        if last == mid + 1 && desired < a[last] {
          AboveAfterGap(a, mid, last, last0, desired);
          return false, mid;
        }
        first := SkipUp(a, mid + 1, last);
        if a[first] > desired {
          AboveAfterGap(a, mid, first, last0, desired);
          return false, mid;
        }
      }
      mid := SkipDown(a, (first + last) / 2, first);
    }
  }

  /**
    The predecessor search: trims nulls from both ends, then halves what is left. A window given back to
    front never enters the loop, and a window of nulls leaves it at its first test.
   */
  method BinSearchPred(desired: int, a: seq<int>, first0: int, last0: int) returns (found: bool, index: int)
    requires desired > NULLKEY
    requires 0 <= first0 < |a| && 0 <= last0 < |a|
    requires Sorted(a)
    ensures first0 <= last0 ==> SearchResult(a, first0, last0, desired, found, index)
    ensures first0 > last0 ==> !found && index == if desired < a[first0] then first0 - 1 else -1
  {
    var last := SkipDown(a, last0, first0);
    var first := first0;
    if first < last {
      first := SkipUp(a, first, last);
    }
    if desired < a[first] {
      return false, first - 1;
    }
    if first > last {
      return false, -1;
    }
    if a[first] == NULLKEY {
      return false, last;
    }
    found, index := Halve(desired, a, first, last);
  }

  /** How many entries are not null. */
  function Used(s: seq<int>): (n: nat)
    ensures n <= |s|
  {
    if s == [] then 0 else Used(s[..|s| - 1]) + if s[|s| - 1] == NULLKEY then 0 else 1
  }

  function One(k: int): nat {
    if k == NULLKEY then 0 else 1
  }

  lemma {:induction false} UsedUpdate(s: seq<int>, i: nat, k: int)
    requires i < |s|
    ensures Used(s[i := k]) == Used(s) - One(s[i]) + One(k)
  {
    var t, n := s[i := k], |s| - 1;
    if i == n {
      assert t[..n] == s[..n];
    } else {
      assert t[..n] == s[..n][i := k];
      UsedUpdate(s[..n], i, k);
    }
  }

  lemma {:induction false} UsedNone(s: seq<int>)
    ensures Used(s) == 0 <==> AllNull(s, 0, |s|)
  {
    if s != [] {
      var t := s[..|s| - 1];
      UsedNone(t);
      assert forall j :: 0 <= j < |t| ==> At(s, j) == At(t, j);
      assert At(s, |s| - 1) == s[|s| - 1];
    }
  }

  lemma {:induction false} FreeSlot(s: seq<int>) returns (z: nat)
    requires Used(s) < |s|
    ensures z < |s| && s[z] == NULLKEY
  {
    var n := |s| - 1;
    if s[n] == NULLKEY {
      z := n;
    } else {
      z := FreeSlot(s[..n]);
    }
  }

  lemma {:induction false} UsedSplit(s: seq<int>, t: seq<int>)
    ensures Used(s + t) == Used(s) + Used(t)
  {
    if t == [] {
      assert s + t == s;
    } else {
      var n := |t| - 1;
      assert (s + t)[..|s| + n] == s + t[..n];
      UsedSplit(s, t[..n]);
    }
  }
}
