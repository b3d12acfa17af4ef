/**
  What placing a key, and shifting a run of keys by one slot, does to the order and to the bottom of the block index.
 */
module Placement {
  import opened Gapped
  import opened BlockLevels
  import opened BlockClimb
  import opened BlockSearch

  /**
    The answer of a search of the whole array: the key's slot or its predecessor's, or the slot before the first key.
   */
  ghost predicate Located(ks: seq<int>, k: int, found: bool, p: int) {
    || (IsPred(ks, 0, |ks| - 1, k, p) && found == (At(ks, p) == k))
    || (IsBelowAll(ks, 0, k, p) && !found)
    || (AllNull(ks, 0, |ks|) && !found && p == -1)
  }

  lemma NothingInWindow(ks: seq<int>, k: int, first0: int, first: int, last: int, found: bool, p: int)
    requires Sorted(ks) && Covers(ks, k, first0, last) && last < |ks|
    requires first0 <= first < |ks| && AllNull(ks, first0, first) && ks[first] != NULLKEY
    requires first <= last ==> SearchResult(ks, first, last, k, found, p) && !IsPred(ks, first, last, k, p)
    ensures AllNull(ks, 0, first0) && ks[first] > k && (first <= last ==> p == first - 1)
  {
    assert At(ks, first) == ks[first];
    forall j | first0 <= j <= last && At(ks, j) != NULLKEY
      ensures At(ks, j) > k
    {
    }
  }

  /** A window that covers the target gives the answer of the whole array. */
  lemma LocatedInWindow(ks: seq<int>, k: int, first0: int, first: int, last: int, found: bool, p: int)
    requires Sorted(ks) && Covers(ks, k, first0, last) && last < |ks|
    requires first0 <= first < |ks| && AllNull(ks, first0, first) && ks[first] != NULLKEY
    requires if first <= last then SearchResult(ks, first, last, k, found, p)
             else !found && p == if k < ks[first] then first - 1 else -1
    ensures Located(ks, k, found, p)
  {
    if first <= last && IsPred(ks, first, last, k, p) {
      assert IsPred(ks, 0, |ks| - 1, k, p);
    } else {
      assert first <= last ==> At(ks, first) == ks[first];
      assert AllNull(ks, 0, first0) by {
        NothingInWindow(ks, k, first0, first, last, found, p);
      }
      assert At(ks, first) > k;
      assert IsBelowAll(ks, 0, k, first - 1);
    }
  }

  lemma SortedIsNonDecreasing(ks: seq<int>)
    requires Sorted(ks)
    ensures NonDecreasing(ks)
  {
  }

  lemma OverwriteLeads(was: seq<int>, pos: nat, v: int, now: seq<int>)
    requires pos < |was| && now == was[pos := v] && v != NULLKEY && NonDecreasing(now)
    requires AllNull(was, pos / BLOCK * BLOCK, pos) && (was[pos] == NULLKEY || was[pos] >= v)
    ensures PutValue(First(was, pos / BLOCK), v, false) == First(now, pos / BLOCK)
  {
    var b, lo := pos / BLOCK, pos / BLOCK * BLOCK;
    assert forall j :: j != pos ==> At(now, j) == At(was, j);
    FirstFromIs(now, lo, pos, lo + BLOCK);
    if First(was, b) != NULLKEY {
      var q := FirstFromSlot(was, lo, lo + BLOCK);
      assert q >= pos && At(now, q) >= v;
    }
  }

  lemma OverwriteFollows(was: seq<int>, pos: nat, v: int, now: seq<int>)
    requires pos < |was| && now == was[pos := v] && v != NULLKEY && NonDecreasing(now)
    requires !AllNull(was, pos / BLOCK * BLOCK, pos)
    ensures PutValue(First(was, pos / BLOCK), v, false) == First(now, pos / BLOCK)
  {
    var lo := pos / BLOCK * BLOCK;
    var q := LeaderKept(was, pos, v, lo, lo + BLOCK);
    assert At(now, q) == At(was, q) && At(now, q) <= At(now, pos);
  }

  /** Writing v at pos, over nothing, over a key not below it, or behind a key of its block. */
  lemma OverwriteIndexed(was: seq<int>, own: seq<int>, pos: nat, v: int, now: seq<int>)
    requires pos < |was| && now == was[pos := v] && v != NULLKEY && NonDecreasing(now) && Exact(was, own)
    requires was[pos] == NULLKEY || was[pos] >= v || !AllNull(was, pos / BLOCK * BLOCK, pos)
    ensures AwaitsWrite(now, own, pos / BLOCK, v, false)
  {
    assert forall j :: j != pos ==> At(now, j) == At(was, j);
    OtherBlocksSame(was, now, pos);
    assert At(own, pos / BLOCK) == First(was, pos / BLOCK);
    if AllNull(was, pos / BLOCK * BLOCK, pos) {
      OverwriteLeads(was, pos, v, now);
    } else {
      OverwriteFollows(was, pos, v, now);
    }
  }

  /** Writing the first slot of a block by force. */
  lemma ForceIndexed(was: seq<int>, own: seq<int>, pos: nat, v: int, now: seq<int>)
    requires pos < |was| && now == was[pos := v] && v != NULLKEY && Exact(was, own) && pos % BLOCK == 0
    ensures AwaitsWrite(now, own, pos / BLOCK, v, true)
  {
    assert forall j :: j != pos ==> At(now, j) == At(was, j);
    OtherBlocksSame(was, now, pos);
    FirstFromIs(now, pos, pos, pos + BLOCK);
  }

  /** Writing a slot whose block's first key is unchanged by it. */
  lemma HiddenIndexed(was: seq<int>, own: seq<int>, pos: nat, v: int, now: seq<int>)
    requires pos < |was| && now == was[pos := v] && Exact(was, own)
    requires !AllNull(was, pos / BLOCK * BLOCK, pos)
             || (was[pos] == NULLKEY && (pos + 1) % BLOCK != 0 && At(was, pos + 1) == v != NULLKEY)
    ensures Exact(now, own)
  {
    var b, lo := pos / BLOCK, pos / BLOCK * BLOCK;
    assert forall j :: j != pos ==> At(now, j) == At(was, j);
    OtherBlocksSame(was, now, pos);
    if AllNull(was, lo, pos) {
      assert AllNull(now, lo, pos) && AllNull(was, lo, pos + 1);
      FirstFromIs(now, lo, pos, lo + BLOCK);
      FirstFromIs(was, lo, pos + 1, lo + BLOCK);
    } else {
      var q := LeaderKept(was, pos, v, lo, lo + BLOCK);
    }
  }

  lemma PlaceSorted(ks: seq<int>, pos: nat, k: int)
    requires Sorted(ks) && pos < |ks| && k != NULLKEY
    requires forall j :: 0 <= j < pos && ks[j] != NULLKEY ==> ks[j] < k
    requires forall j :: pos < j < |ks| && ks[j] != NULLKEY ==> ks[j] > k
    ensures Sorted(ks[pos := k])
  {
  }

  /** The keys while the run up to i has been moved one slot to the left: slot i is about to be overwritten. */
  function ShiftedLeft<T>(ks: seq<T>, left: nat, i: nat): (r: seq<T>)
    requires left <= i < |ks|
  {
    seq(|ks|, j requires 0 <= j < |ks| => if left <= j < i then ks[j + 1] else ks[j])
  }

  /** The keys while the run down to i has been moved one slot to the right: slot i is about to be overwritten. */
  function ShiftedRight<T>(ks: seq<T>, right: nat, i: nat): (r: seq<T>)
    requires i <= right < |ks|
  {
    seq(|ks|, j requires 0 <= j < |ks| => if i < j <= right then ks[j - 1] else ks[j])
  }

  lemma ShiftsNonDecreasing(ks: seq<int>, a: nat, i: nat)
    requires Sorted(ks)
    ensures a <= i < |ks| ==> NonDecreasing(ShiftedLeft(ks, a, i))
    ensures i <= a < |ks| ==> NonDecreasing(ShiftedRight(ks, a, i))
  {
  }

  /** A gap at left, and used slots from there up to index. */
  ghost predicate LeftRun(ks: seq<int>, left: nat, index: nat) {
    && left < index < |ks| && ks[left] == NULLKEY
    && forall j :: left < j <= index ==> ks[j] != NULLKEY
  }

  /** A gap at right, and used slots after index down from there. */
  ghost predicate RightRun(ks: seq<int>, index: int, right: nat) {
    && -1 <= index < right < |ks| && ks[right] == NULLKEY
    && forall j :: index < j < right ==> ks[j] != NULLKEY
  }

  /** Where a shift to the left copies a key: over a gap, or over a key that has just moved on behind another. */
  lemma LeftGap(ks: seq<int>, left: nat, i: nat, index: nat)
    requires LeftRun(ks, left, index) && left <= i < index
    ensures var was := ShiftedLeft(ks, left, i);
            && i + 1 < |was| && (i == left ==> was[i] == NULLKEY) && At(was, i + 1) == ks[i + 1] != NULLKEY
            && (i > left && i % BLOCK != 0 ==> !AllNull(was, i / BLOCK * BLOCK, i))
  {
    assert i > left ==> At(ShiftedLeft(ks, left, i), i - 1) != NULLKEY;
  }

  /** One key moves left: which update of the index is due. */
  lemma LeftStep(ks: seq<int>, left: nat, i: nat, index: nat, own: seq<int>)
    requires Sorted(ks) && LeftRun(ks, left, index) && left <= i < index
    requires Exact(ShiftedLeft(ks, left, i), own)
    ensures var now := ShiftedLeft(ks, left, i + 1);
            && now == ShiftedLeft(ks, left, i)[i := ks[i + 1]] && NonDecreasing(now)
            && (i % BLOCK == 0 ==> AwaitsWrite(now, own, i / BLOCK, ks[i + 1], true))
            && (i % BLOCK == BLOCK - 1 ==> AwaitsWrite(now, own, i / BLOCK, ks[i + 1], false))
            && (i % BLOCK != 0 && i % BLOCK != BLOCK - 1 ==> Exact(now, own))
  {
    var was, now := ShiftedLeft(ks, left, i), ShiftedLeft(ks, left, i + 1);
    assert now == was[i := ks[i + 1]];
    ShiftsNonDecreasing(ks, left, i + 1);
    if i % BLOCK != 0 {
      LeftGap(ks, left, i, index);
    }
    hide AllNull, Exact, AwaitsWrite, Sorted, NonDecreasing;
    if i % BLOCK == 0 {
      ForceIndexed(was, own, i, ks[i + 1], now);
    } else {
      if i % BLOCK == BLOCK - 1 {
        OverwriteIndexed(was, own, i, ks[i + 1], now);
      } else {
        HiddenIndexed(was, own, i, ks[i + 1], now);
      }
    }
  }

  /** One key moves right: which update of the index is due. */
  lemma RightStep(ks: seq<int>, index: int, right: nat, i: nat, own: seq<int>)
    requires Sorted(ks) && RightRun(ks, index, right) && index + 2 <= i <= right
    requires Exact(ShiftedRight(ks, right, i), own)
    ensures var now := ShiftedRight(ks, right, i - 1);
            && now == ShiftedRight(ks, right, i)[i := ks[i - 1]] && NonDecreasing(now)
            && (i % BLOCK == 0 ==> AwaitsWrite(now, own, i / BLOCK, ks[i - 1], false))
            && (i % BLOCK != 0 ==> Exact(now, own))
  {
    var was, now := ShiftedRight(ks, right, i), ShiftedRight(ks, right, i - 1);
    assert now == was[i := ks[i - 1]];
    ShiftsNonDecreasing(ks, right, i - 1);
    assert At(was, i - 1) == ks[i - 1] != NULLKEY;
    if i % BLOCK == 0 {
      OverwriteIndexed(was, own, i, ks[i - 1], now);
    } else {
      HiddenIndexed(was, own, i, ks[i - 1], now);
    }
  }

  /** The freed slot takes the new key after a shift to the left. */
  lemma LeftPlaced(ks: seq<int>, left: nat, index: nat, k: int, own: seq<int>)
    requires Sorted(ks) && LeftRun(ks, left, index) && k != NULLKEY
    requires IsPred(ks, 0, |ks| - 1, k, index) && ks[index] != k
    ensures Sorted(ShiftedLeft(ks, left, index)[index := k])
    ensures Exact(ShiftedLeft(ks, left, index), own) ==>
            AwaitsWrite(ShiftedLeft(ks, left, index)[index := k], own, index / BLOCK, k, index % BLOCK == 0)
  {
    var was := ShiftedLeft(ks, left, index);
    var now := was[index := k];
    assert forall j :: index < j < |ks| ==> At(ks, j) == ks[j];
    assert Sorted(now);
    if Exact(was, own) {
      if index % BLOCK == 0 {
        ForceIndexed(was, own, index, k, now);
      } else {
        assert At(was, index - 1) == ks[index] != NULLKEY;
        OverwriteIndexed(was, own, index, k, now);
      }
    }
  }

  /** The freed slot takes the new key after a shift to the right. */
  lemma RightPlaced(ks: seq<int>, index: int, right: nat, k: int, own: seq<int>)
    requires Sorted(ks) && RightRun(ks, index, right) && k != NULLKEY
    requires (IsPred(ks, 0, |ks| - 1, k, index) && ks[index] != k) || (index == -1 && IsBelowAll(ks, 0, k, index))
    ensures Sorted(ShiftedRight(ks, right, index + 1)[index + 1 := k])
    ensures Exact(ShiftedRight(ks, right, index + 1), own) ==>
            AwaitsWrite(ShiftedRight(ks, right, index + 1)[index + 1 := k], own, (index + 1) / BLOCK, k, false)
  {
    var was := ShiftedRight(ks, right, index + 1);
    var now := was[index + 1 := k];
    assert forall j :: index < j < |ks| && ks[j] != NULLKEY ==> ks[j] > k by {
      forall j | index < j < |ks| && ks[j] != NULLKEY ensures ks[j] > k {
        assert At(ks, j) == ks[j];
        assert index == -1 ==> At(ks, 0) == ks[0] > k;
      }
    }
    assert Sorted(now);
    if Exact(was, own) {
      if index >= 0 && (index + 1) % BLOCK != 0 {
        assert At(was, index) == ks[index] != NULLKEY;
      }
      OverwriteIndexed(was, own, index + 1, k, now);
    }
  }

  lemma KeysShifted(a: seq<Pair>, b: nat, i: nat)
    ensures b <= i < |a| ==> Keys(ShiftedLeft(a, b, i)) == ShiftedLeft(Keys(a), b, i)
    ensures i <= b < |a| ==> Keys(ShiftedRight(a, b, i)) == ShiftedRight(Keys(a), b, i)
  {
  }

  /** A window that misses gives no place of the key: the slot before the next used one, though keys come before it. */
  lemma NotLocatedInMissed(ks: seq<int>, k: int, first0: int, first: int, last: int, p: int)
    requires Missed(ks, k, first0, last)
    requires first0 <= first < |ks| && AllNull(ks, first0, first) && ks[first] != NULLKEY
    requires p == if k < ks[first] then first - 1 else -1
    ensures first > last && !Located(ks, k, false, p)
  {
    assert At(ks, first) == ks[first];
  }

  /** Nothing is left from the window on, though something comes before it. */
  ghost predicate Emptied(s: seq<int>, first: int, last: int) {
    && 0 <= first <= last && AllNull(s, first, |s|) && !AllNull(s, 0, first)
    && (last == |s| - 1 || At(s, 0) == NULLKEY)
  }

  /** A search of such a window ends at the last slot of all, or nowhere. */
  lemma NotLocatedInEmptied(ks: seq<int>, k: int, first: int, last: int, p: int)
    requires Emptied(ks, first, last) && last < |ks|
    requires p == |ks| - 1 || (p == -1 && last < |ks| - 1)
    ensures !Located(ks, k, false, p) && !Covers(ks, k, first, last) && !Missed(ks, k, first, last)
  {
    assert At(ks, |ks| - 1) == NULLKEY;
  }

  /** What the index describes once the key of the last slot went stale: the keys with that one still there. */
  ghost predicate StaleView(ks: seq<int>, view: seq<int>) {
    && |view| == |ks| > 0 && Sorted(view) && view[|ks| - 1] != NULLKEY && view == ks[|ks| - 1 := view[|ks| - 1]]
    && AllNull(ks, (|ks| - 1) / BLOCK * BLOCK, |ks|)
  }

  lemma MissedOrCovers(s: seq<int>, k: int, first: int, last: int)
    ensures !(Missed(s, k, first, last) && Covers(s, k, first, last))
  {
  }

  lemma MissedOfView(ks: seq<int>, view: seq<int>, k: int, low: nat, high: int)
    requires Missed(view, k, low, high) && At(view, 0) == NULLKEY && |ks| == |view| > 0 && high <= |ks| - 1
    requires At(ks, |ks| - 1) == NULLKEY && forall j :: j != |ks| - 1 ==> At(ks, j) == At(view, j)
    ensures Missed(ks, k, low, high) || Emptied(ks, low, high)
  {
    var q :| 0 <= q < low && At(view, q) != NULLKEY;
    assert At(ks, q) == At(view, q);
    if j :| j > high && At(ks, j) != NULLKEY {
      assert Missed(ks, k, low, high);
    }
  }

  lemma CoversOfView(ks: seq<int>, view: seq<int>, k: int, low: nat, high: int)
    requires Covers(view, k, low, high) && |ks| == |view| > 0 && k < view[|view| - 1]
    requires At(ks, |ks| - 1) == NULLKEY && forall j :: j != |ks| - 1 ==> At(ks, j) == At(view, j)
    ensures Covers(ks, k, low, high)
  {
    if !AllNull(view, 0, low) {
      var j :| low <= j <= high && At(view, j) != NULLKEY && At(view, j) <= k;
      assert At(ks, j) == At(view, j);
    }
  }

  lemma EmptiedOfView(ks: seq<int>, view: seq<int>, k: int, low: nat, high: int)
    requires StaleView(ks, view) && !AllNull(ks, 0, |ks|) && low % BLOCK == 0
    requires 0 <= high == (if low + BLOCK - 1 > |ks| - 1 then |ks| - 1 else low + BLOCK - 1)
    requires Covers(view, k, low, high) && k >= view[|view| - 1]
    ensures Emptied(ks, low, high)
  {
    var n := |ks| - 1;
    assert At(view, n) == view[n] && high == n;
    var q :| 0 <= q < |ks| && At(ks, q) != NULLKEY;
    assert At(view, q) == At(ks, q) && q < n / BLOCK * BLOCK;
    assert low == n / BLOCK * BLOCK;
  }

  /** A window found for the view, seen from the keys. */
  lemma WindowOfView(ks: seq<int>, view: seq<int>, k: int, low: nat, high: int)
    requires StaleView(ks, view) && !AllNull(ks, 0, |ks|) && low % BLOCK == 0
    requires 0 <= high == (if low + BLOCK - 1 > |ks| - 1 then |ks| - 1 else low + BLOCK - 1)
    requires Covers(view, k, low, high) || (Missed(view, k, low, high) && At(view, 0) == NULLKEY)
    ensures if Missed(view, k, low, high) then Missed(ks, k, low, high) || Emptied(ks, low, high)
            else if k < view[|view| - 1] then Covers(ks, k, low, high) else Emptied(ks, low, high)
  {
    var n := |ks| - 1;
    assert forall j :: j != n ==> At(ks, j) == At(view, j);
    assert At(ks, n) == NULLKEY && At(view, n) == view[n];
    MissedOrCovers(view, k, low, high);
    if Missed(view, k, low, high) {
      MissedOfView(ks, view, k, low, high);
    } else if k < view[n] {
      CoversOfView(ks, view, k, low, high);
    } else {
      EmptiedOfView(ks, view, k, low, high);
    }
  }

  /** Nothing comes before a block exactly if no block before it has an entry. */
  lemma LeadIs(ks: seq<int>, own: seq<int>, b: nat)
    requires Exact(ks, own)
    ensures AllNull(own, 0, b) <==> AllNull(ks, 0, BLOCK * b)
  {
    if AllNull(own, 0, b) {
      forall j | 0 <= j < BLOCK * b
        ensures At(ks, j) == NULLKEY
      {
        assert At(own, j / BLOCK) == First(ks, j / BLOCK);
      }
    } else {
      var p :| 0 <= p < b && At(own, p) != NULLKEY;
      assert At(own, p) == First(ks, p);
      var q := FirstFromSlot(ks, BLOCK * p, BLOCK * p + BLOCK);
    }
  }

  /** Nothing is stored, or some key is at most a block away before pos, or comes after it. */
  ghost predicate Near(ks: seq<int>, pos: nat) {
    (forall j :: At(ks, j) == NULLKEY) || exists q: nat :: At(ks, q) != NULLKEY && pos <= q + BLOCK
  }

  lemma {:induction false} SlotsNear(p: nat, q: nat, level: nat)
    requires p <= q + BLOCK
    ensures SlotAt(p, level) <= SlotAt(q, level) + 1
  {
    if level > 0 {
      SlotsNear(p, q, level - 1);
    }
  }

  /** A head lost by a write near to a key keeps the entry next to it: that is the one written. */
  lemma NearSlot(ks: seq<int>, vec: seq<GapVector>, top: nat, pos: nat)
    requires IndexOk(ks, vec, top) && Near(ks, pos) && LostHead(vec, top, pos)
    ensures SlotAt(pos, top + 1) == 1
  {
    if forall j :: At(ks, j) == NULLKEY {
      HeadThere(ks, vec, top);
    } else {
      var q: nat :| At(ks, q) != NULLKEY && pos <= q + BLOCK;
      HeadNotLost(ks, vec, top, q, q);
      SlotsNear(pos, q, top);
    }
  }

  /**
    What changing the slots from low to high does to an index of the keys ks: it stays sound, and it has all its heads
    exactly if nothing came before low's block, or if it had them all and high needed no level over an emptied one.
   */
  ghost predicate Noted(ks: seq<int>, vec: seq<GapVector>, top: nat, low: nat, high: nat, vec': seq<GapVector>)
    requires |vec| == top + 1
  {
    && (Tight(vec') <==> AllNull(ks, 0, low / BLOCK * BLOCK) || (Tight(vec) && !LostHead(vec, top, high)))
    && (Sound(vec) ==> Sound(vec'))
  }

  lemma WriteNoted(was: seq<int>, vec: seq<GapVector>, top: nat, pos: nat, now: seq<int>, vec': seq<GapVector>)
    requires IndexOk(was, vec, top) && Settled(now, vec, top, pos, vec')
    requires Near(was, pos) || !LostHead(vec, top, pos)
    ensures IndexOk(now, vec', |vec'| - 1) && Noted(was, vec, top, pos, pos, vec')
  {
    LeadIs(was, vec[0].slots, pos / BLOCK);
    hide Tight, Sound, UpperOk, Exact, AllNull, Near, Raises, Fits, HeadlessAt;
    if LostHead(vec, top, pos) {
      NearSlot(was, vec, top, pos);
    }
  }

  /**
    A shift to the left that has come to slot i: heads are only ever mended, and at the end of the gap's block all
    are.
   */
  ghost predicate LeftNoted(ks: seq<int>, left: nat, i: nat, vec0: seq<GapVector>, vec: seq<GapVector>) {
    && (Sound(vec0) ==> Sound(vec))
    && (Tight(vec0) ==> Tight(vec))
    && (Tight(vec) ==> Tight(vec0) || AllNull(ks, 0, left / BLOCK * BLOCK))
    && (AllNull(ks, 0, left / BLOCK * BLOCK) && i / BLOCK > left / BLOCK ==> Tight(vec))
  }

  lemma LeftLead(ks: seq<int>, left: nat, i: nat, index: nat)
    requires LeftRun(ks, left, index) && left <= i <= index
    ensures i < |ks|
    ensures AllNull(ShiftedLeft(ks, left, i), 0, i / BLOCK * BLOCK) <==>
              i / BLOCK == left / BLOCK && AllNull(ks, 0, left / BLOCK * BLOCK)
  {
    var was, b := ShiftedLeft(ks, left, i), i / BLOCK * BLOCK;
    if i / BLOCK == left / BLOCK {
      assert forall j :: 0 <= j < b ==> At(was, j) == At(ks, j);
    } else {
      assert At(was, b - 1) == ks[b] != NULLKEY;
    }
  }

  lemma LeftNotedOn(ks: seq<int>, left: nat, i: nat, index: nat,
                    vec0: seq<GapVector>, vec: seq<GapVector>, top: nat, vec': seq<GapVector>)
    requires LeftRun(ks, left, index) && left <= i < index && LeftNoted(ks, left, i, vec0, vec) && |vec| == top + 1
    requires if i % BLOCK != 0 && i % BLOCK != BLOCK - 1 then vec' == vec
             else !LostHead(vec, top, i) && Noted(ShiftedLeft(ks, left, i), vec, top, i, i, vec')
    ensures LeftNoted(ks, left, i + 1, vec0, vec')
  {
    LeftLead(ks, left, i, index);
    hide Tight, Sound, AllNull, LostHead, LeftRun;
  }

  lemma LeftNotedAgain(ks: seq<int>, left: nat, index: nat,
                       vec0: seq<GapVector>, vec: seq<GapVector>, top: nat, vec': seq<GapVector>)
    requires LeftRun(ks, left, index) && LeftNoted(ks, left, index, vec0, vec) && |vec| == top + 1
    requires !LostHead(vec, top, left) && Noted(ShiftedLeft(ks, left, index), vec, top, left, left, vec')
    ensures LeftNoted(ks, left, index, vec0, vec')
  {
    var was := ShiftedLeft(ks, left, index);
    assert forall j :: j < left ==> At(was, j) == At(ks, j);
  }

  lemma LeftNotedEnds(ks: seq<int>, left: nat, index: nat, vec0: seq<GapVector>, top0: nat,
                      vec: seq<GapVector>, top: nat, vec': seq<GapVector>)
    requires IndexOk(ks, vec0, top0) && LeftRun(ks, left, index) && LeftNoted(ks, left, index, vec0, vec)
    requires |vec| == top + 1 && !LostHead(vec, top, index)
    requires Noted(ShiftedLeft(ks, left, index), vec, top, index, index, vec')
    ensures Noted(ks, vec0, top0, left, index, vec')
  {
    LeftLead(ks, left, index, index);
    HeadNotLost(ks, vec0, top0, index, index);
  }

  /**
    A shift to the right that has come to slot i: after the first copy a head is missing if it was, or is lost by it.
   */
  ghost predicate RightNoted(right: nat, i: nat, vec0: seq<GapVector>, top0: nat, vec: seq<GapVector>, top: nat)
    requires |vec0| == top0 + 1
  {
    && (Sound(vec0) ==> Sound(vec))
    && if i == right then vec == vec0 && top == top0 else Tight(vec) <==> Tight(vec0) && !LostHead(vec0, top0, right)
  }

  /** What is known where a shift to the right copies a key to slot i. */
  lemma RightLead(ks: seq<int>, index: int, right: nat, i: nat, vec: seq<GapVector>, top: nat)
    requires RightRun(ks, index, right) && index + 2 <= i <= right
    requires IndexOk(ShiftedRight(ks, right, i), vec, top)
    ensures i % BLOCK == 0 ==> !AllNull(ShiftedRight(ks, right, i), 0, i / BLOCK * BLOCK)
    ensures Near(ShiftedRight(ks, right, i), i)
    ensures i < right || i % BLOCK != 0 ==> !LostHead(vec, top, i)
  {
    var was := ShiftedRight(ks, right, i);
    assert At(was, i - 1) == ks[i - 1] != NULLKEY;
    if i < right {
      assert At(was, right) == ks[right - 1] != NULLKEY;
      HeadNotLost(was, vec, top, i, right);
    } else if i % BLOCK != 0 {
      HeadNotLostInBlock(was, vec, top, i, i - 1);
    }
  }

  lemma RightNotedOn(ks: seq<int>, index: int, right: nat, i: nat, vec0: seq<GapVector>, top0: nat,
                     vec: seq<GapVector>, top: nat, vec': seq<GapVector>, top': nat)
    requires RightRun(ks, index, right) && index + 2 <= i <= right
    requires IndexOk(ShiftedRight(ks, right, i), vec, top)
    requires |vec0| == top0 + 1 && RightNoted(right, i, vec0, top0, vec, top)
    requires if i % BLOCK != 0 then vec' == vec && top' == top
             else Noted(ShiftedRight(ks, right, i), vec, top, i, i, vec')
    ensures RightNoted(right, i - 1, vec0, top0, vec', top')
  {
    RightLead(ks, index, right, i, vec, top);
    hide Tight, Sound, LostHead, IndexOk, RightRun, Near;
  }

  lemma RightNotedEnds(ks: seq<int>, index: int, right: nat, vec0: seq<GapVector>, top0: nat,
                       vec: seq<GapVector>, top: nat, vec': seq<GapVector>)
    requires RightRun(ks, index, right) && |vec0| == top0 + 1 && |vec| == top + 1
    requires RightNoted(right, index + 1, vec0, top0, vec, top)
    requires index + 1 < right ==> !LostHead(vec, top, index + 1)
    requires Noted(ShiftedRight(ks, right, index + 1), vec, top, index + 1, index + 1, vec')
    ensures Noted(ks, vec0, top0, index + 1, right, vec')
  {
    var was := ShiftedRight(ks, right, index + 1);
    assert forall j :: j <= index ==> At(was, j) == At(ks, j);
  }

  lemma StaysTight(ks: seq<int>, vec: seq<GapVector>, top: nat, pos: nat, vec': seq<GapVector>)
    requires |vec| == top + 1 && Noted(ks, vec, top, pos, pos, vec') && Tight(vec) && !LostHead(vec, top, pos)
    ensures Tight(vec')
  {
  }

  lemma GetsTight(ks: seq<int>, vec: seq<GapVector>, top: nat, pos: nat, vec': seq<GapVector>)
    requires |vec| == top + 1 && Noted(ks, vec, top, pos, pos, vec') && AllNull(ks, 0, pos)
    ensures Tight(vec')
  {
  }
}
