/** Facts about the keys and pairs of a sorted array with gaps: loads, placements, shifts and copies as values. */
module ArrayFacts {
  import opened Gapped
  import opened ProbeTable
  import opened BlockLevels
  import opened BlockClimb
  import opened BlockRepair
  import opened BlockSearch
  import opened Placement

  const GEO: int := 2

  /** The pairs held. Keys being distinct, this is a map from keys to values. */
  ghost function Stored(a: seq<Pair>): set<Pair> {
    set p | p in a && p.key != NULLKEY
  }

  ghost predicate Ordered(ks: seq<int>, elements: int, first: int, last: int) {
    && Sorted(ks)
    && elements == Used(ks) < |ks|
    && 0 <= first
    && forall i :: 0 <= i < |ks| && (i < first || i > last) ==> ks[i] == NULLKEY
  }

  /** The key that stands in for the one at index when its slot is emptied. */
  ghost function Successor(ks: seq<int>, index: nat): int
    requires index < |ks|
  {
    if index == |ks| - 1 then ks[index] else FirstFrom(ks, index + 1, index / BLOCK * BLOCK + BLOCK)
  }

  lemma SuccessorIs(ks: seq<int>, index: nat, pos: nat)
    requires index < |ks| && pos <= |ks|
    requires var start := if index + 1 >= |ks| then |ks| - 1 else index + 1;
             start <= pos && AllNull(ks, start, pos) && (pos < |ks| ==> ks[pos] != NULLKEY)
    requires ks[index] != NULLKEY
    ensures Successor(ks, index) == if pos >= |ks| || pos >= index / BLOCK * BLOCK + BLOCK then NULLKEY else ks[pos]
  {
    var end := index / BLOCK * BLOCK + BLOCK;
    assert At(ks, index) == ks[index];
    if index < |ks| - 1 {
      if pos < |ks| && pos < end {
        FirstFromIs(ks, index + 1, pos, end);
      } else {
        assert AllNull(ks, index + 1, end);
      }
    }
  }

  /** index is the last slot of all and nothing of its block comes before it. */
  predicate StaleEnd(ks: seq<int>, index: nat) {
    index == |ks| - 1 && AllNull(ks, index / BLOCK * BLOCK, index)
  }

  /** No other key has the same ancestor at level k. */
  predicate AloneUnder(ks: seq<int>, index: nat, k: nat) {
    forall q :: 0 <= q < |ks| && q != index && ks[q] != NULLKEY ==> SlotAt(q, k) != SlotAt(index, k)
  }

  /** The key at index is all that is left of the entry that makes up for some level's lost head. */
  predicate Widowed(ks: seq<int>, vec: seq<GapVector>, index: nat) {
    exists k :: 1 <= k < |vec| && HeadlessAt(vec, k) && SlotAt(index, k) == 1 && AloneUnder(ks, index, k)
  }

  /**
    What taking the key at index out does to an index of the keys ks. It describes the keys that are left exactly if no
    stale one stays behind; then it has all its heads if it had them or the key was the first, and it stays sound if
    and only if the key was not the last one under the entry next to a lost head.
   */
  ghost predicate Released(ks: seq<int>, vec: seq<GapVector>, index: nat, valid: bool, vec': seq<GapVector>) {
    && (valid <==> !StaleEnd(ks, index))
    && (valid ==> (Tight(vec') <==> Tight(vec) || AllNull(ks, 0, index)))
    && (valid && Sound(vec) ==> (Sound(vec') <==> !Widowed(ks, vec, index)))
  }

  /** Taking this key out leaves a stale key, or hides what is under a lost head. */
  predicate BreaksAt(ks: seq<int>, vec: seq<GapVector>, key: int) {
    exists i :: 0 <= i < |ks| && ks[i] == key && (StaleEnd(ks, i) || Widowed(ks, vec, i))
  }

  /** There is one slot at most where the key can be. */
  lemma OneBreaks(ks: seq<int>, vec: seq<GapVector>, index: int, key: int)
    requires Sorted(ks) && key > NULLKEY
    ensures 0 <= index < |ks| && ks[index] == key ==>
              (BreaksAt(ks, vec, key) <==> StaleEnd(ks, index) || Widowed(ks, vec, index))
    ensures key !in ks ==> !BreaksAt(ks, vec, key)
  {
    hide StaleEnd, Widowed;
  }

  /** So an index that was sound is broken exactly if the key taken out was one that breaks it. */
  lemma BrokenIff(ks: seq<int>, vec: seq<GapVector>, index: nat, key: int, valid: bool, vec': seq<GapVector>)
    requires Sorted(ks) && key > NULLKEY && index < |ks| && ks[index] == key && Sound(vec)
    requires Released(ks, vec, index, valid, vec')
    ensures valid && Sound(vec') <==> !BreaksAt(ks, vec, key)
  {
    hide Sound, Tight, StaleEnd, Widowed, AllNull, Sorted;
    OneBreaks(ks, vec, index, key);
  }

  lemma NothingAfter(ks: seq<int>, lo: int, hi: int)
    ensures lo >= |ks| ==> FirstFrom(ks, lo, hi) == NULLKEY
  {
  }

  lemma {:induction false} SkipNulls(s: seq<int>, lo: int, mid: int, hi: int)
    requires lo <= mid <= hi && AllNull(s, lo, mid)
    ensures FirstFrom(s, lo, hi) == FirstFrom(s, mid, hi)
    decreases mid - lo
  {
    if lo < mid {
      assert At(s, lo) == NULLKEY;
      SkipNulls(s, lo + 1, mid, hi);
    }
  }

  lemma LeaderLeaves(ks: seq<int>, index: nat, lo: nat)
    requires index < |ks| && ks[index] != NULLKEY && lo <= index < lo + BLOCK && AllNull(ks, lo, index)
    ensures FirstFrom(ks, lo, lo + BLOCK) == ks[index]
    ensures FirstFrom(ks[index := NULLKEY], lo, lo + BLOCK) == FirstFrom(ks, index + 1, lo + BLOCK)
    ensures index == |ks| - 1 ==> FirstFrom(ks, index + 1, lo + BLOCK) == NULLKEY
  {
    var now := ks[index := NULLKEY];
    FirstFromIs(ks, lo, index, lo + BLOCK);
    assert forall j :: j != index ==> At(now, j) == At(ks, j);
    assert At(now, index) == NULLKEY;
    SkipNulls(now, lo, index + 1, lo + BLOCK);
    FirstFromSame(now, ks, index + 1, lo + BLOCK);
    NothingAfter(ks, index + 1, lo + BLOCK);
  }

  lemma LeaderStays(ks: seq<int>, index: nat, lo: nat)
    requires Sorted(ks) && index < |ks| && ks[index] != NULLKEY && lo <= index < lo + BLOCK && !AllNull(ks, lo, index)
    ensures FirstFrom(ks, lo, lo + BLOCK) == FirstFrom(ks[index := NULLKEY], lo, lo + BLOCK) < ks[index]
  {
    var q := LeaderKept(ks, index, NULLKEY, lo, lo + BLOCK);
    assert At(ks, q) == ks[q] < ks[index];
  }

  /** What the first key of a block is before and after one of its slots is emptied. */
  lemma VacatedFirst(ks: seq<int>, index: nat)
    requires Sorted(ks) && index < |ks| && ks[index] != NULLKEY
    ensures var now := ks[index := NULLKEY]; var b := index / BLOCK;
            if AllNull(ks, b * BLOCK, index)
            then First(ks, b) == ks[index]
              && First(now, b) == if index == |ks| - 1 then NULLKEY else Successor(ks, index)
            else First(ks, b) == First(now, b) < ks[index]
  {
    var lo := index / BLOCK * BLOCK;
    if AllNull(ks, lo, index) {
      LeaderLeaves(ks, index, lo);
    } else {
      LeaderStays(ks, index, lo);
    }
  }

  /** The stand-in given for the last slot is its own key: the bottom level goes on describing the old keys. */
  lemma StaleStays(ks: seq<int>, index: nat, own: seq<int>, own': seq<int>)
    requires Sorted(ks) && index < |ks| && ks[index] != NULLKEY && Exact(ks, own)
    requires forall j :: At(own', j) ==
               if j == index / BLOCK && ks[index] <= At(own, index / BLOCK) then Successor(ks, index) else At(own, j)
    ensures StaleEnd(ks, index) ==> Exact(ks, own') && StaleView(ks[index := NULLKEY], ks)
  {
    if StaleEnd(ks, index) {
      var now := ks[index := NULLKEY];
      assert forall j :: j != index ==> At(now, j) == At(ks, j);
      assert At(own, index / BLOCK) == First(ks, index / BLOCK);
      VacatedFirst(ks, index);
      assert now[index := ks[index]] == ks;
    }
  }

  /** The key is the first of all exactly if its block's entry is not below it and no block before has one. */
  lemma LeastLeads(ks: seq<int>, index: nat, own: seq<int>)
    requires Sorted(ks) && index < |ks| && ks[index] != NULLKEY && Exact(ks, own)
    ensures ks[index] <= At(own, index / BLOCK) && AllNull(own, 0, index / BLOCK) <==> AllNull(ks, 0, index)
  {
    LeadIs(ks, own, index / BLOCK);
    assert At(own, index / BLOCK) == First(ks, index / BLOCK);
    VacatedFirst(ks, index);
  }

  lemma {:induction false} SlotOfBlock(index: nat, k: nat)
    ensures SlotAt(InBlock(index / BLOCK), k) == SlotAt(index, k)
  {
    if k > 0 {
      SlotOfBlock(index, k - 1);
    }
  }

  lemma NobodyLeft(ks: seq<int>, index: nat, vec': seq<GapVector>, top: nat, k: nat)
    requires index < |ks| && IndexOk(ks[index := NULLKEY], vec', top) && k <= top
    requires AloneUnder(ks, index, k)
    ensures At(vec'[k].slots, SlotAt(index, k)) == NULLKEY
  {
    if At(vec'[k].slots, SlotAt(index, k)) != NULLKEY {
      var q := KeyBelow(ks[index := NULLKEY], vec', top, k, SlotAt(index, k));
    }
  }

  lemma SomebodyLeft(ks: seq<int>, index: nat, vec: seq<GapVector>, top: nat, k: nat, vec': seq<GapVector>)
    requires Sorted(ks) && index < |ks| && ks[index] != NULLKEY && 1 <= k <= top
    requires IndexOk(ks, vec, top) && IndexOk(ks[index := NULLKEY], vec', top)
    requires HeadlessAt(vec, k) && At(vec[k].slots, 1) != NULLKEY && !Widowed(ks, vec, index)
    ensures At(vec'[k].slots, 1) != NULLKEY
  {
    var q := KeyBelow(ks, vec, top, k, 1);
    if q == index {
      q :| 0 <= q < |ks| && q != index && ks[q] != NULLKEY && SlotAt(q, k) == SlotAt(index, k);
    }
    assert At(ks[index := NULLKEY], q) == ks[q];
    EntryAbove(ks[index := NULLKEY], vec', top, k, q);
  }

  lemma SoundReleased(ks: seq<int>, index: nat, vec: seq<GapVector>, top: nat, vec': seq<GapVector>)
    requires Sorted(ks) && index < |ks| && ks[index] != NULLKEY
    requires IndexOk(ks, vec, top) && IndexOk(ks[index := NULLKEY], vec', top)
    requires HeadsAfterDelete(vec, vec', InBlock(index / BLOCK)) && Sound(vec)
    ensures Sound(vec') <==> !Widowed(ks, vec, index)
  {
    if Widowed(ks, vec, index) {
      var k :| 1 <= k < |vec| && HeadlessAt(vec, k) && SlotAt(index, k) == 1 && AloneUnder(ks, index, k);
      SlotOfBlock(index, k);
      NobodyLeft(ks, index, vec', top, k);
    } else {
      forall k | 1 <= k < |vec'| && HeadlessAt(vec', k)
        ensures At(vec'[k].slots, 1) != NULLKEY
      {
        SomebodyLeft(ks, index, vec, top, k, vec');
      }
    }
  }

  /** Giving the block the emptied slot's stand-in keeps the bottom level exact, but for the last slot of all. */
  lemma IndexVacated(ks: seq<int>, index: nat, own: seq<int>, own': seq<int>)
    requires Sorted(ks) && index < |ks| && ks[index] != NULLKEY && Exact(ks, own)
    requires forall j :: At(own', j) ==
               if j == index / BLOCK && ks[index] <= At(own, index / BLOCK) then Successor(ks, index) else At(own, j)
    ensures Exact(ks[index := NULLKEY], own') <==> !StaleEnd(ks, index)
  {
    var now, b := ks[index := NULLKEY], index / BLOCK;
    assert forall j :: j != index ==> At(now, j) == At(ks, j);
    OtherBlocksSame(ks, now, index);
    assert At(own, b) == First(ks, b);
    VacatedFirst(ks, index);
    if StaleEnd(ks, index) {
      assert At(own', b) != First(now, b);
    } else {
      assert At(own', b) == First(now, b);
    }
  }

  lemma IndexReleased(ks: seq<int>, index: nat, vec: seq<GapVector>, top: nat, vec': seq<GapVector>)
    requires Sorted(ks) && index < |ks| && ks[index] != NULLKEY && IndexOk(ks, vec, top) && UpperOk(vec', top)
    requires forall j :: At(vec'[0].slots, j) ==
               if j == index / BLOCK && ks[index] <= At(vec[0].slots, index / BLOCK) then Successor(ks, index)
               else At(vec[0].slots, j)
    requires HeadsAfterDelete(vec, vec', InBlock(index / BLOCK))
    requires Tight(vec') <==> Tight(vec) || (ks[index] <= At(vec[0].slots, index / BLOCK)
                                             && AllNull(vec[0].slots, 0, index / BLOCK))
    ensures Released(ks, vec, index, IndexOk(ks[index := NULLKEY], vec', top), vec')
    ensures StaleEnd(ks, index) ==> IndexOk(ks, vec', top) && StaleView(ks[index := NULLKEY], ks)
  {
    StaleStays(ks, index, vec[0].slots, vec'[0].slots);
    IndexVacated(ks, index, vec[0].slots, vec'[0].slots);
    LeastLeads(ks, index, vec[0].slots);
    hide Sorted, UpperOk, Exact, StaleEnd, Widowed, AllNull, HeadsAfterDelete, Tight, Sound, StaleView;
    if IndexOk(ks[index := NULLKEY], vec', top) && Sound(vec) {
      SoundReleased(ks, index, vec, top, vec');
    }
  }

  /** The load below which an array is halved. */
  predicate SmallLoad(elements: int, arrlen: int) {
    arrlen >= 64 && 100 * elements / arrlen < 15
  }

  lemma LoadTest(elements: int, arrlen: int)
    ensures SmallLoad(elements, arrlen) <==> arrlen >= 64 && 100 * elements / arrlen < 15
  {
  }

  lemma StoredVacated(a: seq<Pair>, index: nat)
    requires Sorted(Keys(a)) && index < |a| && a[index].key != NULLKEY
    ensures Stored(a[index := NULLVALUE]) == set q | q in Stored(a) && q.key != a[index].key
  {
    var b := a[index := NULLVALUE];
    forall q | q in Stored(a) && q.key != a[index].key
      ensures q in b
    {
      var j :| 0 <= j < |a| && a[j] == q;
      assert b[j] == q;
    }
    forall q | q in Stored(b)
      ensures q in Stored(a) && q.key != a[index].key
    {
      var j :| 0 <= j < |b| && b[j] == q;
      assert Keys(a)[j] == a[j].key && Keys(a)[index] == a[index].key;
    }
  }

  datatype Option = None | Some(value: Pair)

  /** r is the pair of s with the greatest key not above k. */
  ghost predicate Floor(s: set<Pair>, k: int, r: Option) {
    match r
    case None => forall q :: q in s ==> q.key > k
    case Some(p) => p in s && p.key <= k && forall q :: q in s && q.key <= k ==> q.key <= p.key
  }

  /** r is the pair of s with the least key not below k. */
  ghost predicate Ceiling(s: set<Pair>, k: int, r: Option) {
    match r
    case None => forall q :: q in s ==> q.key < k
    case Some(p) => p in s && p.key >= k && forall q :: q in s && q.key >= k ==> q.key >= p.key
  }

  lemma LocatedSides(ks: seq<int>, key: int, rc: bool, idx: int)
    requires Sorted(ks) && Located(ks, key, rc, idx) && key != NULLKEY
    ensures -1 <= idx < |ks|
    ensures rc <==> idx >= 0 && ks[idx] == key
    ensures forall j :: 0 <= j < idx && ks[j] != NULLKEY ==> ks[j] < key && (ks[idx] != NULLKEY ==> ks[j] < ks[idx])
    ensures idx >= 0 && ks[idx] != NULLKEY ==> ks[idx] <= key
    ensures idx >= 0 && ks[idx] == NULLKEY ==> forall j :: 0 <= j < idx ==> ks[j] == NULLKEY
    ensures forall j :: idx < j < |ks| && ks[j] != NULLKEY ==> ks[j] > key
  {
    assert forall j :: 0 <= j < |ks| ==> At(ks, j) == ks[j];
    assert idx + 1 < |ks| ==> At(ks, idx + 1) == ks[idx + 1];
  }

  lemma LocatedFloor(a: seq<Pair>, key: int, rc: bool, idx: int)
    requires Sorted(Keys(a)) && Located(Keys(a), key, rc, idx) && key != NULLKEY
    ensures -1 <= idx < |a|
    ensures rc ==> 0 <= idx && a[idx].key == key != NULLKEY
    ensures idx < 0 || a[idx].key == NULLKEY ==> Floor(Stored(a), key, None) && Floor(Stored(a), key - 1, None)
    ensures idx >= 0 && a[idx].key != NULLKEY ==>
              Floor(Stored(a), key, Some(a[idx])) && (!rc ==> Floor(Stored(a), key - 1, Some(a[idx])))
  {
    var ks := Keys(a);
    LocatedSides(ks, key, rc, idx);
    forall q | q in Stored(a)
      ensures q.key > key || (idx >= 0 && ks[idx] != NULLKEY && q.key <= ks[idx])
    {
      var j :| 0 <= j < |a| && a[j] == q;
      assert ks[j] == q.key;
    }
    if idx >= 0 {
      assert ks[idx] == a[idx].key;
    }
  }

  lemma FloorBefore(a: seq<Pair>, key: int, pos: nat, idx: int)
    requires Sorted(Keys(a)) && pos < |a| && a[pos].key == key != NULLKEY
    requires -1 <= idx < pos && AllNull(Keys(a), idx + 1, pos) && (idx >= 0 ==> a[idx].key != NULLKEY)
    ensures Floor(Stored(a), key - 1, if idx < 0 then None else Some(a[idx]))
  {
    var ks := Keys(a);
    assert forall j :: 0 <= j < |ks| ==> At(ks, j) == ks[j];
    assert ks[pos] == key;
    forall q | q in Stored(a) && q.key <= key - 1
      ensures idx >= 0 && q.key <= a[idx].key
    {
      var j :| 0 <= j < |a| && a[j] == q;
      assert ks[j] == q.key == At(ks, j);
      assert j < pos;
      assert idx >= 0 ==> ks[idx] == a[idx].key;
    }
    if idx >= 0 {
      assert ks[idx] == a[idx].key;
    }
  }

  lemma LocatedCeiling(a: seq<Pair>, key: int, rc: bool, pos: int, idx: nat)
    requires Sorted(Keys(a)) && Located(Keys(a), key, rc, pos) && key != NULLKEY
    requires pos + 1 <= idx <= |a| && AllNull(Keys(a), pos + 1, idx) && (idx < |a| ==> a[idx].key != NULLKEY)
    ensures Ceiling(Stored(a), key + 1, if idx == |a| then None else Some(a[idx]))
  {
    var ks := Keys(a);
    LocatedSides(ks, key, rc, pos);
    forall q | q in Stored(a) && q.key >= key + 1
      ensures idx < |a| && q.key >= a[idx].key
    {
      var j :| 0 <= j < |a| && a[j] == q;
      assert ks[j] == q.key == At(ks, j);
      assert idx < |a| ==> ks[idx] == a[idx].key;
    }
    if idx < |a| {
      assert ks[idx] == a[idx].key;
    }
  }

  lemma NothingStored(h: HashKey, ks: seq<int>, table: seq<int>)
    requires |ks| == |table| > 0
    requires forall i :: 0 <= i < |ks| ==> ks[i] == NULLKEY && table[i] == EMPTY
    ensures Used(ks) == 0 && TableOk(h, ks, table) && IndexOk(ks, [NewVector()], 0) && Tight([NewVector()])
  {
    UsedNone(ks);
    UsedNone(table);
    assert forall j :: At(ks, j) == NULLKEY;
    assert forall j :: At(NewVector().slots, j) == NULLKEY;
  }

  /** Such a window does not start after the array. */
  lemma WindowInArray(ks: seq<int>, k: int, first0: nat, last0: int)
    requires Covers(ks, k, first0, last0) || Missed(ks, k, first0, last0) || Emptied(ks, first0, last0)
    requires Used(ks) >= 1 && last0 < |ks|
    ensures first0 < |ks|
    ensures AllNull(ks, first0, |ks|) <==> Emptied(ks, first0, last0)
    ensures !Covers(ks, k, first0, last0) || !Missed(ks, k, first0, last0)
  {
    UsedNone(ks);
    var j :| 0 <= j < |ks| && At(ks, j) != NULLKEY;
  }

  lemma EmptiedNowhere(ks: seq<int>, k: int, first: int, last: int)
    requires Emptied(ks, first, last) && last < |ks|
    ensures !Located(ks, k, false, |ks| - 1)
    ensures !Covers(ks, k, first, last) && !Missed(ks, k, first, last)
  {
    assert At(ks, |ks| - 1) == NULLKEY;
  }

  /** A single key is never missed. */
  lemma OneNotMissed(ks: seq<int>, k: int, first0: nat, last0: int, low: nat)
    requires forall j :: j != low ==> At(ks, j) == NULLKEY
    ensures !Missed(ks, k, first0, last0)
  {
  }

  lemma OnlyKey(ks: seq<int>, low: nat)
    requires Used(ks) == 1 && low < |ks| && ks[low] != NULLKEY
    ensures forall j :: j != low ==> At(ks, j) == NULLKEY
  {
    UsedUpdate(ks, low, NULLKEY);
    var t := ks[low := NULLKEY];
    UsedNone(t);
    forall j | j != low
      ensures At(ks, j) == NULLKEY
    {
      assert 0 <= j < |ks| ==> At(t, j) == NULLKEY;
    }
  }

  /** With one key stored a window holds it or is left empty. */
  lemma OneKeyWindow(ks: seq<int>, k: int, first0: nat, last0: int, low: nat)
    requires Covers(ks, k, first0, last0) || Missed(ks, k, first0, last0) || Emptied(ks, first0, last0)
    requires Used(ks) == 1 && first0 <= low < |ks| && last0 < |ks|
    requires if AllNull(ks, first0, |ks|) then low == |ks| - 1 else AllNull(ks, first0, low) && ks[low] != NULLKEY
    ensures !Missed(ks, k, first0, last0)
    ensures Covers(ks, k, first0, last0) ==> ks[low] != NULLKEY && forall j :: j != low ==> At(ks, j) == NULLKEY
    ensures !Covers(ks, k, first0, last0) ==> ks[low] == NULLKEY && !Located(ks, k, false, |ks| - 1)
  {
    WindowInArray(ks, k, first0, last0);
    if ks[low] != NULLKEY {
      OnlyKey(ks, low);
    }
    if Emptied(ks, first0, last0) {
      assert At(ks, |ks| - 1) == NULLKEY;
      EmptiedNowhere(ks, k, first0, last0);
    } else {
      OneNotMissed(ks, k, first0, last0, low);
    }
  }

  lemma ViewUsed(ks: seq<int>, view: seq<int>)
    requires (view == ks || StaleView(ks, view)) && Used(ks) >= 1
    ensures !AllNull(view, 0, |view|) && !AllNull(ks, 0, |ks|)
  {
    UsedNone(ks);
    var j :| 0 <= j < |ks| && At(ks, j) != NULLKEY;
    assert At(view, j) == At(ks, j);
  }

  /** Cutting a window to the array changes nothing. */
  lemma WindowCut(s: seq<int>, k: int, low: nat, last: int, high: int)
    requires low <= last && high == (if last > |s| - 1 then |s| - 1 else last)
    ensures Covers(s, k, low, high) <==> Covers(s, k, low, last)
    ensures Missed(s, k, low, last) ==> Missed(s, k, low, high)
  {
    if Missed(s, k, low, last) {
      var j :| j > last && At(s, j) != NULLKEY;
    }
    if Covers(s, k, low, last) && !AllNull(s, 0, low) {
      var j :| low <= j <= last && At(s, j) != NULLKEY && At(s, j) <= k;
      assert j <= high;
    }
  }

  /** What a window found for the view is for the keys. */
  lemma WindowSeen(ks: seq<int>, view: seq<int>, vec: seq<GapVector>, top: nat, k: int, low: nat, high: int)
    requires IndexOk(view, vec, top) && (view == ks || StaleView(ks, view)) && !AllNull(ks, 0, |ks|)
    requires low % BLOCK == 0 && 0 <= high == (if low + BLOCK - 1 > |ks| - 1 then |ks| - 1 else low + BLOCK - 1)
    requires Covers(view, k, low, low + BLOCK - 1) <==> !Strays(view, vec, top, k)
    requires Strays(view, vec, top, k) ==> Missed(view, k, low, low + BLOCK - 1)
    ensures Covers(ks, k, low, high) <==> !Strays(view, vec, top, k) && (view == ks || k < view[|view| - 1])
    ensures Covers(ks, k, low, high) || Missed(ks, k, low, high) || Emptied(ks, low, high)
  {
    assert |view| == |ks|;
    WindowCut(view, k, low, low + BLOCK - 1, high);
    if Strays(view, vec, top, k) {
      StraysFrontEmpty(view, vec, top, k);
    }
    MissedOrCovers(view, k, low, high);
    MissedOrCovers(ks, k, low, high);
    if view != ks {
      WindowOfView(ks, view, k, low, high);
      if Emptied(ks, low, high) {
        EmptiedNowhere(ks, k, low, high);
      }
    }
  }

  /** A stored key is below the stale one. */
  lemma StaleIsGreatest(ks: seq<int>, view: seq<int>, k: int)
    requires view == ks || StaleView(ks, view)
    ensures k in ks && k != NULLKEY && view != ks ==> k < view[|view| - 1]
  {
    if k in ks && k != NULLKEY && view != ks {
      var j :| 0 <= j < |ks| && ks[j] == k;
      assert At(ks, |ks| - 1) == NULLKEY && view[j] == ks[j];
    }
  }

  /** Where a search locates a key tells whether it is stored. */
  lemma NotAmong(ks: seq<int>, key: int, found: bool, p: int)
    requires Located(ks, key, found, p) && Sorted(ks) && key != NULLKEY
    ensures found <==> key in ks
    ensures found ==> 0 <= p < |ks| && ks[p] == key
  {
    forall s | 0 <= s < |ks| && !found
      ensures ks[s] != key
    {
      assert At(ks, s) == ks[s];
    }
  }

  /** An empty home cell means the key is not stored. */
  lemma HomeEmpty(h: HashKey, ks: seq<int>, table: seq<int>, key: int)
    requires TableOk(h, ks, table) && InRange(h) && key != NULLKEY && table[h(key, |table|)] == EMPTY
    ensures key !in ks
  {
    forall s | 0 <= s < |ks|
      ensures ks[s] != key
    {
      if ks[s] != NULLKEY {
        HomeUsed(h, ks, table, s);
      }
    }
  }

  /** The pairs of src have been copied in order to dst, the last one to lastPos; the first one is at the start. */
  ghost predicate Copied(src: seq<Pair>, dst: seq<Pair>, lastPos: int) {
    var ks, ks' := Keys(src), Keys(dst);
    && Sorted(ks') && Used(ks') == Used(ks) && Stored(dst) == Stored(src)
    && -1 <= lastPos < |dst|
    && (forall j :: lastPos < j < |dst| ==> ks'[j] == NULLKEY)
    && (lastPos >= 0 ==> ks'[0] != NULLKEY && dst[lastPos] in src && ks'[lastPos] != NULLKEY)
  }

  lemma StoredAppend(src: seq<Pair>, p: Pair)
    ensures Stored(src + [p]) == Stored(src) + if p.key == NULLKEY then {} else {p}
  {
  }

  lemma CopiedSkip(src: seq<Pair>, p: Pair, dst: seq<Pair>, lastPos: int)
    requires Copied(src, dst, lastPos) && p.key == NULLKEY
    ensures Copied(src + [p], dst, lastPos)
  {
    var t := Keys(src + [p]);
    assert t[..|src|] == Keys(src);
    StoredAppend(src, p);
  }

  lemma StoredPlaced(a: seq<Pair>, pos: nat, p: Pair)
    requires pos < |a| && a[pos].key == NULLKEY && p.key != NULLKEY
    ensures Stored(a[pos := p]) == Stored(a) + {p}
  {
    var b := a[pos := p];
    forall q | q in Stored(a)
      ensures q in b
    {
      var j :| 0 <= j < |a| && a[j] == q;
      assert b[j] == q;
    }
    assert b[pos] == p;
  }

  /** The next pair of a sorted array fits after all that have been copied. */
  lemma CopiedOne(src: seq<Pair>, p: Pair, dst: seq<Pair>, lastPos: int, pos: nat, all: seq<int>)
    requires Copied(src, dst, lastPos) && p.key != NULLKEY && lastPos < pos < |dst| && (lastPos < 0 ==> pos == 0)
    requires Sorted(all) && |src| < |all| && all[|src|] == p.key && forall j :: 0 <= j < |src| ==> all[j] == src[j].key
    ensures Copied(src + [p], dst[pos := p], pos)
    ensures Keys(dst)[pos := p.key] == Keys(dst[pos := p]) && Sorted(Keys(dst[pos := p]))
    ensures Keys(dst)[pos] == NULLKEY && (lastPos >= 0 ==> At(Keys(dst), 0) != NULLKEY)
    ensures lastPos < 0 ==> forall j :: At(Keys(dst), j) == NULLKEY
  {
    var t, ks' := Keys(src + [p]), Keys(dst);
    assert t[..|src|] == Keys(src);
    StoredAppend(src, p);
    assert dst[pos].key == ks'[pos] == NULLKEY;
    StoredPlaced(dst, pos, p);
    UsedUpdate(ks', pos, p.key);
    assert ks'[pos := p.key] == Keys(dst[pos := p]);
    if lastPos >= 0 {
      var j :| 0 <= j < |src| && src[j] == dst[lastPos];
      assert all[j] == ks'[lastPos] < p.key;
    }
    PlaceSorted(ks', pos, p.key);
    assert (src + [p])[|src|] == p;
  }

  /** The load from which an array is doubled. */
  ghost predicate HighLoad(elements: int, arrlen: int) {
    10 * GEO * elements >= 8 * arrlen
  }

  lemma RoomLeft(elements: int, arrlen: int)
    requires arrlen >= 2 && 0 <= elements < arrlen
    ensures HighLoad(elements, arrlen) ==> elements >= 1 && elements + 1 < GEO * arrlen
    ensures !HighLoad(elements, arrlen) ==> elements + 1 < arrlen
  {
  }

  lemma MulMonotone(a: nat, b: nat, c: nat)
    requires a <= b
    ensures a * c <= b * c
  {
  }

  lemma SmallLoadMeans(n: nat, length: nat)
    requires SmallLoad(n, length)
    ensures 100 * n < 15 * length
  {
    var q := 100 * n / length;
    MulMonotone(q, 14, length);
    assert 100 * n == q * length + 100 * n % length;
  }

  /** An array grows once two fifths of it are used, and shrinks from 64 slots on below three twentieths. */
  lemma Thresholds(elements: nat, arrlen: nat)
    ensures HighLoad(elements, arrlen) <==> 5 * elements >= 2 * arrlen
    ensures SmallLoad(elements, arrlen) <==> arrlen >= 64 && 20 * elements < 3 * arrlen
  {
    if arrlen >= 64 {
      if 20 * elements < 3 * arrlen {
        var q := 100 * elements / arrlen;
        assert q >= 15 ==> q * arrlen >= 15 * arrlen by {
          if q >= 15 {
            MulMonotone(15, q, arrlen);
          }
        }
      } else if SmallLoad(elements, arrlen) {
        SmallLoadMeans(elements, arrlen);
      }
    }
  }

  /** After a grow, at least a tenth of the old length must be removed before the array shrinks. */
  lemma GrowThenShrink(elements: nat, arrlen: nat, removed: nat)
    requires HighLoad(elements, arrlen) && removed <= elements + 1 && SmallLoad(elements + 1 - removed, GEO * arrlen)
    ensures 10 * removed > arrlen
  {
    SmallLoadMeans(elements + 1 - removed, GEO * arrlen);
  }

  /** After a shrink, about a twentieth of the old length must be inserted before the array grows. */
  lemma ShrinkThenGrow(elements: nat, arrlen: nat, inserted: nat)
    requires SmallLoad(elements, arrlen) && HighLoad(elements + inserted, arrlen / GEO)
    ensures 20 * inserted > arrlen - 4
  {
    SmallLoadMeans(elements, arrlen);
  }

  lemma OnlyPair(a: seq<Pair>, p: Pair)
    requires |a| == 2 && a[1] == p && Sorted(Keys(a)) && Stored(a) == {p}
    ensures Keys(a)[0] == NULLKEY && Keys(a)[1] == p.key
  {
    assert a[0] in a;
    assert a[0] in Stored(a) <==> a[0].key != NULLKEY;
    assert Keys(a)[0] == a[0].key && Keys(a)[1] == p.key;
  }

  /** Which keys are stored shows in the pairs. */
  lemma KeysOfStored(a: seq<Pair>, k: int)
    requires k != NULLKEY
    ensures k in Keys(a) <==> exists p :: p in Stored(a) && p.key == k
  {
    if k in Keys(a) {
      var j :| 0 <= j < |a| && Keys(a)[j] == k;
      assert a[j] in Stored(a);
    }
    if p :| p in Stored(a) && p.key == k {
      var j :| 0 <= j < |a| && a[j] == p;
      assert Keys(a)[j] == k;
    }
  }

  lemma OtherKeys(a: seq<Pair>, k: int)
    requires k != NULLKEY
    ensures k !in Keys(a) ==> (set q | q in Stored(a) && q.key != k) == Stored(a)
  {
    KeysOfStored(a, k);
  }

  /** In an empty array any slot will do. */
  lemma EmptyPlace(ks: seq<int>, k: int, idx: nat)
    requires Used(ks) == 0 && idx < |ks|
    ensures ks[idx] == NULLKEY && Sorted(ks[idx := k]) && Located(ks, k, false, -1) && Near(ks, idx)
    ensures forall i :: 0 <= i < |ks| && (i < idx || i > idx) ==> ks[i] == NULLKEY
  {
    UsedNone(ks);
    assert forall j :: 0 <= j < |ks| ==> At(ks, j) == ks[j];
  }

  /** The pairs of src have been copied in order to the end of dst, the first one to low. */
  ghost predicate CopiedBack(src: seq<Pair>, dst: seq<Pair>, low: int) {
    var ks, ks' := Keys(src), Keys(dst);
    && Sorted(ks') && Used(ks') == Used(ks) && Stored(dst) == Stored(src)
    && 0 <= low <= |dst|
    && (forall j :: 0 <= j < low ==> ks'[j] == NULLKEY)
    && (low < |dst| ==> dst[low] in src && ks'[low] != NULLKEY && ks'[|dst| - 1] != NULLKEY)
  }

  lemma BackIndexed(was: seq<int>, vec: seq<GapVector>, top: nat, pos: nat, key: int, low: int)
    requires IndexOk(was, vec, top) && pos < |was| && was[pos] == NULLKEY && key != NULLKEY && Sorted(was[pos := key])
             && low <= |was|
    requires low < |was| ==> At(was, |was| - 1) != NULLKEY
    requires low == |was| ==> forall j :: At(was, j) == NULLKEY
    ensures Shaped(vec, top) && AwaitsWrite(was[pos := key], vec[0].slots, pos / BLOCK, key, false)
            && !LostHead(vec, top, pos)
  {
    SortedIsNonDecreasing(was[pos := key]);
    OverwriteIndexed(was, vec[0].slots, pos, key, was[pos := key]);
    if low == |was| {
      HeadThere(was, vec, top);
    } else {
      HeadNotLost(was, vec, top, pos, |was| - 1);
    }
  }

  lemma KeysPrepend(src: seq<Pair>, p: Pair)
    ensures Keys([p] + src) == [p.key] + Keys(src) && Used(Keys([p] + src)) == One(p.key) + Used(Keys(src))
    ensures Stored([p] + src) == Stored(src) + if p.key == NULLKEY then {} else {p}
  {
    assert Keys([p] + src) == [p.key] + Keys(src);
    UsedSplit([p.key], Keys(src));
    assert [p.key][..0] == [];
  }

  lemma CopiedBackSkip(src: seq<Pair>, p: Pair, dst: seq<Pair>, low: int)
    requires CopiedBack(src, dst, low) && p.key == NULLKEY
    ensures CopiedBack([p] + src, dst, low)
  {
    KeysPrepend(src, p);
  }

  /** The next pair of a sorted array, going down, fits before all that have been copied. */
  lemma CopiedBackOne(src: seq<Pair>, p: Pair, dst: seq<Pair>, low: int, pos: nat, all: seq<int>, i: nat)
    requires CopiedBack(src, dst, low) && p.key != NULLKEY && pos < low && (low == |dst| ==> pos == low - 1)
    requires Sorted(all) && i + 1 + |src| == |all| && all[i] == p.key && forall j :: 0 <= j < |src| ==>
               all[i + 1 + j] == src[j].key
    ensures CopiedBack([p] + src, dst[pos := p], pos)
    ensures Keys(dst)[pos := p.key] == Keys(dst[pos := p]) && Sorted(Keys(dst[pos := p]))
    ensures Keys(dst)[pos] == NULLKEY && (low < |dst| ==> At(Keys(dst), |dst| - 1) != NULLKEY)
    ensures AllNull(Keys(dst), 0, pos)
    ensures low == |dst| ==> forall j :: At(Keys(dst), j) == NULLKEY
  {
    var ks' := Keys(dst);
    KeysPrepend(src, p);
    assert dst[pos].key == ks'[pos] == NULLKEY;
    StoredPlaced(dst, pos, p);
    UsedUpdate(ks', pos, p.key);
    assert ks'[pos := p.key] == Keys(dst[pos := p]);
    if low < |dst| {
      var j :| 0 <= j < |src| && src[j] == dst[low];
      assert all[i + 1 + j] == ks'[low] > p.key;
    }
    PlaceSorted(ks', pos, p.key);
    assert ([p] + src)[0] == p;
  }

  /** Where the next pair goes when the array is being halved and the pairs from slot i on have been copied. */
  ghost predicate Backed(ks: seq<int>, i: nat, pos: int, low: int) {
    && i <= |ks|
    && pos == |ks| / GEO - 1 - 3 * Used(ks[i..])
    && low == (if Used(ks[i..]) == 0 then |ks| / GEO else pos + 3)
  }

  lemma UsedSuffix(ks: seq<int>, i: nat)
    requires i <= |ks|
    ensures Used(ks[i..]) <= Used(ks)
  {
    hide Used;
    UsedSplit(ks[..i], ks[i..]);
    assert ks == ks[..i] + ks[i..];
  }

  lemma UsedOne(k: int)
    ensures Used([k]) == One(k)
  {
    assert [k][..0] == [];
  }

  lemma UsedFrom(ks: seq<int>, i: nat)
    requires i < |ks|
    ensures Used(ks[i..]) == One(ks[i]) + Used(ks[i + 1..]) <= Used(ks)
  {
    hide Used, One;
    UsedSuffix(ks, i);
    UsedOne(ks[i]);
    var head, tail := [ks[i]], ks[i + 1..];
    UsedSplit(head, tail);
    assert ks[i..] == head + tail;
  }

  lemma LoadFits(elements: nat, arrlen: nat)
    requires SmallLoad(elements, arrlen)
    ensures 3 * elements <= arrlen / GEO && elements < arrlen / GEO
  {
    SmallLoadMeans(elements, arrlen);
  }

  lemma BackedOn(ks: seq<int>, i: nat, pos: int, low: int, elements: int)
    requires i < |ks| && Backed(ks, i + 1, pos, low) && elements == Used(ks) && SmallLoad(elements, |ks|)
    ensures ks[i] == NULLKEY ==> Backed(ks, i, pos, low)
    ensures ks[i] != NULLKEY ==> 0 <= pos < low <= |ks| / GEO && Backed(ks, i, pos - 3, pos)
    ensures low == |ks| / GEO ==> pos == low - 1
  {
    UsedFrom(ks, i);
    LoadFits(elements, |ks|);
    hide SmallLoad, Used;
  }

  /** Where the next pair goes: right after what has been copied, or at the very start. */
  ghost predicate Leading(lastPos: int, pos: int, lastBlock: int) {
    && -1 <= lastPos < pos
    && (if lastPos < 0 then pos == 0 && lastBlock == -1 else lastBlock == BlockOf(lastPos))
  }

  /** How far the copying has come for the pairs before slot i. */
  ghost predicate Paced(ks: seq<int>, i: nat, goRight: bool, pos: int, avgstep: int) {
    && i <= |ks| && Used(ks) >= 1 && avgstep == GEO * |ks| / Used(ks)
    && (if goRight then 0 <= pos <= 2 * Used(ks[..i]) else pos == Used(ks[..i]) * avgstep)
  }

  lemma {:induction false} UsedPrefix(ks: seq<int>, i: nat)
    requires i <= |ks|
    ensures Used(ks[..i]) <= Used(ks)
  {
    if i == |ks| {
      assert ks[..i] == ks;
    } else {
      UsedPrefix(ks[..|ks| - 1], i);
      assert ks[..|ks| - 1][..i] == ks[..i];
    }
  }

  lemma StepsFit(cnt: nat, n: nat, step: int, length: int)
    requires cnt < n <= length && step == length / n
    ensures step >= 1 && cnt * step < length && cnt * step + step == (cnt + 1) * step
  {
    assert n * step <= length;
    assert (n - cnt) * step >= step by {
      MulMonotone(1, n - cnt, step);
    }
    assert n * step == cnt * step + (n - cnt) * step;
  }

  /** The next pair always finds room. */
  lemma PacedOn(ks: seq<int>, i: nat, goRight: bool, pos: int, avgstep: int, step: nat)
    requires i < |ks| && Paced(ks, i, goRight, pos, avgstep) && 1 <= step <= 2
    ensures ks[i] == NULLKEY ==> Paced(ks, i + 1, goRight, pos, avgstep)
    ensures ks[i] != NULLKEY ==>
              pos < GEO * |ks| && avgstep >= 1
              && Paced(ks, i + 1, goRight, pos + (if goRight then step else avgstep), avgstep)
  {
    assert ks[..i + 1][..i] == ks[..i];
    UsedPrefix(ks, i + 1);
    if ks[i] != NULLKEY {
      StepsFit(Used(ks[..i]), Used(ks), avgstep, GEO * |ks|);
    }
  }

  lemma StoredLeft(a: seq<Pair>, left: nat, index: nat, p: Pair)
    requires LeftRun(Keys(a), left, index) && p.key != NULLKEY
    ensures Stored(ShiftedLeft(a, left, index)[index := p]) == Stored(a) + {p}
  {
    var b := ShiftedLeft(a, left, index)[index := p];
    forall q | q in Stored(a)
      ensures q in b
    {
      var j :| 0 <= j < |a| && a[j] == q;
      assert Keys(a)[j] == q.key;
      assert b[if left < j <= index then j - 1 else j] == q;
    }
    assert b[index] == p;
    forall q | q in Stored(b)
      ensures q in Stored(a) + {p}
    {
      var j :| 0 <= j < |b| && b[j] == q;
      assert j == index || q == a[if left <= j < index then j + 1 else j];
    }
  }

  lemma StoredRight(a: seq<Pair>, index: int, right: nat, p: Pair)
    requires RightRun(Keys(a), index, right) && p.key != NULLKEY
    ensures Stored(ShiftedRight(a, right, index + 1)[index + 1 := p]) == Stored(a) + {p}
  {
    var b := ShiftedRight(a, right, index + 1)[index + 1 := p];
    forall q | q in Stored(a)
      ensures q in b
    {
      var j :| 0 <= j < |a| && a[j] == q;
      assert Keys(a)[j] == q.key;
      assert b[if index < j < right then j + 1 else j] == q;
    }
    assert b[index + 1] == p;
    forall q | q in Stored(b)
      ensures q in Stored(a) + {p}
    {
      var j :| 0 <= j < |b| && b[j] == q;
      assert j == index + 1 || q == a[if index + 1 < j <= right then j - 1 else j];
    }
  }

  lemma RightKeys(a: seq<Pair>, index: int, right: nat, p: Pair)
    requires RightRun(Keys(a), index, right) && p.key != NULLKEY
    ensures var b := ShiftedRight(a, right, index + 1)[index + 1 := p];
            Keys(b) == ShiftedRight(Keys(a), right, index + 1)[index + 1 := p.key] && b[right].key != NULLKEY
  {
    KeysShifted(a, right, index + 1);
    assert right > index + 1 ==> Keys(a)[right - 1] != NULLKEY;
  }

  lemma StoredReplaced(a: seq<Pair>, pos: nat, p: Pair)
    requires Sorted(Keys(a)) && pos < |a| && a[pos].key == p.key != NULLKEY
    ensures Stored(a[pos := p]) == (set q | q in Stored(a) && q.key != p.key) + {p}
    ensures Keys(a[pos := p]) == Keys(a)
  {
    var b := a[pos := p];
    forall q | q in Stored(a) && q.key != p.key
      ensures q in b
    {
      var j :| 0 <= j < |a| && a[j] == q;
      assert b[j] == q;
    }
    assert b[pos] == p;
    forall q | q in Stored(b)
      ensures q == p || (q in Stored(a) && q.key != p.key)
    {
      var j :| 0 <= j < |b| && b[j] == q;
      assert Keys(a)[j] == a[j].key && Keys(a)[pos] == p.key;
    }
  }

  lemma OrderedAfterLeft(ks: seq<int>, left: nat, index: nat, k: int, elements: int, first: int, last: int)
    requires Ordered(ks, elements, first, last) && LeftRun(ks, left, index) && k != NULLKEY && elements + 1 < |ks|
    requires IsPred(ks, 0, |ks| - 1, k, index) && ks[index] != k
    requires Used(ShiftedLeft(ks, left, index)[index := NULLKEY]) == Used(ks)
    ensures Ordered(ShiftedLeft(ks, left, index)[index := k], elements + 1, if left < first then left else first, last)
  {
    var w := ShiftedLeft(ks, left, index)[index := NULLKEY];
    LeftPlaced(ks, left, index, k, []);
    UsedUpdate(w, index, k);
    assert w[index := k] == ShiftedLeft(ks, left, index)[index := k];
  }

  lemma OrderedAfterRight(ks: seq<int>, index: int, right: nat, k: int, elements: int, first: int, last: int)
    requires Ordered(ks, elements, first, last) && RightRun(ks, index, right) && k != NULLKEY && elements + 1 < |ks|
    requires (IsPred(ks, 0, |ks| - 1, k, index) && ks[index] != k) || (index == -1 && IsBelowAll(ks, 0, k, index))
    requires Used(ShiftedRight(ks, right, index + 1)[index + 1 := NULLKEY]) == Used(ks)
    ensures Ordered(ShiftedRight(ks, right, index + 1)[index + 1 := k], elements + 1,
                    if index + 1 < first then index + 1 else first, if right > last then right else last)
  {
    var w := ShiftedRight(ks, right, index + 1)[index + 1 := NULLKEY];
    RightPlaced(ks, index, right, k, []);
    UsedUpdate(w, index + 1, k);
    assert w[index + 1 := k] == ShiftedRight(ks, right, index + 1)[index + 1 := k];
  }

  /** An unsuccessful search splits the keys: those up to its answer are below, the rest above. */
  lemma LocatedSplits(ks: seq<int>, k: int, index: int)
    requires Sorted(ks) && Located(ks, k, false, index) && Used(ks) >= 1
    ensures -1 <= index < |ks|
    ensures forall j :: 0 <= j <= index && ks[j] != NULLKEY ==> ks[j] < k
    ensures forall j :: index < j < |ks| && ks[j] != NULLKEY ==> ks[j] > k
    ensures index >= 0 && ks[index] != NULLKEY ==> IsPred(ks, 0, |ks| - 1, k, index) && ks[index] != k
    ensures index >= 0 && ks[index] == NULLKEY ==> !AllNull(ks, index, |ks|)
    ensures index == -1 ==> IsBelowAll(ks, 0, k, index)
  {
    UsedNone(ks);
    assert forall j :: 0 <= j < |ks| ==> At(ks, j) == ks[j];
  }

  lemma CasesNear(ks: seq<int>, k: int, index: int, first: int, last: int)
    requires Located(ks, k, false, index) && Used(ks) >= 1
    requires 0 <= first && forall i :: 0 <= i < |ks| && (i < first || i > last) ==> ks[i] == NULLKEY
    ensures index + 1 == first && index - 2 >= 0 ==> Near(ks, index - 2)
    ensures index == last && 0 <= index && index + 2 < |ks| ==> Near(ks, index + 2)
    ensures 0 <= index < |ks| && ks[index] == NULLKEY ==> Near(ks, index)
  {
    UsedNone(ks);
    var q :| 0 <= q < |ks| && At(ks, q) != NULLKEY;
    assert At(ks, index) != NULLKEY || At(ks, index + 1) != NULLKEY;
  }

  lemma SomeUsed(ks: seq<int>, first: int, last: int)
    requires Used(ks) >= 1 && forall i :: 0 <= i < |ks| && (i < first || i > last) ==> ks[i] == NULLKEY
    ensures first <= last
  {
    UsedNone(ks);
  }

  /** Where the new key belongs, by where its search ended. */
  lemma InsertCases(ks: seq<int>, k: int, index: int, elements: int, first: int, last: int)
    requires Ordered(ks, elements, first, last) && elements >= 1 && Located(ks, k, false, index) && k != NULLKEY
    ensures -1 <= index < |ks|
    ensures index + 1 == first && index - 2 >= 0 ==> ks[index - 2] == NULLKEY && Sorted(ks[index - 2 := k])
    ensures index == last && index + 2 < |ks| ==> ks[index + 2] == NULLKEY && Sorted(ks[index + 2 := k])
    ensures index >= 0 && ks[index] == NULLKEY ==> Sorted(ks[index := k])
    ensures index >= 0 && ks[index] != NULLKEY ==> IsPred(ks, 0, |ks| - 1, k, index) && ks[index] != k
    ensures index == -1 ==> IsBelowAll(ks, 0, k, index)
    ensures forall i :: 0 <= i < |ks| && (i < first || i > last) ==> ks[i] == NULLKEY
    ensures 0 <= first <= last && Used(ks) < |ks|
    ensures index + 1 == first && index - 2 >= 0 ==> Near(ks, index - 2)
    ensures index == last && index + 2 < |ks| ==> Near(ks, index + 2)
    ensures index >= 0 && ks[index] == NULLKEY ==> Near(ks, index)
  {
    LocatedSplits(ks, k, index);
    SomeUsed(ks, first, last);
    CasesNear(ks, k, index, first, last);
    hide Located, AllNull, IsPred, IsBelowAll, Used, Sorted, Near;
    if index + 1 == first && index - 2 >= 0 {
      PlaceSorted(ks, index - 2, k);
    }
    if index == last && index + 2 < |ks| {
      PlaceSorted(ks, index + 2, k);
    }
    if index >= 0 && ks[index] == NULLKEY {
      PlaceSorted(ks, index, k);
    }
  }

  /** After a shift to the right the freed slot is near to the predecessor, or to the key that was moved. */
  lemma RightNear(ks: seq<int>, index: int, right: nat, k: int)
    requires RightRun(ks, index, right)
    requires (IsPred(ks, 0, |ks| - 1, k, index) && ks[index] != k) || (index == -1 && IsBelowAll(ks, 0, k, index))
    ensures Near(ShiftedRight(ks, right, index + 1), index + 1)
  {
    var was := ShiftedRight(ks, right, index + 1);
    if index >= 0 {
      assert At(was, index) == At(ks, index) != NULLKEY;
    } else {
      assert At(was, 1) == At(ks, 0) != NULLKEY;
    }
  }

  lemma FirstKey(a: seq<Pair>, index: nat, p: Pair)
    requires index < |a| && a[index].key == p.key
    ensures a[index := p][0].key == a[0].key
  {
  }

  lemma {:induction false} SlotsSmall(q: nat, level: nat)
    requires q < BLOCK * BLOCK
    ensures SlotAt(q, level) < BLOCK
  {
    if level > 0 {
      SlotsSmall(q, level - 1);
    }
  }

  /** No free slot from lo to hi, as far as these are in the array. */
  ghost predicate NoGap(ks: seq<int>, lo: int, hi: int) {
    forall j :: lo <= j <= hi && 0 <= j < |ks| ==> ks[j] != NULLKEY
  }

  ghost predicate ChosenByShift(ks: seq<int>, index: int, idx: int, low: nat, high: nat) {
    if idx == index then high == index && LeftRun(ks, low, high) && NoGap(ks, index, 2 * index - low)
    else idx == index + 1 == low && RightRun(ks, index, high) && NoGap(ks, 2 * index - high + 1, index)
  }

  /**
    Where a new key goes, and which slots change for it: two slots beyond the end it extends, the free slot its search
    ended at, or a slot beside its predecessor after the run to the nearest gap, the right one of two, has moved.
   */
  ghost predicate Chosen(ks: seq<int>, index: int, first: int, last: int, idx: int, low: nat, high: nat) {
    if Used(ks) == 0 then low == high == idx == |ks| / 2
    else if index + 1 == first && index - 2 >= 0 then low == high == idx == index - 2
    else if index == last && index + 2 < |ks| then low == high == idx == index + 2
    else if 0 <= index < |ks| && ks[index] == NULLKEY then low == high == idx == index
    else ChosenByShift(ks, index, idx, low, high)
  }

  lemma ChosenInEmpty(ks: seq<int>, index: int, first: int, last: int, idx: nat)
    requires Used(ks) == 0 && idx == |ks| / 2
    ensures Chosen(ks, index, first, last, idx, idx, idx)
  {
  }

  lemma ChosenByCase(ks: seq<int>, index: int, first: int, last: int, idx: int, low: nat, high: nat)
    requires Used(ks) >= 1
    requires if index + 1 == first && index - 2 >= 0 then low == high == idx == index - 2
             else if index == last && index + 2 < |ks| then low == high == idx == index + 2
             else if 0 <= index < |ks| && ks[index] == NULLKEY then low == high == idx == index
             else ChosenByShift(ks, index, idx, low, high)
    ensures Chosen(ks, index, first, last, idx, low, high)
  {
  }

  lemma ChosenAtGap(ks: seq<int>, index: int, leftfound: bool, gap: nat)
    requires if leftfound then 0 <= index && LeftRun(ks, gap, index) && NoGap(ks, index, index + (index - gap))
             else RightRun(ks, index, gap) && NoGap(ks, index - (gap - index) + 1, index)
    ensures leftfound ==> 0 <= index && ChosenByShift(ks, index, index, gap, index)
    ensures !leftfound ==> 0 <= index + 1 && ChosenByShift(ks, index, index + 1, index + 1, gap)
  {
  }

  /** What an insertion leaves of the index. */
  lemma IndexAfterInsert(ks: seq<int>, k: int, index: int, first: int, last: int, idx: int, low: nat, high: nat,
                         vec: seq<GapVector>, top: nat, vec': seq<GapVector>)
    requires |vec| == top + 1 && (k in ks ==> vec' == vec)
    requires k !in ks ==> idx < |ks| && Chosen(ks, index, first, last, idx, low, high)
    requires k !in ks ==> Noted(ks, vec, top, low, high, vec')
    ensures Sound(vec) ==> Sound(vec')
    ensures Tight(vec) && (forall q: nat :: q < |ks| ==> !LostHead(vec, top, q)) ==> Tight(vec')
  {
    hide Used, Tight, Sound, LostHead, NoGap;
  }

  lemma RunFacts(ks: seq<int>, index: int, right: nat)
    requires RightRun(ks, index, right)
    ensures -1 <= index < right < |ks|
  {
  }

  lemma ShiftStarts(a: seq<Pair>, b: nat)
    requires b < |a| && a[b].key == NULLKEY
    ensures ShiftedLeft(a, b, b) == a && ShiftedRight(a, b, b) == a
    ensures ShiftedLeft(Keys(a), b, b) == Keys(a) && ShiftedRight(Keys(a), b, b) == Keys(a)
    ensures Keys(a)[b := NULLKEY] == Keys(a)
  {
  }

  /** With its free slot emptied, a half-shifted array is sorted. */
  lemma HoleFacts(ks: seq<int>, b: nat, i: nat)
    requires Sorted(ks)
    ensures b <= i < |ks| ==> Sorted(ShiftedLeft(ks, b, i)[i := NULLKEY])
    ensures i <= b < |ks| ==> Sorted(ShiftedRight(ks, b, i)[i := NULLKEY])
  {
  }

  /** One step of a shift to the left, seen by the hash table. */
  lemma LeftMove(ks: seq<int>, left: nat, i: nat, index: nat)
    requires Sorted(ks) && LeftRun(ks, left, index) && left <= i < index
    ensures var w := ShiftedLeft(ks, left, i)[i := NULLKEY];
            var w' := ShiftedLeft(ks, left, i + 1)[i + 1 := NULLKEY];
            && Sorted(w) && w[i] == NULLKEY && w[i + 1] == ks[i + 1] != NULLKEY
            && w[i := ks[i + 1]][i + 1 := NULLKEY] == w' && Used(w) == Used(w')
  {
    HoleFacts(ks, left, i);
    var w := ShiftedLeft(ks, left, i)[i := NULLKEY];
    UsedUpdate(w, i, ks[i + 1]);
    UsedUpdate(w[i := ks[i + 1]], i + 1, NULLKEY);
    assert w[i := ks[i + 1]][i + 1 := NULLKEY] == ShiftedLeft(ks, left, i + 1)[i + 1 := NULLKEY];
  }

  lemma LeftMovePairs(a0: seq<Pair>, left: nat, i: nat)
    requires left <= i && i + 1 < |a0|
    ensures var s := ShiftedLeft(a0, left, i);
            s[i := s[i + 1]] == ShiftedLeft(a0, left, i + 1) && s[i + 1].key == Keys(a0)[i + 1]
    ensures Agrees(ShiftedLeft(a0, left, i + 1), ShiftedLeft(Keys(a0), left, i)[i := NULLKEY])
  {
    var w := ShiftedLeft(Keys(a0), left, i)[i := NULLKEY];
    forall j | 0 <= j < |w| && w[j] != NULLKEY
      ensures ShiftedLeft(a0, left, i + 1)[j].key == w[j]
    {
    }
  }

  /** One step of a shift to the right, seen by the hash table. */
  lemma RightMove(ks: seq<int>, index: int, right: nat, i: nat)
    requires Sorted(ks) && RightRun(ks, index, right) && index + 2 <= i <= right
    ensures var w := ShiftedRight(ks, right, i)[i := NULLKEY];
            var w' := ShiftedRight(ks, right, i - 1)[i - 1 := NULLKEY];
            && Sorted(w) && w[i] == NULLKEY && w[i - 1] == ks[i - 1] != NULLKEY
            && w[i := ks[i - 1]][i - 1 := NULLKEY] == w' && Used(w) == Used(w')
  {
    HoleFacts(ks, right, i);
    var w := ShiftedRight(ks, right, i)[i := NULLKEY];
    UsedUpdate(w, i, ks[i - 1]);
    UsedUpdate(w[i := ks[i - 1]], i - 1, NULLKEY);
    assert w[i := ks[i - 1]][i - 1 := NULLKEY] == ShiftedRight(ks, right, i - 1)[i - 1 := NULLKEY];
  }

  lemma RightMovePairs(a0: seq<Pair>, right: nat, i: nat)
    requires 1 <= i <= right < |a0|
    ensures var s := ShiftedRight(a0, right, i);
            s[i := s[i - 1]] == ShiftedRight(a0, right, i - 1) && s[i - 1].key == Keys(a0)[i - 1]
    ensures Agrees(ShiftedRight(a0, right, i - 1), ShiftedRight(Keys(a0), right, i)[i := NULLKEY])
  {
    var w := ShiftedRight(Keys(a0), right, i)[i := NULLKEY];
    forall j | 0 <= j < |w| && w[j] != NULLKEY
      ensures ShiftedRight(a0, right, i - 1)[j].key == w[j]
    {
    }
  }
}
