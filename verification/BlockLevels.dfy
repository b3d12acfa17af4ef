/** The levels of the block index: every entry of a level is the first key of its 32 entries one level below. */
module BlockLevels {
  import opened Gapped

  const BLOCK: int := 32

  function BlockOf(pos: int): int {
    pos / BLOCK
  }

  predicate BlockStart(pos: int) {
    pos % BLOCK == 0
  }

  /**
    A growing vector with nulls; last is the greatest index ever written, elements the running count the code keeps.
   */
  datatype GapVector = GapVector(slots: seq<int>, last: nat, elements: int)

  function NewVector(): GapVector {
    GapVector(seq(128, _ => NULLKEY), 0, 0)
  }

  method GrowTo(v: GapVector, i: nat) returns (w: GapVector)
    ensures i < |w.slots| && |v.slots| <= |w.slots|
    ensures forall j :: At(w.slots, j) == At(v.slots, j)
    ensures w.last == v.last && w.elements == v.elements
  {
    w := v;
    while i >= |w.slots|
      invariant |v.slots| <= |w.slots|
      invariant forall j :: At(w.slots, j) == At(v.slots, j)
      invariant w.last == v.last && w.elements == v.elements
      decreases i - |w.slots|
    {
      var length := |w.slots| + |w.slots| / 2;
      length := length + BLOCK - length % BLOCK;
      w := w.(slots := w.slots + seq(length - |w.slots|, _ => NULLKEY));
    }
  }

  /** The value a slot holds after writing key over cur: overwrite when forced, else keep the smaller. */
  function PutValue(cur: int, key: int, force: bool): int {
    if force || cur == NULLKEY || key < cur then key else cur
  }

  function Put(v: GapVector, key: int, i: nat, force: bool): (w: GapVector)
    requires i < |v.slots|
    ensures |w.slots| == |v.slots|
    ensures forall j :: At(w.slots, j) == if j == i then PutValue(At(v.slots, i), key, force) else At(v.slots, j)
    ensures w.last == if i > v.last then i else v.last
    ensures w.elements == v.elements
              + (if v.slots[i] == NULLKEY && (!force || key != NULLKEY) then 1
                 else if v.slots[i] != NULLKEY && force && key == NULLKEY then -1 else 0)
  {
    var cur := v.slots[i];
    GapVector(
      v.slots[i := PutValue(cur, key, force)],
      if i > v.last then i else v.last,
      v.elements + (if cur == NULLKEY && (!force || key != NULLKEY) then 1
                    else if cur != NULLKEY && force && key == NULLKEY then -1 else 0))
  }

  /** Copies the first slot of the level below into an empty first slot. */
  function Fill(v: GapVector, below: int): (w: GapVector)
    requires |v.slots| > 0
    ensures |w.slots| == |v.slots| && w.last == v.last && w.elements == v.elements
    ensures forall j :: At(w.slots, j) == if j == 0 && At(v.slots, 0) == NULLKEY then below else At(v.slots, j)
  {
    if v.slots[0] == NULLKEY && below != NULLKEY then v.(slots := v.slots[0 := below]) else v
  }

  ghost predicate NonDecreasing(s: seq<int>) {
    forall i, j :: 0 <= i < j && At(s, i) != NULLKEY && At(s, j) != NULLKEY ==> At(s, i) <= At(s, j)
  }

  function First(child: seq<int>, p: int): int {
    FirstFrom(child, BLOCK * p, BLOCK * p + BLOCK)
  }

  /** The parent level summarises the child level. */
  ghost predicate Exact(child: seq<int>, parent: seq<int>) {
    forall p :: 0 <= p ==> At(parent, p) == First(child, p)
  }

  /** The first block of the child holds keys, but neither its first slot nor the entry for it above shows one. */
  predicate Headless(child: seq<int>, parent: seq<int>) {
    At(child, 0) == NULLKEY && At(parent, 0) == NULLKEY && First(child, 0) != NULLKEY
  }

  /** The parent level summarises the child level, or all of it but a head that has been lost. */
  ghost predicate Linked(child: seq<int>, parent: seq<int>) {
    forall p :: 0 <= p ==> At(parent, p) == First(child, p) || (p == 0 && Headless(child, parent))
  }

  ghost predicate LevelOk(v: GapVector) {
    v.last < |v.slots| && forall i :: i > v.last ==> At(v.slots, i) == NULLKEY
  }

  ghost predicate LinkOk(vec: seq<GapVector>, k: int) {
    1 <= k < |vec| && Linked(vec[k - 1].slots, vec[k].slots)
  }

  /** Level k has lost its head. */
  predicate HeadlessAt(vec: seq<GapVector>, k: int) {
    1 <= k < |vec| && Headless(vec[k - 1].slots, vec[k].slots)
  }

  /** No level has lost its head. */
  ghost predicate Tight(vec: seq<GapVector>) {
    forall k :: 1 <= k < |vec| ==> !HeadlessAt(vec, k)
  }

  /** Every level that has lost its head still has the entry next to it. */
  ghost predicate Sound(vec: seq<GapVector>) {
    forall k :: HeadlessAt(vec, k) ==> At(vec[k].slots, 1) != NULLKEY
  }

  /** The upper levels summarise each other, save for lost heads, and the top level fits in one block. */
  ghost predicate UpperOk(vec: seq<GapVector>, top: nat) {
    && |vec| == top + 1
    && (forall k :: 0 <= k <= top ==> LevelOk(vec[k]))
    && (forall k :: 0 <= k < top ==> vec[k].last >= 1)
    && (forall k :: 1 <= k <= top ==> LinkOk(vec, k))
    && vec[top].last < BLOCK
    && vec[0].elements >= 0
    && (vec[0].elements >= 1 || forall i :: At(vec[0].slots, i) == NULLKEY)
  }

  /** What every state of the index has, whatever it says of the keys. */
  ghost predicate Shaped(vec: seq<GapVector>, top: nat) {
    |vec| == top + 1 && forall k :: 0 <= k <= top ==> LevelOk(vec[k])
  }

  /** The index describes the keys ks: the bottom level exactly, the others save for lost heads. */
  ghost predicate IndexOk(ks: seq<int>, vec: seq<GapVector>, top: nat) {
    UpperOk(vec, top) && Exact(ks, vec[0].slots)
  }

  /** The slot of the given level that covers array position pos. */
  function SlotAt(pos: nat, level: nat): nat {
    if level == 0 then pos / BLOCK else SlotAt(pos, level - 1) / BLOCK
  }

  /** The first slot of a block is empty though the block is not. */
  ghost predicate HeadGone(s: seq<int>) {
    At(s, 0) == NULLKEY && !AllNull(s, 0, BLOCK)
  }

  /** Writing at pos adds a level while the first slot of the top level has been emptied and others have not. */
  ghost predicate LostHead(vec: seq<GapVector>, top: nat, pos: nat)
    requires |vec| == top + 1
  {
    SlotAt(pos, top) >= BLOCK && HeadGone(vec[top].slots)
  }

  ghost function Below(ks: seq<int>, vec: seq<GapVector>, k: nat): seq<int>
    requires k <= |vec|
  {
    if k == 0 then ks else vec[k - 1].slots
  }

  lemma SoundWhenTight(vec: seq<GapVector>)
    requires Tight(vec)
    ensures Sound(vec)
  {
  }

  lemma ParentMonotone(child: seq<int>, parent: seq<int>)
    requires NonDecreasing(child)
    requires forall p :: 0 <= p ==> At(parent, p) == NULLKEY || At(parent, p) == First(child, p)
    ensures NonDecreasing(parent)
  {
    forall i, j | 0 <= i < j && At(parent, i) != NULLKEY && At(parent, j) != NULLKEY
      ensures At(parent, i) <= At(parent, j)
    {
      var a := FirstFromSlot(child, BLOCK * i, BLOCK * i + BLOCK);
      var b := FirstFromSlot(child, BLOCK * j, BLOCK * j + BLOCK);
    }
  }

  lemma OtherBlocksSame(before: seq<int>, now: seq<int>, i: nat)
    requires forall j :: j != i ==> At(now, j) == At(before, j)
    ensures forall p :: 0 <= p && p != i / BLOCK ==> First(now, p) == First(before, p)
  {
    forall p | 0 <= p && p != i / BLOCK
      ensures First(now, p) == First(before, p)
    {
      FirstFromSame(now, before, BLOCK * p, BLOCK * p + BLOCK);
    }
  }

  /** One slot of the child changed and is now the first of its block: only its own parent is affected. */
  lemma ChildBecameFirst(before: seq<int>, now: seq<int>, i: nat)
    requires forall j :: j != i ==> At(now, j) == At(before, j)
    requires At(now, i) != NULLKEY && AllNull(now, i / BLOCK * BLOCK, i)
    ensures First(now, i / BLOCK) == At(now, i)
    ensures forall p :: 0 <= p && p != i / BLOCK ==> First(now, p) == First(before, p)
  {
    FirstFromIs(now, i / BLOCK * BLOCK, i, i / BLOCK * BLOCK + BLOCK);
    OtherBlocksSame(before, now, i);
  }

  /** An earlier key of the block hides the changed slot from every parent. */
  lemma HiddenChange(before: seq<int>, now: seq<int>, i: nat, j: int)
    requires forall x :: x != i ==> At(now, x) == At(before, x)
    requires i / BLOCK * BLOCK <= j < i && At(now, j) != NULLKEY && AllNull(now, i / BLOCK * BLOCK, j)
    ensures forall p :: 0 <= p ==> First(now, p) == First(before, p)
  {
    OtherBlocksSame(before, now, i);
    var lo := i / BLOCK * BLOCK;
    assert AllNull(before, lo, j) by {
      forall x | lo <= x < j ensures At(before, x) == NULLKEY { assert At(now, x) == NULLKEY; }
    }
    FirstFromIs(now, lo, j, lo + BLOCK);
    FirstFromIs(before, lo, j, lo + BLOCK);
  }

  /** A hidden change also keeps a lost head lost, and no other. */
  lemma HiddenLink(before: seq<int>, now: seq<int>, i: nat, j: int, parent: seq<int>)
    requires forall x :: x != i ==> At(now, x) == At(before, x)
    requires i / BLOCK * BLOCK <= j < i && At(now, j) != NULLKEY && AllNull(now, i / BLOCK * BLOCK, j)
    requires Linked(before, parent)
    ensures Linked(now, parent) && (Headless(now, parent) <==> Headless(before, parent))
  {
    HiddenChange(before, now, i, j);
    assert At(now, 0) == At(before, 0);
  }

  lemma {:induction false} SlotMonotone(p: nat, q: nat, level: nat)
    requires p <= q
    ensures SlotAt(p, level) <= SlotAt(q, level)
  {
    if level > 0 {
      SlotMonotone(p, q, level - 1);
    }
  }

  lemma {:induction false} SlotZeroUp(pos: nat, k: nat, m: nat)
    requires SlotAt(pos, k) == 0 && k <= m
    ensures SlotAt(pos, m) == 0
  {
    if k < m {
      SlotZeroUp(pos, k, m - 1);
    }
  }

  /** A used slot anywhere under the top level has its ancestor there, hence within the first block. */
  lemma {:induction false} UnderTop(was: seq<GapVector>, top: nat, level: nat, j: nat, pos: nat)
    requires UpperOk(was, top) && level <= top
    requires At(was[level].slots, j) != NULLKEY && j / BLOCK == SlotAt(pos, level) / BLOCK
    ensures SlotAt(pos, top) < BLOCK
    decreases top - level
  {
    if level < top {
      var s := SlotAt(pos, level + 1);
      assert s == j / BLOCK;
      if s == 0 {
        SlotZeroUp(pos, level + 1, top);
      } else {
        assert LinkOk(was, level + 1);
        assert At(was[level + 1].slots, s) == First(was[level].slots, s);
        UnderTop(was, top, level + 1, s, pos);
      }
    }
  }

  /** No level is missing above a position that has a key at or after it. */
  lemma HeadNotLost(ks: seq<int>, vec: seq<GapVector>, top: nat, p: nat, q: nat)
    requires IndexOk(ks, vec, top) && p <= q && At(ks, q) != NULLKEY
    ensures !LostHead(vec, top, p)
  {
    var b := q / BLOCK;
    assert At(vec[0].slots, b) == First(ks, b);
    assert !AllNull(ks, BLOCK * b, BLOCK * b + BLOCK);
    UnderTop(vec, top, 0, b, q);
    SlotMonotone(p, q, top);
  }

  /** Nor above one in a block that has a key. */
  lemma HeadNotLostInBlock(ks: seq<int>, vec: seq<GapVector>, top: nat, p: nat, q: nat)
    requires IndexOk(ks, vec, top) && p / BLOCK == q / BLOCK && At(ks, q) != NULLKEY
    ensures !LostHead(vec, top, p)
  {
    var b := q / BLOCK;
    assert At(vec[0].slots, b) == First(ks, b);
    assert !AllNull(ks, BLOCK * b, BLOCK * b + BLOCK);
    UnderTop(vec, top, 0, b, p);
  }

  lemma {:induction false} HeadUp(ks: seq<int>, vec: seq<GapVector>, top: nat, k: nat)
    requires IndexOk(ks, vec, top) && k <= top && At(ks, 0) != NULLKEY
    ensures At(vec[k].slots, 0) != NULLKEY
  {
    if k == 0 {
      assert At(vec[0].slots, 0) == First(ks, 0);
      FirstFromIs(ks, 0, 0, BLOCK);
    } else {
      HeadUp(ks, vec, top, k - 1);
      assert LinkOk(vec, k);
      assert At(vec[k].slots, 0) == First(vec[k - 1].slots, 0);
      FirstFromIs(vec[k - 1].slots, 0, 0, BLOCK);
    }
  }

  lemma {:induction false} NothingUp(ks: seq<int>, vec: seq<GapVector>, top: nat, k: nat)
    requires IndexOk(ks, vec, top) && k <= top && forall j :: At(ks, j) == NULLKEY
    ensures forall j :: At(vec[k].slots, j) == NULLKEY
  {
    if k > 0 {
      NothingUp(ks, vec, top, k - 1);
      assert LinkOk(vec, k);
    }
    forall j
      ensures At(vec[k].slots, j) == NULLKEY
    {
      if j >= 0 {
        var child := Below(ks, vec, k);
        assert At(vec[k].slots, j) == First(child, j) || At(vec[k].slots, j) == NULLKEY;
        assert AllNull(child, BLOCK * j, BLOCK * j + BLOCK);
      }
    }
  }

  /** The head of the top level is there if slot 0 is used, or if nothing is. */
  lemma HeadThere(ks: seq<int>, vec: seq<GapVector>, top: nat)
    requires IndexOk(ks, vec, top)
    requires At(ks, 0) != NULLKEY || forall j :: At(ks, j) == NULLKEY
    ensures !HeadGone(vec[top].slots)
  {
    if At(ks, 0) != NULLKEY {
      HeadUp(ks, vec, top, top);
    } else {
      NothingUp(ks, vec, top, top);
    }
  }

  lemma ParentSorted(child: seq<int>, parent: seq<int>)
    requires Sorted(child) && Linked(child, parent)
    ensures Sorted(parent)
  {
    forall i, j | 0 <= i < j < |parent| && parent[i] != NULLKEY && parent[j] != NULLKEY
      ensures parent[i] < parent[j]
    {
      assert At(parent, i) == First(child, i) && At(parent, j) == First(child, j);
      var a := FirstFromSlot(child, BLOCK * i, BLOCK * i + BLOCK);
      var b := FirstFromSlot(child, BLOCK * j, BLOCK * j + BLOCK);
    }
  }

  lemma {:induction false} LevelSorted(ks: seq<int>, vec: seq<GapVector>, top: nat, k: nat)
    requires Sorted(ks) && IndexOk(ks, vec, top) && k <= top
    ensures Sorted(vec[k].slots)
  {
    if k == 0 {
      ParentSorted(ks, vec[0].slots);
    } else {
      LevelSorted(ks, vec, top, k - 1);
      assert LinkOk(vec, k);
      ParentSorted(vec[k - 1].slots, vec[k].slots);
    }
  }

  /** Every entry is a key that is stored under it. */
  lemma {:induction false} KeyBelow(ks: seq<int>, vec: seq<GapVector>, top: nat, k: nat, s: int) returns (q: nat)
    requires IndexOk(ks, vec, top) && k <= top && At(vec[k].slots, s) != NULLKEY
    ensures q < |ks| && At(ks, q) == At(vec[k].slots, s) && SlotAt(q, k) == s
  {
    var child := Below(ks, vec, k);
    assert k > 0 ==> LinkOk(vec, k);
    assert At(vec[k].slots, s) == First(child, s);
    var a := FirstFromSlot(child, BLOCK * s, BLOCK * s + BLOCK);
    if k == 0 {
      q := a;
    } else {
      q := KeyBelow(ks, vec, top, k - 1, a);
    }
  }

  lemma FirstNotAbove(s: seq<int>, q: nat)
    requires Sorted(s) && At(s, q) != NULLKEY
    ensures NULLKEY != First(s, q / BLOCK) <= At(s, q)
  {
    var lo := q / BLOCK * BLOCK;
    var a := FirstFromSlot(s, lo, lo + BLOCK);
  }

  /** A stored key has an entry not above it at every level, unless the slot for it there is the first one. */
  lemma {:induction false} EntryAbove(ks: seq<int>, vec: seq<GapVector>, top: nat, k: nat, q: nat)
    requires IndexOk(ks, vec, top) && Sorted(ks) && k <= top && At(ks, q) != NULLKEY && (k == 0 || SlotAt(q, k) >= 1)
    ensures NULLKEY != At(vec[k].slots, SlotAt(q, k)) <= At(ks, q)
  {
    var s := SlotAt(q, k);
    if k == 0 {
      FirstNotAbove(ks, q);
      assert At(vec[0].slots, s) == First(ks, s);
    } else {
      EntryAbove(ks, vec, top, k - 1, q);
      LevelSorted(ks, vec, top, k - 1);
      FirstNotAbove(vec[k - 1].slots, SlotAt(q, k - 1));
      assert LinkOk(vec, k);
      assert At(vec[k].slots, s) == First(vec[k - 1].slots, s);
    }
  }

  /** The number of levels is at most n + 1, and one of them more would have nothing but a first slot. */
  ghost predicate Fits(vec: seq<GapVector>, n: nat) {
    |vec| <= n + 1 && (|vec| == n + 1 ==> vec[n].last == 0)
  }

  /** How many array positions lie under one slot, n levels up. */
  function Span(n: nat): nat {
    if n == 0 then 1 else BLOCK * Span(n - 1)
  }

  lemma {:induction false} SlotBelow(pos: nat, k: nat)
    ensures k > 0 ==> SlotAt(pos, k) == SlotAt(pos / BLOCK, k - 1)
  {
    if k > 1 {
      SlotBelow(pos, k - 1);
    }
  }

  lemma {:induction false} SlotWithin(pos: nat, k: nat)
    requires pos < Span(k + 1)
    ensures SlotAt(pos, k) == 0
  {
    if k > 0 {
      SlotBelow(pos, k);
      SlotWithin(pos / BLOCK, k - 1);
    }
  }

  /** Positions of 63 bits need 13 levels at most, so the 15 there are never run out. */
  lemma LevelsSuffice(pos: nat)
    requires pos < 0x8000_0000_0000_0000
    ensures SlotAt(pos, 12) == 0
  {
    assert Span(13) == 0x2_0000_0000_0000_0000;
    SlotWithin(pos, 12);
  }
}
