/** What one write does to the levels of the block index: the climb from the bottom level up, round by round. */
module BlockClimb {
  import opened Gapped
  import opened BlockLevels

  ghost predicate SameBut(s: seq<int>, t: seq<int>, i: int) {
    forall j :: j != i ==> At(s, j) == At(t, j)
  }

  ghost predicate UsedOnlyAt(s: seq<int>, i: int, i': int) {
    forall j :: j != i && j != i' ==> At(s, j) == NULLKEY
  }

  /** A level is right everywhere but at p, where writing pair will make it right. */
  ghost predicate AwaitsWrite(child: seq<int>, own: seq<int>, p: nat, pair: int, force: bool) {
    && PutValue(At(own, p), pair, force) == First(child, p)
    && forall q :: 0 <= q && q != p ==> At(own, q) == First(child, q)
  }

  /** The same, where a lost head may be missing too. */
  ghost predicate AwaitsLinked(child: seq<int>, own: seq<int>, p: nat, pair: int, force: bool) {
    && PutValue(At(own, p), pair, force) == First(child, p)
    && forall q :: 0 <= q && q != p ==> At(own, q) == First(child, q) || (q == 0 && Headless(child, own))
  }

  /** A level that is being added holds nothing yet, and only blocks 0 and p have anything below them. */
  ghost predicate AwaitsBirth(child: seq<int>, own: seq<int>, p: nat, pair: int) {
    && AllNull(own, 0, |own|)
    && pair == First(child, p)
    && forall q :: 0 < q && q != p ==> First(child, q) == NULLKEY
  }

  /** What one round of the climb makes of a level: pair at p, and an empty first slot filled from below. */
  ghost predicate WrittenOver(own: seq<int>, head: int, p: nat, pair: int, force: bool, w: seq<int>) {
    forall j :: At(w, j) ==
      if j == p then PutValue(At(own, p), pair, force)
      else if j == 0 && At(own, 0) == NULLKEY then head
      else At(own, j)
  }

  /** The parent's old entry is absent or not below the new first key. */
  lemma OldParentNotBelow(before: seq<int>, now: seq<int>, i: nat)
    requires SameBut(now, before, i)
    requires At(now, i) != NULLKEY && AllNull(now, i / BLOCK * BLOCK, i)
    requires NonDecreasing(now)
    ensures First(before, i / BLOCK) == NULLKEY || At(before, i) != NULLKEY || First(before, i / BLOCK) >= At(now, i)
    ensures At(before, i) != NULLKEY ==> First(before, i / BLOCK) == At(before, i)
  {
    var lo := i / BLOCK * BLOCK;
    if At(before, i) != NULLKEY {
      FirstFromIs(before, lo, i, lo + BLOCK);
    } else if First(before, i / BLOCK) != NULLKEY {
      var p := FirstFromSlot(before, lo, lo + BLOCK);
      assert At(now, p) == At(before, p);
    }
  }

  /** Writing an existing level: a lost head stays lost unless it is what is written. */
  lemma WriteKnownLevel(child: seq<int>, own: seq<int>, p: nat, pair: int, force: bool, head: int, w: seq<int>)
    requires AwaitsLinked(child, own, p, pair, force)
    requires WrittenOver(own, head, p, pair, force, w) && (head == NULLKEY || head == At(child, 0))
    ensures Linked(child, w) && SameBut(w, own, p)
    ensures Headless(child, w) <==> p != 0 && Headless(child, own)
  {
    if p != 0 && At(own, 0) == NULLKEY {
      assert At(child, 0) == NULLKEY;
    }
    assert SameBut(w, own, p);
  }

  /** Writing a new level: it is without its head if the level below is. */
  lemma WriteNewLevel(child: seq<int>, own: seq<int>, p: nat, pair: int, force: bool, w: seq<int>)
    requires AwaitsBirth(child, own, p, pair)
    requires WrittenOver(own, At(child, 0), p, pair, force, w)
    ensures Linked(child, w) && UsedOnlyAt(w, 0, p)
    ensures Headless(child, w) <==> p != 0 && HeadGone(child)
  {
    assert forall j :: At(own, j) == NULLKEY;
    if p != 0 && At(child, 0) != NULLKEY {
      FirstFromIs(child, 0, 0, BLOCK);
    }
  }

  /**
    The front of a climb, about to write pair for slot i of child, the level below; mine is what child was before.
   */
  ghost predicate Front(child: seq<int>, mine: seq<int>, own: seq<int>, top: nat, level: nat,
                        i: nat, pair: int, force: bool) {
    && pair != NULLKEY
    && NonDecreasing(child)
    && (level == 0 ==> AwaitsWrite(child, own, i / BLOCK, pair, force))
    && (level <= top ==> AwaitsLinked(child, own, i / BLOCK, pair, force))
    && (level > top ==> AwaitsBirth(child, own, i / BLOCK, pair))
    && (0 < level <= top + 1 ==> SameBut(child, mine, i))
    && (level > top + 1 ==> UsedOnlyAt(child, 0, i))
  }

  lemma HeadUnmoved(mine: seq<int>, child: seq<int>, i: nat)
    requires SameBut(child, mine, i) && i >= BLOCK
    ensures At(child, 0) == At(mine, 0) && First(child, 0) == First(mine, 0)
    ensures AllNull(child, 0, BLOCK) <==> AllNull(mine, 0, BLOCK)
  {
    assert forall j :: 0 <= j < BLOCK ==> At(child, j) == At(mine, j);
    FirstFromSame(child, mine, 0, BLOCK);
  }

  lemma HeadAlone(child: seq<int>, i: nat)
    requires UsedOnlyAt(child, 0, i) && i >= BLOCK
    ensures !HeadGone(child)
  {
  }

  /** The level just written sums up the one below; its head is missing where it was, or where it was lost now. */
  lemma WrittenIsLinked(child: seq<int>, mine: seq<int>, own: seq<int>, top: nat, level: nat,
                        i: nat, pair: int, force: bool, w: seq<int>)
    requires Front(child, mine, own, top, level, i, pair, force)
    requires WrittenOver(own, if level == 0 then NULLKEY else At(child, 0), i / BLOCK, pair, force, w)
    ensures Linked(child, w) && At(w, i / BLOCK) != NULLKEY
    ensures level == 0 ==> Exact(child, w)
    ensures 0 < level <= top ==> (Headless(child, w) <==> i / BLOCK != 0 && Headless(mine, own))
    ensures level == top + 1 ==> (Headless(child, w) <==> i / BLOCK != 0 && HeadGone(mine))
    ensures level > top + 1 ==> !Headless(child, w)
    ensures level <= top ==> SameBut(w, own, i / BLOCK)
    ensures level > top ==> UsedOnlyAt(w, 0, i / BLOCK)
  {
    var p := i / BLOCK;
    if level <= top {
      WriteKnownLevel(child, own, p, pair, force, if level == 0 then NULLKEY else At(child, 0), w);
      if 0 < level && p != 0 {
        HeadUnmoved(mine, child, i);
      }
    } else {
      WriteNewLevel(child, own, p, pair, force, w);
      if p != 0 {
        if level == top + 1 {
          HeadUnmoved(mine, child, i);
        } else {
          HeadAlone(child, i);
        }
      }
    }
  }

  lemma BirthBlocks(own: seq<int>, w: seq<int>, atTop: bool, p: nat)
    requires if atTop then SameBut(w, own, p) && (forall j :: j >= BLOCK ==> At(own, j) == NULLKEY)
             else UsedOnlyAt(w, 0, p)
    ensures forall q :: 0 < q && q != p / BLOCK ==> First(w, q) == NULLKEY
  {
    forall q | 0 < q && q != p / BLOCK
      ensures First(w, q) == NULLKEY
    {
      assert AllNull(w, BLOCK * q, BLOCK * q + BLOCK);
    }
  }

  lemma KnownLevelAwaits(own: seq<int>, w: seq<int>, up: seq<int>, p: nat, force: bool)
    requires SameBut(w, own, p) && NonDecreasing(w) && Linked(own, up)
    requires At(w, p) != NULLKEY && AllNull(w, p / BLOCK * BLOCK, p)
    requires force || At(own, p) == NULLKEY || At(own, p) >= At(w, p)
    ensures AwaitsLinked(w, up, p / BLOCK, At(w, p), force)
  {
    ChildBecameFirst(own, w, p);
    OldParentNotBelow(own, w, p);
    if p / BLOCK != 0 {
      HeadUnmoved(own, w, p);
    }
  }

  /** When the written slot leads its block, the climb goes on with it. */
  lemma FrontMovesUp(child: seq<int>, mine: seq<int>, own: seq<int>, up: seq<int>, top: nat, level: nat,
                     i: nat, pair: int, force: bool, w: seq<int>)
    requires Front(child, mine, own, top, level, i, pair, force)
    requires WrittenOver(own, if level == 0 then NULLKEY else At(child, 0), i / BLOCK, pair, force, w)
    requires AllNull(w, i / BLOCK / BLOCK * BLOCK, i / BLOCK)
    requires if level + 1 <= top then Linked(own, up) else AllNull(up, 0, |up|)
    requires level == top ==> forall j :: j >= BLOCK ==> At(own, j) == NULLKEY
    ensures Front(w, own, up, top, level + 1, i / BLOCK, At(w, i / BLOCK), force)
  {
    var p := i / BLOCK;
    WrittenIsLinked(child, mine, own, top, level, i, pair, force, w);
    ParentMonotone(child, w);
    FirstFromIs(w, p / BLOCK * BLOCK, p, p / BLOCK * BLOCK + BLOCK);
    if level + 1 <= top {
      KnownLevelAwaits(own, w, up, p, force);
    } else {
      BirthBlocks(own, w, level == top, p);
    }
  }

  /** When an earlier key leads the block, nothing above changes, and the block lies under the top. */
  lemma FrontStops(child: seq<int>, mine: seq<int>, own: seq<int>, top: nat, level: nat, i: nat, pair: int,
                   force: bool, w: seq<int>, j: nat)
    requires Front(child, mine, own, top, level, i, pair, force)
    requires WrittenOver(own, if level == 0 then NULLKEY else At(child, 0), i / BLOCK, pair, force, w)
    requires i / BLOCK / BLOCK * BLOCK <= j < i / BLOCK
    requires At(w, j) != NULLKEY && AllNull(w, i / BLOCK / BLOCK * BLOCK, j)
    requires level == top ==> forall x :: x >= BLOCK ==> At(own, x) == NULLKEY
    ensures level <= top ==> SameBut(w, own, i / BLOCK) && At(own, j) != NULLKEY
    ensures level > top ==> j == 0
    ensures level >= top ==> i / BLOCK < BLOCK
  {
    WrittenIsLinked(child, mine, own, top, level, i, pair, force, w);
  }

  ghost function Before(was: seq<GapVector>, top: nat, level: nat): seq<int>
    requires |was| == top + 1
  {
    if 0 < level <= top + 1 then was[level - 1].slots else []
  }

  /** The position's ancestor, level steps up. */
  function Ancestor(pos: nat, level: nat): nat {
    if level == 0 then pos else SlotAt(pos, level - 1)
  }

  ghost predicate LeadsAt(was: seq<GapVector>, pos: nat, k: nat)
    requires k < |was|
  {
    AllNull(was[k].slots, SlotAt(pos, k) / BLOCK * BLOCK, SlotAt(pos, k))
  }

  /** At each known level under the given one, no entry of the position's block comes before the position's own. */
  ghost predicate Leads(was: seq<GapVector>, top: nat, pos: nat, level: nat)
    requires |was| == top + 1
  {
    forall k :: 0 <= k < level && k <= top ==> LeadsAt(was, pos, k)
  }

  /** The top level has more than its first slot, or gets it by the write. */
  ghost predicate Widens(was: seq<GapVector>, top: nat, pos: nat)
    requires |was| == top + 1
  {
    SlotAt(pos, top) >= 1 || was[top].last >= 1
  }

  ghost predicate Shape(was: seq<GapVector>, cur: seq<GapVector>, top: nat, level: nat)
    requires |was| == top + 1
  {
    && |cur| == (if level > top then level else top) + 1
    && (forall k :: 0 <= k < |cur| ==> LevelOk(cur[k]))
    && (forall k :: 0 <= k < |cur| - 1 ==> cur[k].last >= 1)
    && (forall k :: level <= k <= top ==> cur[k] == was[k])
    && (level > top ==> cur[level].last == 0)
    && cur[0].elements >= (if level > 0 then 1 else 0)
  }

  /** Which levels are without their head afterwards: those that were and are not written there, and one newly lost. */
  ghost predicate HeadlessAfter(was: seq<GapVector>, top: nat, pos: nat, k: nat)
    requires |was| == top + 1
  {
    if k <= top then HeadlessAt(was, k) && SlotAt(pos, k) != 0 else k == top + 1 && LostHead(was, top, pos)
  }

  /** Level k has been written: it sums up the level below it, and keeps what it had in use. */
  ghost predicate LevelDone(ks: seq<int>, was: seq<GapVector>, cur: seq<GapVector>, top: nat, pos: nat, k: nat)
    requires |was| == top + 1
  {
    && k < |cur|
    && Linked(Below(ks, cur, k), cur[k].slots)
    && (k == 0 ==> Exact(ks, cur[0].slots))
    && (HeadlessAt(cur, k) <==> HeadlessAfter(was, top, pos, k))
    && (k <= top ==> forall j :: At(was[k].slots, j) != NULLKEY ==> At(cur[k].slots, j) != NULLKEY)
    && (k == top + 1 ==> (At(cur[k].slots, 1) != NULLKEY <==> SlotAt(pos, k) == 1))
  }

  /** The settled levels below the front. */
  ghost predicate Under(ks: seq<int>, was: seq<GapVector>, cur: seq<GapVector>, top: nat, pos: nat, level: nat)
    requires |was| == top + 1
  {
    forall k: nat :: k < level ==> LevelDone(ks, was, cur, top, pos, k)
  }

  /** Levels under `level` are settled, those from it on are as they were, and the front stands at it. */
  ghost predicate Rising(ks: seq<int>, was: seq<GapVector>, cur: seq<GapVector>, top: nat, pos: nat,
                         level: nat, i: nat, pair: int, force: bool)
    requires |was| == top + 1
  {
    && Shape(was, cur, top, level)
    && i == Ancestor(pos, level)
    && Under(ks, was, cur, top, pos, level)
    && Leads(was, top, pos, level)
    && (level > top ==> Widens(was, top, pos))
    && (forall n: nat :: SlotAt(pos, n) == 0 && Fits(was, n) ==> level <= n)
    && Front(Below(ks, cur, level), Before(was, top, level), cur[level].slots, top, level, i, pair, force)
  }

  ghost predicate WrittenLevel(cur: seq<GapVector>, level: nat, head: int, p: nat, pair: int, force: bool, w: GapVector)
    requires level < |cur|
  {
    && WrittenOver(cur[level].slots, head, p, pair, force, w.slots)
    && LevelOk(w)
    && w.last == (if p > cur[level].last then p else cur[level].last)
    && (level == 0 && cur[0].elements >= 0 && (cur[0].elements >= 1 || At(cur[0].slots, p) == NULLKEY)
        ==> w.elements >= 1)
  }

  lemma LevelSettles(ks: seq<int>, was: seq<GapVector>, cur: seq<GapVector>, top: nat, pos: nat, level: nat,
                     i: nat, pair: int, force: bool, next: seq<GapVector>)
    requires UpperOk(was, top) && level < |cur| && level < |next| && (level <= top ==> cur[level] == was[level])
    requires i == Ancestor(pos, level) && (forall k :: 0 <= k < level ==> next[k] == cur[k])
    requires Front(Below(ks, cur, level), Before(was, top, level), cur[level].slots, top, level, i, pair, force)
    requires WrittenOver(cur[level].slots, if level == 0 then NULLKEY else At(Below(ks, cur, level), 0), i / BLOCK,
                         pair, force, next[level].slots)
    ensures LevelDone(ks, was, next, top, pos, level)
  {
    var child, mine, own := Below(ks, cur, level), Before(was, top, level), cur[level].slots;
    assert SlotAt(pos, level) == i / BLOCK;
    assert Below(ks, next, level) == child;
    WrittenIsLinked(child, mine, own, top, level, i, pair, force, next[level].slots);
  }

  lemma UnderGrows(ks: seq<int>, was: seq<GapVector>, cur: seq<GapVector>, top: nat, pos: nat, level: nat,
                   next: seq<GapVector>)
    requires |was| == top + 1 && level < |cur| && level < |next|
    requires Under(ks, was, cur, top, pos, level)
    requires forall k :: 0 <= k < level ==> next[k] == cur[k]
    requires LevelDone(ks, was, next, top, pos, level)
    ensures Under(ks, was, next, top, pos, level + 1)
  {
    forall k: nat | k < level + 1
      ensures LevelDone(ks, was, next, top, pos, k)
    {
      assert k < level ==> LevelDone(ks, was, cur, top, pos, k);
    }
  }

  lemma ShapeGoesOn(was: seq<GapVector>, cur: seq<GapVector>, top: nat, level: nat, head: int, p: nat, pair: int,
                    force: bool, w: GapVector, next: seq<GapVector>)
    requires UpperOk(was, top) && Shape(was, cur, top, level)
    requires WrittenLevel(cur, level, head, p, pair, force, w) && w.last >= 1
    requires next == cur[level := w] + (if level + 1 == |cur| then [NewVector()] else [])
    ensures Shape(was, next, top, level + 1)
  {
  }

  lemma ClimbStarts(ks: seq<int>, vec: seq<GapVector>, top: nat, key: int, pos: nat, force: bool)
    requires key != NULLKEY && UpperOk(vec, top)
    requires NonDecreasing(ks) && AwaitsWrite(ks, vec[0].slots, pos / BLOCK, key, force)
    ensures Rising(ks, vec, vec, top, pos, 0, pos, key, force)
  {
  }

  /** The level above the front: linked to the front's old content, or new and empty. */
  lemma NextUp(was: seq<GapVector>, cur: seq<GapVector>, top: nat, level: nat, w: GapVector, next: seq<GapVector>)
    requires UpperOk(was, top) && Shape(was, cur, top, level) && level < |cur|
    requires next == cur[level := w] + (if level + 1 == |cur| then [NewVector()] else [])
    ensures level + 1 < |next| && next[level] == w && forall k :: 0 <= k < level ==> next[k] == cur[k]
    ensures level + 1 <= top ==> Linked(cur[level].slots, next[level + 1].slots)
    ensures level + 1 > top ==> AllNull(next[level + 1].slots, 0, |next[level + 1].slots|)
    ensures level == top ==> forall j :: j >= BLOCK ==> At(cur[level].slots, j) == NULLKEY
    ensures level <= top ==> cur[level] == was[level]
  {
    assert level + 1 <= top ==> LinkOk(was, level + 1);
  }

  lemma LeadsOn(was: seq<GapVector>, top: nat, pos: nat, level: nat, w: seq<int>)
    requires |was| == top + 1 && Leads(was, top, pos, level)
    requires level <= top ==> SameBut(w, was[level].slots, SlotAt(pos, level))
    requires AllNull(w, SlotAt(pos, level) / BLOCK * BLOCK, SlotAt(pos, level))
    ensures Leads(was, top, pos, level + 1)
  {
    if level <= top {
      assert LeadsAt(was, pos, level);
    }
  }

  lemma RoomOn(was: seq<GapVector>, cur: seq<GapVector>, top: nat, pos: nat, level: nat, last: nat)
    requires |was| == top + 1 && Shape(was, cur, top, level)
    requires forall n: nat :: SlotAt(pos, n) == 0 && Fits(was, n) ==> level <= n
    requires last >= 1 && last == if SlotAt(pos, level) > cur[level].last then SlotAt(pos, level) else cur[level].last
    ensures forall n: nat :: SlotAt(pos, n) == 0 && Fits(was, n) ==> level + 1 <= n
    ensures level == top ==> Widens(was, top, pos)
  {
    if Fits(was, level) {
      assert cur[level].last == 0;
    }
  }

  lemma FrontRises(ks: seq<int>, was: seq<GapVector>, cur: seq<GapVector>, top: nat, level: nat,
                   i: nat, pair: int, force: bool, head: int, w: GapVector, next: seq<GapVector>)
    requires UpperOk(was, top) && Shape(was, cur, top, level)
    requires Front(Below(ks, cur, level), Before(was, top, level), cur[level].slots, top, level, i, pair, force)
    requires head == if level == 0 then NULLKEY else At(cur[level - 1].slots, 0)
    requires WrittenOver(cur[level].slots, head, i / BLOCK, pair, force, w.slots)
    requires AllNull(w.slots, i / BLOCK / BLOCK * BLOCK, i / BLOCK)
    requires next == cur[level := w] + (if level + 1 == |cur| then [NewVector()] else [])
    ensures level + 1 < |next| && next[level] == w && forall k :: 0 <= k < level ==> next[k] == cur[k]
    ensures Front(Below(ks, next, level + 1), Before(was, top, level + 1), next[level + 1].slots, top, level + 1,
                  i / BLOCK, At(w.slots, i / BLOCK), force)
    ensures level <= top ==> SameBut(w.slots, was[level].slots, i / BLOCK)
  {
    var child, mine, own := Below(ks, cur, level), Before(was, top, level), cur[level].slots;
    NextUp(was, cur, top, level, w, next);
    WrittenIsLinked(child, mine, own, top, level, i, pair, force, w.slots);
    FrontMovesUp(child, mine, own, next[level + 1].slots, top, level, i, pair, force, w.slots);
  }

  lemma ClimbGoesOn(ks: seq<int>, was: seq<GapVector>, cur: seq<GapVector>, top: nat, pos: nat,
                    level: nat, i: nat, pair: int, force: bool, head: int, w: GapVector, next: seq<GapVector>)
    requires UpperOk(was, top)
    requires Rising(ks, was, cur, top, pos, level, i, pair, force)
    requires head == if level == 0 then NULLKEY else At(cur[level - 1].slots, 0)
    requires WrittenLevel(cur, level, head, i / BLOCK, pair, force, w)
    requires AllNull(w.slots, i / BLOCK / BLOCK * BLOCK, i / BLOCK) && w.last >= 1
    requires next == cur[level := w] + (if level + 1 == |cur| then [NewVector()] else [])
    ensures Rising(ks, was, next, top, pos, level + 1, i / BLOCK, At(w.slots, i / BLOCK), force)
  {
    hide Under, LevelDone, Leads, Fits, Widens, Front, AllNull, LevelOk, SameBut;
    assert SlotAt(pos, level) == i / BLOCK;
    ShapeGoesOn(was, cur, top, level, head, i / BLOCK, pair, force, w, next);
    FrontRises(ks, was, cur, top, level, i, pair, force, head, w, next);
    LevelSettles(ks, was, cur, top, pos, level, i, pair, force, next);
    UnderGrows(ks, was, cur, top, pos, level, next);
    LeadsOn(was, top, pos, level, w.slots);
    RoomOn(was, cur, top, pos, level, w.last);
  }

  /** The write needs a level above the top one. */
  ghost predicate Raises(was: seq<GapVector>, top: nat, pos: nat)
    requires |was| == top + 1
  {
    Widens(was, top, pos) && Leads(was, top, pos, top + 1)
  }

  /**
    What an update leaves. The bottom level is exact for ks, the upper ones but for lost heads. No head is missing
    exactly if no entry came before the written one, for then the climb wrote every head anew, or if none was missing
    before and none was lost. A head newly lost keeps the entry next to it exactly if that is what was written.
   */
  ghost predicate Settled(ks: seq<int>, was: seq<GapVector>, top: nat, pos: nat, now: seq<GapVector>)
    requires |was| == top + 1
  {
    && |now| > top
    && IndexOk(ks, now, |now| - 1)
    && (Tight(now) <==> AllNull(was[0].slots, 0, pos / BLOCK) || (Tight(was) && !LostHead(was, top, pos)))
    && (Sound(was) ==> (Sound(now) <==> (LostHead(was, top, pos) ==> SlotAt(pos, top + 1) == 1)))
    && (LostHead(was, top, pos) ==> |now| >= top + 3 && HeadlessAt(now, top + 1))
    && (|now| > top + 1 <==> Raises(was, top, pos))
    && (forall n: nat :: SlotAt(pos, n) == 0 && Fits(was, n) ==> Fits(now, n))
  }

  ghost predicate ShapeDone(was: seq<GapVector>, now: seq<GapVector>, top: nat, level: nat)
    requires |was| == top + 1
  {
    && |now| == (if level > top then level else top) + 1
    && (forall k :: 0 <= k < |now| ==> LevelOk(now[k]))
    && (forall k :: 0 <= k < |now| - 1 ==> now[k].last >= 1)
    && (forall k :: level < k <= top ==> now[k] == was[k])
    && now[0].elements >= 1
    && now[|now| - 1].last < BLOCK
  }

  lemma ShapeEnds(was: seq<GapVector>, cur: seq<GapVector>, top: nat, level: nat, head: int, p: nat, pair: int,
                  force: bool, w: GapVector, next: seq<GapVector>)
    requires UpperOk(was, top) && Shape(was, cur, top, level)
    requires level < |cur|
    requires WrittenLevel(cur, level, head, p, pair, force, w)
    requires level >= top ==> p < BLOCK
    requires next == cur[level := w]
    ensures ShapeDone(was, next, top, level)
  {
  }

  /** Where and how a climb has ended: the levels up to `level` are settled, and those above it are as they were. */
  ghost predicate Stopped(ks: seq<int>, was: seq<GapVector>, now: seq<GapVector>, top: nat, pos: nat, level: nat)
    requires |was| == top + 1
  {
    && ShapeDone(was, now, top, level)
    && Under(ks, was, now, top, pos, level + 1)
    && Leads(was, top, pos, level)
    && (level < top ==> LinkOk(now, level + 1) && (HeadlessAt(now, level + 1) <==> HeadlessAt(was, level + 1)))
    && (level < top ==> !LeadsAt(was, pos, level))
    && (level <= top ==> !LostHead(was, top, pos) && !Raises(was, top, pos))
    && (level > top ==> Widens(was, top, pos))
    && (LostHead(was, top, pos) ==> level >= top + 2)
  }

  lemma AboveUntouched(ks: seq<int>, was: seq<GapVector>, now: seq<GapVector>, top: nat, pos: nat, level: nat, k: nat)
    requires UpperOk(was, top) && Stopped(ks, was, now, top, pos, level) && level < k <= top
    ensures LinkOk(now, k) && (HeadlessAt(now, k) <==> HeadlessAt(was, k)) && now[k] == was[k]
  {
    if k > level + 1 {
      assert LinkOk(was, k);
    }
  }

  lemma StoppedIsOk(ks: seq<int>, was: seq<GapVector>, now: seq<GapVector>, top: nat, pos: nat, level: nat)
    requires UpperOk(was, top) && Stopped(ks, was, now, top, pos, level)
    ensures IndexOk(ks, now, |now| - 1)
  {
    assert LevelDone(ks, was, now, top, pos, 0);
    forall k | 1 <= k < |now|
      ensures LinkOk(now, k)
    {
      if k <= level {
        assert LevelDone(ks, was, now, top, pos, k);
      } else {
        AboveUntouched(ks, was, now, top, pos, level, k);
      }
    }
  }

  /** With no entry before the position's at the bottom level, there is none at any level. */
  lemma {:induction false} NothingBeforeUp(was: seq<GapVector>, top: nat, pos: nat, k: nat)
    requires UpperOk(was, top) && k <= top && AllNull(was[0].slots, 0, pos / BLOCK)
    ensures AllNull(was[k].slots, 0, SlotAt(pos, k))
  {
    if k > 0 {
      NothingBeforeUp(was, top, pos, k - 1);
      assert LinkOk(was, k);
      forall p | 0 <= p < SlotAt(pos, k)
        ensures At(was[k].slots, p) == NULLKEY
      {
        assert AllNull(was[k - 1].slots, BLOCK * p, BLOCK * p + BLOCK);
      }
    }
  }

  /** So every head is written anew. */
  lemma FreshHeads(was: seq<GapVector>, top: nat, pos: nat, k: nat)
    requires UpperOk(was, top) && AllNull(was[0].slots, 0, pos / BLOCK)
    ensures !HeadlessAfter(was, top, pos, k) && !LostHead(was, top, pos)
    ensures k <= top ==> LeadsAt(was, pos, k)
  {
    NothingBeforeUp(was, top, pos, top);
    assert !LostHead(was, top, pos);
    if k <= top {
      NothingBeforeUp(was, top, pos, k);
    }
    if 0 < k <= top && SlotAt(pos, k) != 0 {
      NothingBeforeUp(was, top, pos, k - 1);
      assert AllNull(was[k - 1].slots, 0, BLOCK);
    }
  }

  /**
    The other way down: under levels that have their heads, a position that leads all the way to slot 0 is the first.
   */
  lemma {:induction false} NothingBeforeDown(was: seq<GapVector>, top: nat, pos: nat, k: nat, m: nat)
    requires UpperOk(was, top) && m < k <= top + 1 && Leads(was, top, pos, k) && SlotAt(pos, k) == 0
    requires forall j :: 1 <= j < k ==> !HeadlessAt(was, j)
    ensures AllNull(was[m].slots, 0, SlotAt(pos, m))
    decreases k - m
  {
    assert LeadsAt(was, pos, m);
    assert SlotAt(pos, m + 1) == SlotAt(pos, m) / BLOCK;
    if m + 1 < k {
      NothingBeforeDown(was, top, pos, k, m + 1);
      assert LinkOk(was, m + 1) && !HeadlessAt(was, m + 1);
      forall p | 0 <= p < SlotAt(pos, m)
        ensures At(was[m].slots, p) == NULLKEY
      {
        var b := p / BLOCK;
        if b < SlotAt(pos, m + 1) {
          assert At(was[m + 1].slots, b) == First(was[m].slots, b);
        }
      }
    }
  }

  lemma {:induction false} LowestHeadless(vec: seq<GapVector>, k0: nat) returns (k: nat)
    requires HeadlessAt(vec, k0)
    ensures HeadlessAt(vec, k) && forall j :: 1 <= j < k ==> !HeadlessAt(vec, j)
  {
    k := k0;
    if j :| 1 <= j < k0 && HeadlessAt(vec, j) {
      k := LowestHeadless(vec, j);
    }
  }

  /** A head that was missing still is, unless the position is the first of all. */
  lemma StaysHeadless(ks: seq<int>, was: seq<GapVector>, now: seq<GapVector>, top: nat, pos: nat, level: nat, k: nat)
    requires UpperOk(was, top) && Stopped(ks, was, now, top, pos, level)
    requires HeadlessAt(was, k) && forall j :: 1 <= j < k ==> !HeadlessAt(was, j)
    requires !AllNull(was[0].slots, 0, pos / BLOCK)
    ensures HeadlessAt(now, k)
  {
    if k > level {
      AboveUntouched(ks, was, now, top, pos, level, k);
    } else {
      if SlotAt(pos, k) == 0 {
        NothingBeforeDown(was, top, pos, k, 0);
      }
      assert LevelDone(ks, was, now, top, pos, k);
    }
  }

  /** A level without its head was so before, or has just been added over one without. */
  lemma NotNewlyHeadless(ks: seq<int>, was: seq<GapVector>, now: seq<GapVector>, top: nat, pos: nat, level: nat, k: nat)
    requires UpperOk(was, top) && Stopped(ks, was, now, top, pos, level) && k < |now|
    ensures HeadlessAt(now, k) ==> HeadlessAt(was, k) || (k == top + 1 && LostHead(was, top, pos))
    ensures k <= top && At(was[k].slots, 1) != NULLKEY ==> At(now[k].slots, 1) != NULLKEY
  {
    if k > level {
      AboveUntouched(ks, was, now, top, pos, level, k);
    } else {
      assert LevelDone(ks, was, now, top, pos, k);
    }
  }

  lemma StoppedTight(ks: seq<int>, was: seq<GapVector>, now: seq<GapVector>, top: nat, pos: nat, level: nat)
    requires UpperOk(was, top) && Stopped(ks, was, now, top, pos, level)
    ensures Tight(now) <==> AllNull(was[0].slots, 0, pos / BLOCK) || (Tight(was) && !LostHead(was, top, pos))
  {
    if AllNull(was[0].slots, 0, pos / BLOCK) {
      forall k | 1 <= k < |now|
        ensures !HeadlessAt(now, k)
      {
        FreshHeads(was, top, pos, k);
        FreshHeads(was, top, pos, level);
        assert LevelDone(ks, was, now, top, pos, k);
      }
    } else if LostHead(was, top, pos) {
      assert LevelDone(ks, was, now, top, pos, top + 1);
      assert HeadlessAt(now, top + 1);
    } else if Tight(was) {
      forall k | 1 <= k < |now|
        ensures !HeadlessAt(now, k)
      {
        NotNewlyHeadless(ks, was, now, top, pos, level, k);
      }
    } else {
      var k0 :| 1 <= k0 < |was| && HeadlessAt(was, k0);
      var k := LowestHeadless(was, k0);
      StaysHeadless(ks, was, now, top, pos, level, k);
    }
  }

  lemma StoppedRaised(ks: seq<int>, was: seq<GapVector>, now: seq<GapVector>, top: nat, pos: nat, level: nat)
    requires UpperOk(was, top) && Stopped(ks, was, now, top, pos, level)
    ensures |was| == top + 1 && |now| > top
    ensures LostHead(was, top, pos) ==> |now| >= top + 3 && HeadlessAt(now, top + 1)
    ensures LostHead(was, top, pos) ==> (At(now[top + 1].slots, 1) != NULLKEY <==> SlotAt(pos, top + 1) == 1)
    ensures |now| > top + 1 <==> Raises(was, top, pos)
  {
    if LostHead(was, top, pos) {
      assert LevelDone(ks, was, now, top, pos, top + 1);
    }
  }

  lemma StoppedSound(ks: seq<int>, was: seq<GapVector>, now: seq<GapVector>, top: nat, pos: nat, level: nat)
    requires UpperOk(was, top) && Stopped(ks, was, now, top, pos, level) && Sound(was)
    ensures |was| == top + 1
    ensures Sound(now) <==> (LostHead(was, top, pos) ==> SlotAt(pos, top + 1) == 1)
  {
    hide Stopped, UpperOk, LostHead, LevelDone, Headless, Raises;
    StoppedRaised(ks, was, now, top, pos, level);
    forall k | 1 <= k < |now| && HeadlessAt(now, k) && (LostHead(was, top, pos) ==> SlotAt(pos, top + 1) == 1)
      ensures At(now[k].slots, 1) != NULLKEY
    {
      NotNewlyHeadless(ks, was, now, top, pos, level, k);
    }
  }

  lemma StoppedSettles(ks: seq<int>, was: seq<GapVector>, now: seq<GapVector>, top: nat, pos: nat, level: nat)
    requires UpperOk(was, top) && Stopped(ks, was, now, top, pos, level)
    requires forall n: nat :: SlotAt(pos, n) == 0 && Fits(was, n) ==> Fits(now, n)
    ensures Settled(ks, was, top, pos, now)
  {
    hide Stopped, UpperOk, IndexOk, Tight, Sound, LostHead, HeadlessAt, Raises, Fits, AllNull;
    StoppedRaised(ks, was, now, top, pos, level);
    StoppedIsOk(ks, was, now, top, pos, level);
    StoppedTight(ks, was, now, top, pos, level);
    if Sound(was) {
      StoppedSound(ks, was, now, top, pos, level);
    }
  }

  lemma RoomKept(was: seq<GapVector>, cur: seq<GapVector>, now: seq<GapVector>, top: nat, pos: nat, level: nat,
                 w: GapVector)
    requires |was| == top + 1 && Shape(was, cur, top, level) && now == cur[level := w]
    requires forall n: nat :: SlotAt(pos, n) == 0 && Fits(was, n) ==> level <= n
    requires w.last == if SlotAt(pos, level) > cur[level].last then SlotAt(pos, level) else cur[level].last
    ensures forall n: nat :: SlotAt(pos, n) == 0 && Fits(was, n) ==> Fits(now, n)
  {
  }

  /** The climb ends where nothing but the first slot of a level is in use. */
  lemma ClimbTopsOut(ks: seq<int>, was: seq<GapVector>, cur: seq<GapVector>, top: nat, pos: nat,
                     level: nat, i: nat, pair: int, force: bool, head: int, w: GapVector, next: seq<GapVector>)
    requires UpperOk(was, top)
    requires Rising(ks, was, cur, top, pos, level, i, pair, force)
    requires head == if level == 0 then NULLKEY else At(cur[level - 1].slots, 0)
    requires WrittenLevel(cur, level, head, i / BLOCK, pair, force, w)
    requires w.last < 1 && next == cur[level := w]
    ensures Settled(ks, was, top, pos, next)
  {
    hide Front, Under, LevelDone, Leads, Fits, Linked, Settled;
    assert SlotAt(pos, level) == i / BLOCK;
    assert level >= top;
    ShapeEnds(was, cur, top, level, head, i / BLOCK, pair, force, w, next);
    LevelSettles(ks, was, cur, top, pos, level, i, pair, force, next);
    UnderGrows(ks, was, cur, top, pos, level, next);
    RoomKept(was, cur, next, top, pos, level, w);
    assert LostHead(was, top, pos) ==> level >= top + 2 by {
      assert SlotAt(pos, top + 1) == SlotAt(pos, top) / BLOCK;
    }
    StoppedSettles(ks, was, next, top, pos, level);
  }

  lemma HiddenBelow(was: seq<GapVector>, top: nat, level: nat, w: seq<int>, next: seq<GapVector>, pos: nat, j: nat)
    requires UpperOk(was, top) && level <= top && |next| == top + 1 && next[level].slots == w
    requires forall k :: level < k <= top ==> next[k] == was[k]
    requires SlotAt(pos, level) / BLOCK * BLOCK <= j < SlotAt(pos, level)
    requires At(w, j) != NULLKEY && AllNull(w, SlotAt(pos, level) / BLOCK * BLOCK, j)
    requires SameBut(w, was[level].slots, SlotAt(pos, level))
    ensures !LeadsAt(was, pos, level) && !LostHead(was, top, pos) && !Raises(was, top, pos)
    ensures level < top ==> LinkOk(next, level + 1) && (HeadlessAt(next, level + 1) <==> HeadlessAt(was, level + 1))
  {
    assert At(was[level].slots, j) == At(w, j);
    UnderTop(was, top, level, j, pos);
    if level < top {
      assert LinkOk(was, level + 1);
      HiddenLink(was[level].slots, w, SlotAt(pos, level), j, was[level + 1].slots);
    }
  }

  lemma HiddenAbove(ks: seq<int>, was: seq<GapVector>, next: seq<GapVector>, top: nat, pos: nat, level: nat)
    requires |was| == top + 1 && Under(ks, was, next, top, pos, level + 1) && level > top
    requires level < |next| && At(next[level].slots, 0) != NULLKEY
    ensures LostHead(was, top, pos) ==> level >= top + 2
  {
    assert LevelDone(ks, was, next, top, pos, level);
  }

  /** The climb ends where an earlier key leads the block. */
  lemma ClimbIsHidden(ks: seq<int>, was: seq<GapVector>, cur: seq<GapVector>, top: nat, pos: nat,
                      level: nat, i: nat, pair: int, force: bool, head: int, w: GapVector, next: seq<GapVector>, j: nat)
    requires UpperOk(was, top)
    requires Rising(ks, was, cur, top, pos, level, i, pair, force)
    requires head == if level == 0 then NULLKEY else At(cur[level - 1].slots, 0)
    requires WrittenLevel(cur, level, head, i / BLOCK, pair, force, w)
    requires i / BLOCK / BLOCK * BLOCK <= j < i / BLOCK
    requires At(w.slots, j) != NULLKEY && AllNull(w.slots, i / BLOCK / BLOCK * BLOCK, j)
    requires next == cur[level := w]
    ensures Settled(ks, was, top, pos, next)
  {
    hide Under, LevelDone, Fits, Linked, Settled, Raises, Widens, Leads, Headless, AllNull, LevelOk;
    var child, mine, own := Below(ks, cur, level), Before(was, top, level), cur[level].slots;
    assert SlotAt(pos, level) == i / BLOCK;
    NextUp(was, cur, top, level, w, next + (if level + 1 == |cur| then [NewVector()] else []));
    FrontStops(child, mine, own, top, level, i, pair, force, w.slots, j);
    hide Front;
    ShapeEnds(was, cur, top, level, head, i / BLOCK, pair, force, w, next);
    LevelSettles(ks, was, cur, top, pos, level, i, pair, force, next);
    UnderGrows(ks, was, cur, top, pos, level, next);
    RoomKept(was, cur, next, top, pos, level, w);
    if level <= top {
      HiddenBelow(was, top, level, w.slots, next, pos, j);
    } else {
      HiddenAbove(ks, was, next, top, pos, level);
    }
    StoppedSettles(ks, was, next, top, pos, level);
  }
}
