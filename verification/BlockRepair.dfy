/** What taking a key out of the bottom level does to the levels above. */
module BlockRepair {
  import opened Gapped
  import opened BlockLevels
  import opened BlockClimb

  /** An array position in the block with the given number. */
  function InBlock(b: nat): nat {
    BLOCK * b
  }

  /**
    A delete has changed the entry of position pos at the level below; this level is yet to follow, those from it on
    are as they were. The heads that were missing still are, but for those written anew on the way.
   */
  ghost predicate Repairing(was: seq<GapVector>, cur: seq<GapVector>, top: nat, level: nat, pos: nat) {
    && |was| == |cur| == top + 1
    && 1 <= level <= top + 1
    && (forall k :: 0 <= k <= top ==> LevelOk(cur[k]) && cur[k].last == was[k].last)
    && (forall k :: level <= k <= top ==> cur[k] == was[k])
    && (forall k :: 1 <= k < level ==> LinkOk(cur, k))
    && (forall k :: 1 <= k < level ==> (HeadlessAt(cur, k) <==> HeadlessAt(was, k) && SlotAt(pos, k) != 0))
    && Leads(was, top, pos, level - 1)
    && SameBut(cur[level - 1].slots, was[level - 1].slots, SlotAt(pos, level - 1))
    && (At(was[level - 1].slots, SlotAt(pos, level - 1)) != NULLKEY || SlotAt(pos, level - 1) == 0)
  }

  lemma RepairStarts(was: seq<GapVector>, top: nat, b: nat, nkey: int, cur: seq<GapVector>)
    requires UpperOk(was, top) && b <= was[0].last && was[0].slots[b] != NULLKEY
    requires cur == was[0 := was[0].(slots := was[0].slots[b := nkey])]
    ensures Repairing(was, cur, top, 1, InBlock(b)) && SlotAt(InBlock(b), 0) == b && cur[0].elements >= 1
  {
    assert forall j :: At(cur[0].slots, j) == if j == b then nkey else At(was[0].slots, j);
    assert At(was[0].slots, b) != NULLKEY;
  }

  lemma RepairSizes(was: seq<GapVector>, cur: seq<GapVector>, top: nat, level: nat, pos: nat)
    requires Repairing(was, cur, top, level, pos)
    ensures |cur| == |was| == top + 1 && 1 <= level <= top + 1
  {
  }

  lemma RepairedLevel(mine: seq<int>, child: seq<int>, own: seq<int>, i: nat, w: seq<int>)
    requires Linked(mine, own) && SameBut(child, mine, i)
    requires forall j :: At(w, j) == if j == i / BLOCK then First(child, i / BLOCK) else At(own, j)
    ensures Linked(child, w) && (Headless(child, w) <==> Headless(mine, own) && i / BLOCK != 0)
  {
    OtherBlocksSame(mine, child, i);
    if i / BLOCK != 0 {
      HeadUnmoved(mine, child, i);
    }
  }

  lemma RepairedSoFar(was: seq<GapVector>, cur: seq<GapVector>, level: nat, pos: nat, w: GapVector)
    requires |was| == |cur| && 1 <= level < |cur|
    requires forall k :: 1 <= k < level ==> LinkOk(cur, k)
    requires forall k :: 1 <= k < level ==> (HeadlessAt(cur, k) <==> HeadlessAt(was, k) && SlotAt(pos, k) != 0)
    requires Linked(cur[level - 1].slots, w.slots)
    requires Headless(cur[level - 1].slots, w.slots) <==> HeadlessAt(was, level) && SlotAt(pos, level) != 0
    ensures var next := cur[level := w];
            && (forall k :: 1 <= k < level + 1 ==> LinkOk(next, k))
            && (forall k :: 1 <= k < level + 1 ==> (HeadlessAt(next, k) <==> HeadlessAt(was, k) && SlotAt(pos, k) != 0))
  {
    hide Linked, Headless;
    var next := cur[level := w];
    forall k | 1 <= k < level + 1
      ensures LinkOk(next, k) && (HeadlessAt(next, k) <==> HeadlessAt(was, k) && SlotAt(pos, k) != 0)
    {
      assert k < level ==> LinkOk(cur, k) && (HeadlessAt(cur, k) <==> HeadlessAt(was, k) && SlotAt(pos, k) != 0);
    }
  }

  lemma RepairUp(mine: seq<int>, own: seq<int>, i: nat)
    requires Linked(mine, own) && (At(mine, i) != NULLKEY || i == 0)
    ensures At(own, i / BLOCK) != NULLKEY || i / BLOCK == 0
  {
    assert i / BLOCK != 0 ==> At(own, i / BLOCK) == First(mine, i / BLOCK);
  }

  lemma RepairStep(was: seq<GapVector>, cur: seq<GapVector>, top: nat, level: nat, pos: nat, w: GapVector)
    requires UpperOk(was, top) && Repairing(was, cur, top, level, pos) && level <= top
    requires AllNull(cur[level - 1].slots, SlotAt(pos, level - 1) / BLOCK * BLOCK, SlotAt(pos, level - 1))
    requires var p := SlotAt(pos, level); LevelOk(w) && w.last == (if p > cur[level].last then p else cur[level].last)
    requires forall j :: At(w.slots, j) ==
               if j == SlotAt(pos, level) then First(cur[level - 1].slots, SlotAt(pos, level))
                 else At(cur[level].slots, j)
    ensures LeadsAt(was, pos, level - 1) && w.last == was[level].last
    ensures Linked(cur[level - 1].slots, w.slots) && SameBut(w.slots, was[level].slots, SlotAt(pos, level))
    ensures Headless(cur[level - 1].slots, w.slots) <==> HeadlessAt(was, level) && SlotAt(pos, level) != 0
    ensures At(was[level].slots, SlotAt(pos, level)) != NULLKEY || SlotAt(pos, level) == 0
  {
    var i := SlotAt(pos, level - 1);
    var child, mine, own := cur[level - 1].slots, was[level - 1].slots, was[level].slots;
    assert LinkOk(was, level) && SlotAt(pos, level) == i / BLOCK;
    RepairedLevel(mine, child, own, i, w.slots);
    RepairUp(mine, own, i);
    assert LevelOk(was[level]);
  }

  lemma RepairGoesUp(was: seq<GapVector>, cur: seq<GapVector>, top: nat, level: nat, pos: nat, w: GapVector)
    requires UpperOk(was, top) && Repairing(was, cur, top, level, pos) && level <= top
    requires AllNull(cur[level - 1].slots, SlotAt(pos, level - 1) / BLOCK * BLOCK, SlotAt(pos, level - 1))
    requires var p := SlotAt(pos, level); LevelOk(w) && w.last == (if p > cur[level].last then p else cur[level].last)
    requires forall j :: At(w.slots, j) ==
               if j == SlotAt(pos, level) then First(cur[level - 1].slots, SlotAt(pos, level))
                 else At(cur[level].slots, j)
    ensures Repairing(was, cur[level := w], top, level + 1, pos)
  {
    hide Linked, Headless, LevelOk, LeadsAt, SameBut, AllNull, First, UpperOk;
    RepairStep(was, cur, top, level, pos, w);
    RepairedSoFar(was, cur, level, pos, w);
  }

  /** Why a repair is over: an earlier entry leads the block, or there is no level left. */
  ghost predicate RepairOver(cur: seq<GapVector>, top: nat, level: nat, pos: nat, j: int)
    requires |cur| == top + 1 && 1 <= level
  {
    level <= top ==>
      var i := SlotAt(pos, level - 1);
      && i / BLOCK * BLOCK <= j < i
      && At(cur[level - 1].slots, j) != NULLKEY && AllNull(cur[level - 1].slots, i / BLOCK * BLOCK, j)
  }

  /** Which heads are missing after a delete: none that was not before, and one at whose first slot nothing changed. */
  ghost predicate HeadsAfterDelete(was: seq<GapVector>, now: seq<GapVector>, pos: nat) {
    && (forall k :: HeadlessAt(now, k) ==> HeadlessAt(was, k))
    && (forall k: nat :: SlotAt(pos, k) != 0 && HeadlessAt(was, k) ==> HeadlessAt(now, k))
  }

  lemma NothingDeleted(vec: seq<GapVector>, pos: nat)
    ensures HeadsAfterDelete(vec, vec, pos)
  {
  }

  lemma RepairedLink(was: seq<GapVector>, cur: seq<GapVector>, top: nat, level: nat, pos: nat, j: int, k: nat)
    requires UpperOk(was, top) && Repairing(was, cur, top, level, pos) && RepairOver(cur, top, level, pos, j)
    requires 1 <= k <= top
    ensures LinkOk(cur, k)
    ensures if k < level then HeadlessAt(cur, k) <==> HeadlessAt(was, k) && SlotAt(pos, k) != 0
            else HeadlessAt(cur, k) <==> HeadlessAt(was, k)
  {
    assert LinkOk(was, k);
    if k < level {
      assert LinkOk(cur, k);
    } else if k == level {
      HiddenLink(was[level - 1].slots, cur[level - 1].slots, SlotAt(pos, level - 1), j, was[level].slots);
    }
  }

  lemma RepairLeads(was: seq<GapVector>, cur: seq<GapVector>, top: nat, level: nat, pos: nat, j: int)
    requires UpperOk(was, top) && Repairing(was, cur, top, level, pos) && RepairOver(cur, top, level, pos, j)
    requires level <= top
    ensures !AllNull(was[0].slots, 0, pos / BLOCK)
  {
    assert At(was[level - 1].slots, j) == At(cur[level - 1].slots, j);
    if AllNull(was[0].slots, 0, pos / BLOCK) {
      NothingBeforeUp(was, top, pos, level - 1);
    }
  }

  lemma RepairTight(was: seq<GapVector>, cur: seq<GapVector>, top: nat, level: nat, pos: nat, j: int)
    requires UpperOk(was, top) && Repairing(was, cur, top, level, pos) && RepairOver(cur, top, level, pos, j)
    ensures Tight(cur) <==> Tight(was) || AllNull(was[0].slots, 0, pos / BLOCK)
  {
    if level <= top {
      RepairLeads(was, cur, top, level, pos, j);
    }
    if AllNull(was[0].slots, 0, pos / BLOCK) {
      forall k | 1 <= k < |cur|
        ensures !HeadlessAt(cur, k)
      {
        RepairedLink(was, cur, top, level, pos, j, k);
        FreshHeads(was, top, pos, k);
      }
    } else if Tight(was) {
      forall k | 1 <= k < |cur|
        ensures !HeadlessAt(cur, k)
      {
        RepairedLink(was, cur, top, level, pos, j, k);
      }
    } else {
      var k0 :| 1 <= k0 < |was| && HeadlessAt(was, k0);
      var k := LowestHeadless(was, k0);
      if k < level && SlotAt(pos, k) == 0 {
        NothingBeforeDown(was, top, pos, k, 0);
      }
      RepairedLink(was, cur, top, level, pos, j, k);
    }
  }

  /** A repair that has run out of levels, or met an earlier entry, leaves everything right. */
  lemma RepairEnds(was: seq<GapVector>, cur: seq<GapVector>, top: nat, level: nat, pos: nat, j: int, goup: bool)
    requires UpperOk(was, top) && Repairing(was, cur, top, level, pos) && cur[0].elements >= 1
    requires if goup then level == top + 1 else RepairOver(cur, top, level, pos, j)
    ensures UpperOk(cur, top) && HeadsAfterDelete(was, cur, pos)
    ensures Tight(cur) <==> Tight(was) || AllNull(was[0].slots, 0, pos / BLOCK)
    ensures forall n: nat :: Fits(was, n) ==> Fits(cur, n)
  {
    forall k | 1 <= k <= top
      ensures LinkOk(cur, k)
      ensures HeadlessAt(cur, k) ==> HeadlessAt(was, k)
      ensures SlotAt(pos, k) != 0 && HeadlessAt(was, k) ==> HeadlessAt(cur, k)
    {
      RepairedLink(was, cur, top, level, pos, j, k);
    }
    RepairTight(was, cur, top, level, pos, j);
  }
}
