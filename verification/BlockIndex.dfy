/** The multi-level block index as an object: its updates, its deletions and its search. */
module BlockIndex {
  import opened Gapped
  import opened BlockLevels
  import opened BlockClimb
  import opened BlockRepair
  import opened BlockSearch

  class JagBlock {
    var vec: seq<GapVector>
    var topLevel: nat
    var minKey: int
    var maxKey: int

    constructor ()
      ensures vec == [NewVector()] && topLevel == 0
      ensures minKey == NULLKEY && maxKey == NULLKEY
    {
      vec, topLevel := [NewVector()], 0;
      minKey, maxKey := NULLKEY, NULLKEY;
    }

    /** Is slot i of the level the first used slot of its block? If not, first is. */
    method IsPrimary(level: nat, i: nat) returns (primary: bool, first: nat)
      requires level < |vec| && i < |vec[level].slots| && vec[level].slots[i] != NULLKEY
      ensures i / BLOCK * BLOCK <= first <= i
      ensures AllNull(vec[level].slots, i / BLOCK * BLOCK, first) && At(vec[level].slots, first) != NULLKEY
      ensures primary <==> first == i
    {
      if i % BLOCK == 0 {
        return true, i;
      }
      var j := i / BLOCK * BLOCK;
      while vec[level].slots[j] == NULLKEY
        invariant i / BLOCK * BLOCK <= j <= i
        invariant AllNull(vec[level].slots, i / BLOCK * BLOCK, j)
        decreases i - j
      {
        j := j + 1;
      }
      return j == i, j;
    }

    /** Writes pair into its slot of the level, then fills an empty first slot from the level below. */
    method WriteLevel(level: nat, p: nat, pair: int, force: bool)
      requires level < |vec| && pair != NULLKEY
      requires LevelOk(vec[level]) && (level > 0 ==> LevelOk(vec[level - 1]))
      modifies this`vec
      ensures |vec| == |old(vec)| && vec == old(vec)[level := vec[level]]
      ensures WrittenLevel(old(vec), level, if level == 0 then NULLKEY else At(old(vec)[level - 1].slots, 0),
                           p, pair, force, vec[level])
      ensures At(vec[level].slots, p) != NULLKEY
    {
      var v := GrowTo(vec[level], p);
      v := Put(v, pair, p, force);
      if level > 0 {
        v := Fill(v, vec[level - 1].slots[0]);
      }
      vec := vec[level := v];
    }

    /**
      One round of a climb: writes the level, and either settles the index or moves the front up to a further level.
     */
    method ClimbRound(level: nat, i: nat, pair: int, force: bool,
                      ghost good: bool, ghost ks: seq<int>, ghost was: seq<GapVector>, ghost top: nat, ghost pos: nat)
      returns (goup: bool, up: int)
      requires topLevel == (if level > top then level else top) && Shaped(vec, topLevel) && pair != NULLKEY
      requires level > top ==> vec[level].last == 0
      requires good ==> UpperOk(was, top) && Rising(ks, was, vec, top, pos, level, i, pair, force)
      modifies this`vec, this`topLevel
      ensures Shaped(vec, topLevel) && up != NULLKEY
      ensures goup ==>
                && topLevel == (if level + 1 > top then level + 1 else top) && (i > 0 || level <= top)
                && (level + 1 > top ==> vec[level + 1].last == 0)
      ensures good && !goup ==> Settled(ks, was, top, pos, vec)
      ensures good && goup ==> Rising(ks, was, vec, top, pos, level + 1, i / BLOCK, up, force)
    {
      ghost var cur := vec;
      ghost var head := if level == 0 then NULLKEY else At(vec[level - 1].slots, 0);
      WriteLevel(level, i / BLOCK, pair, force);
      up := pair;
      if vec[level].last < 1 {
        if good {
          ClimbTopsOut(ks, was, cur, top, pos, level, i, pair, force, head, vec[level], vec);
        }
        return false, up;
      }
      var first;
      goup, first := IsPrimary(level, i / BLOCK);
      if !goup {
        if good {
          ClimbIsHidden(ks, was, cur, top, pos, level, i, pair, force, head, vec[level], vec, first);
        }
        return;
      }
      up := vec[level].slots[first];
      ghost var written := vec;
      if level + 1 > topLevel {
        topLevel := level + 1;
        vec := vec + [NewVector()];
      }
      assert vec == written + (if level + 1 == |cur| then [NewVector()] else []);
      if good {
        ClimbGoesOn(ks, was, cur, top, pos, level, i, pair, force, head, written[level], vec);
      }
    }

    /** The climb: one level at a time for as long as the written slot leads its block. */
    method Climb(key: int, pos: nat, force: bool, ghost ks: seq<int>)
      requires key != NULLKEY && Shaped(vec, topLevel)
      modifies this`vec, this`topLevel
      ensures Shaped(vec, topLevel)
      ensures UpperOk(old(vec), old(topLevel)) && NonDecreasing(ks)
              && AwaitsWrite(ks, old(vec)[0].slots, pos / BLOCK, key, force)
              ==> Settled(ks, old(vec), old(topLevel), pos, vec)
    {
      hide UpperOk, NonDecreasing, AwaitsWrite, Rising, Settled, LevelOk;
      ghost var was, top := vec, topLevel;
      ghost var good := UpperOk(vec, topLevel) && NonDecreasing(ks)
        && AwaitsWrite(ks, vec[0].slots, pos / BLOCK, key, force);
      if good {
        ClimbStarts(ks, vec, topLevel, key, pos, force);
      }
      var i: nat, level: nat, pair, goup := pos, 0, key, true;
      while goup
        invariant Shaped(vec, topLevel)
        invariant goup ==> topLevel == (if level > top then level else top) && pair != NULLKEY
        invariant goup && level > top ==> vec[level].last == 0
        invariant good && goup ==> Rising(ks, was, vec, top, pos, level, i, pair, force)
        invariant good && !goup ==> Settled(ks, was, top, pos, vec)
        decreases goup, i + (if level <= top then top - level + 1 else 0)
      {
        goup, pair := ClimbRound(level, i, pair, force, good, ks, was, top, pos);
        if goup {
          i, level := i / BLOCK, level + 1;
        }
      }
    }

    /**
      Notes that array position pos now holds key. If the index described every other position, it describes the keys
      ks afterwards; which heads it is without, and how many levels it has, is what Settled says. The answer tells
      whether the key is a new least or greatest one.
     */
    method UpdateIndex(key: int, pos: nat, force: bool, ghost ks: seq<int>) returns (rc: bool)
      requires key != NULLKEY && Shaped(vec, topLevel)
      modifies this
      ensures Shaped(vec, topLevel)
      ensures UpperOk(old(vec), old(topLevel)) && NonDecreasing(ks)
              && AwaitsWrite(ks, old(vec)[0].slots, pos / BLOCK, key, force)
              ==> Settled(ks, old(vec), old(topLevel), pos, vec)
      ensures maxKey == if key > old(maxKey) then key else old(maxKey)
      ensures minKey == if old(minKey) == NULLKEY || key < old(minKey) then key else old(minKey)
      ensures rc <==> maxKey != old(maxKey) || minKey != old(minKey)
    {
      rc := false;
      Climb(key, pos, force, ks);
      if key > maxKey {
        maxKey := key;
        rc := true;
      }
      if minKey == NULLKEY || key < minKey {
        minKey := key;
        rc := true;
      }
    }

    /** The entry of the level below that leads position pos's block there, looked for up to the position's own. */
    method FindLeader(below: seq<int>, i: nat) returns (found: bool, j: nat)
      ensures found ==> i / BLOCK * BLOCK <= j < i && AllNull(below, i / BLOCK * BLOCK, j)
                        && (j < |below| ==> below[j] != NULLKEY)
      ensures !found ==> AllNull(below, i / BLOCK * BLOCK, i)
    {
      j := i / BLOCK * BLOCK;
      while j < i
        invariant i / BLOCK * BLOCK <= j <= i && AllNull(below, i / BLOCK * BLOCK, j)
      {
        if j >= |below| || below[j] != NULLKEY {
          return true, j;
        }
        j := j + 1;
      }
      found := false;
    }

    /** The first key of a block from slot i on, or null. */
    method FindHeir(below: seq<int>, i: nat) returns (heir: int)
      requires AllNull(below, i / BLOCK * BLOCK, i)
      ensures heir == First(below, i / BLOCK)
    {
      var start, j := i / BLOCK * BLOCK, i;
      heir := NULLKEY;
      while j < start + BLOCK
        invariant i <= j <= start + BLOCK && AllNull(below, start, j)
      {
        if j < |below| && below[j] != NULLKEY {
          FirstFromIs(below, start, j, start + BLOCK);
          return below[j];
        }
        j := j + 1;
      }
    }

    /**
      One level of a repair: unless an earlier key leads the block, the parent gets what is now the block's first key.
     */
    method RepairLevel(level: nat, i: nat, ghost was: seq<GapVector>, ghost pos: nat)
      returns (goup: bool, ghost leader: int)
      requires UpperOk(was, topLevel) && level <= topLevel && Repairing(was, vec, topLevel, level, pos)
      requires i == SlotAt(pos, level - 1)
      modifies this`vec
      ensures |vec| == |old(vec)| && vec[0] == old(vec)[0]
      ensures goup ==> Repairing(was, vec, topLevel, level + 1, pos)
      ensures !goup ==> vec == old(vec) && RepairOver(vec, topLevel, level, pos, leader)
    {
      assert LevelOk(vec[level - 1]) && LevelOk(was[level - 1]) && i <= vec[level - 1].last;
      var noUpdate, j := FindLeader(vec[level - 1].slots, i);
      leader := j;
      if noUpdate {
        return false, leader;
      }
      var heir := FindHeir(vec[level - 1].slots, i);
      var v := GrowTo(vec[level], i / BLOCK);
      v := Put(v, heir, i / BLOCK, true);
      RepairGoesUp(was, vec, topLevel, level, pos, v);
      vec := vec[level := v];
      goup := true;
    }

    /** Replaces the entry of block b by nkey if it is not below dkey. */
    method DeleteUpdateNeeded(dkey: int, nkey: int, b: nat) returns (needed: bool)
      requires UpperOk(vec, topLevel) && dkey > NULLKEY
      modifies this`vec
      ensures |vec| == |old(vec)| && (needed <==> dkey <= At(old(vec)[0].slots, b))
      ensures forall j :: At(vec[0].slots, j) == if j == b && needed then nkey else At(old(vec)[0].slots, j)
      ensures !needed ==> vec == old(vec)
      ensures needed ==> Repairing(old(vec), vec, topLevel, 1, InBlock(b)) && vec[0].elements >= 1
    {
      needed := false;
      if b <= vec[0].last {
        if dkey <= vec[0].slots[b] {
          ghost var was := vec;
          vec := vec[0 := vec[0].(slots := vec[0].slots[b := nkey])];
          RepairStarts(was, topLevel, b, nkey, vec);
          needed := true;
        }
      }
    }

    /**
      Replaces the entry of block b by nkey if it is not below dkey, and repairs the levels above. It never adds a level
      and loses no head; it mends all that are lost exactly if nothing came before the block.
     */
    method DeleteIndex(dkey: int, nkey: int, b: nat)
      requires UpperOk(vec, topLevel) && dkey > NULLKEY
      modifies this`vec
      ensures UpperOk(vec, topLevel)
      ensures forall j :: At(vec[0].slots, j) ==
                if j == b && dkey <= At(old(vec)[0].slots, b) then nkey else At(old(vec)[0].slots, j)
      ensures HeadsAfterDelete(old(vec), vec, InBlock(b))
      ensures Tight(vec) <==>
                Tight(old(vec)) || (dkey <= At(old(vec)[0].slots, b) && AllNull(old(vec)[0].slots, 0, b))
      ensures forall n: nat :: Fits(old(vec), n) ==> Fits(vec, n)
    {
      hide Repairing, HeadsAfterDelete, Tight, Fits, AllNull, RepairOver, UpperOk;
      ghost var was, pos := vec, InBlock(b);
      var goup := DeleteUpdateNeeded(dkey, nkey, b);
      if !goup {
        NothingDeleted(vec, pos);
        return;
      }
      ghost var start := vec[0];
      var i: nat, level: nat := b, 1;
      ghost var leader := 0;
      RepairSizes(was, vec, topLevel, level, pos);
      while goup && level <= topLevel
        invariant 1 <= level <= topLevel + 1 == |vec|
        invariant Repairing(was, vec, topLevel, level, pos) && i == SlotAt(pos, level - 1)
        invariant vec[0] == start
        invariant goup || RepairOver(vec, topLevel, level, pos, leader)
        decreases goup, topLevel - level
      {
        goup, leader := RepairLevel(level, i, was, pos);
        if goup {
          i, level := i / BLOCK, level + 1;
        }
      }
      RepairEnds(was, vec, topLevel, level, pos, leader, goup);
    }

    /** Keeps a window inside what the level uses. */
    method ClampWindow(level: nat, first0: nat, last0: int) returns (first: nat, last: int)
      requires level < |vec| && LevelOk(vec[level]) && first0 <= last0
      ensures Clamped(vec[level], first0, last0, first, last)
    {
      first, last := first0, last0;
      if last > |vec[level].slots| - 1 {
        last := |vec[level].slots| - 1;
      }
      if first > vec[level].last {
        first := vec[level].last / BLOCK * BLOCK;
        last := first + BLOCK - 1;
      }
      if last > vec[level].last {
        last := vec[level].last;
      }
    }

    /** One level of the search: searches the window there and names the block below to go on in. */
    method DescendLevel(k: int, level: nat, first0: nat, last0: int, ghost ks: seq<int>)
      returns (first: nat, last: int)
      requires k > NULLKEY && Sorted(ks) && IndexOk(ks, vec, topLevel) && level <= topLevel && first0 <= last0
      requires OnTrack(ks, k, level + 1, first0, last0) || OffTrack(ks, k, level + 1, first0, last0)
      ensures last == first + BLOCK - 1 && first % BLOCK == 0
      ensures if OnTrack(ks, k, level + 1, first0, last0) && !Overlooks(ks, vec, k, level, last0)
              then OnTrack(ks, k, level, first, last) else OffTrack(ks, k, level, first, last)
    {
      hide OnTrack, OffTrack, Overlooks, Sorted, IndexOk, SearchResult, Clamped, LevelOk;
      SearchReady(ks, vec, topLevel, level);
      first, last := ClampWindow(level, first0, last0);
      ClampedTrack(ks, vec, topLevel, level, k, first0, last0, first, last);
      var found, index := BinSearchPred(k, vec[level].slots, first, last);
      Descends(ks, vec, topLevel, level, k, first0, last0, first, last, found, index);
      if index < 0 {
        index := first;
      }
      first := index * BLOCK;
      last := first + BLOCK - 1;
    }

    /**
      The block of array positions a search for k can be confined to. It is the right one if and only if no level that
      the search looks at has lost its head and the entry next to it while k is below the first entry left there.
     */
    method FindFirstLast(k: int, ghost ks: seq<int>) returns (found: bool, first: nat, last: int)
      requires k > NULLKEY && Sorted(ks) && IndexOk(ks, vec, topLevel)
      ensures !found ==> AllNull(ks, 0, |ks|) && first == 0 && last == -1
      ensures found ==> last == first + BLOCK - 1 && first % BLOCK == 0
      ensures found ==> (Covers(ks, k, first, last) <==> !Strays(ks, vec, topLevel, k))
      ensures found && Strays(ks, vec, topLevel, k) ==> Missed(ks, k, first, last)
    {
      hide IndexOk, UpperOk, Covers, Sorted, Overlooks, OnTrack, OffTrack, Missed, Strays, StrayedAbove, WindowEnd,
           AllNull;
      SearchStarts(ks, vec, topLevel, k);
      if topLevel == 0 && vec[0].elements < 1 {
        EmptyIndex(ks, vec);
        return false, 0, -1;
      }
      var realtop := topLevel;
      if vec[topLevel].elements < 2 {
        realtop := if topLevel == 0 then 0 else topLevel - 1;
      }
      assert realtop == RealTop(vec, topLevel);
      first, last := 0, vec[realtop].last;
      var level: int := realtop;
      ghost var strayed := false;
      while level >= 0
        invariant -1 <= level <= realtop && first <= last
        invariant if strayed then OffTrack(ks, k, level + 1, first, last) else OnTrack(ks, k, level + 1, first, last)
        invariant strayed <==> StrayedAbove(ks, vec, topLevel, k, level + 1)
        invariant level == realtop ==> first == 0 && last == vec[realtop].last
        invariant level < realtop ==> last == first + BLOCK - 1 && first % BLOCK == 0
      {
        SameWindow(ks, vec, topLevel, level, k, first, last);
        OnOrOff(ks, k, level + 1, first, last);
        strayed := strayed || Overlooks(ks, vec, k, level, last);
        first, last := DescendLevel(k, level, first, last, ks);
        level := level - 1;
      }
      SearchEnds(ks, vec, topLevel, k, first, last);
      found := true;
    }
  }

  /** What an update is told: that a key now stands at a position. */
  datatype Note = Note(key: int, pos: nat, force: bool)

  /** The given bounds are the least and the greatest key noted, or null before the first. */
  ghost predicate Bounds(notes: seq<Note>, least: int, greatest: int) {
    if notes == [] then least == greatest == NULLKEY
    else
      && (forall i :: 0 <= i < |notes| ==> least <= notes[i].key <= greatest)
      && (exists i :: 0 <= i < |notes| && notes[i].key == least)
      && (exists i :: 0 <= i < |notes| && notes[i].key == greatest)
  }

  ghost predicate LeastSoFar(notes: seq<Note>, i: nat)
    requires i < |notes|
  {
    forall j :: 0 <= j < i ==> notes[i].key < notes[j].key
  }

  ghost predicate GreatestSoFar(notes: seq<Note>, i: nat)
    requires i < |notes|
  {
    forall j :: 0 <= j < i ==> notes[i].key > notes[j].key
  }

  lemma NewIndex(notes: seq<Note>, vec: seq<GapVector>)
    requires vec == [NewVector()]
    ensures Shaped(vec, 0) && Bounds(notes[..0], NULLKEY, NULLKEY)
  {
  }

  lemma KeysNotNull(notes: seq<Note>, n: nat)
    requires n < |notes| && forall i :: 0 <= i < |notes| ==> notes[i].key > NULLKEY
    ensures notes[n].key > NULLKEY && notes[n].key != NULLKEY
    ensures forall i :: 0 <= i < n ==> notes[i].key > NULLKEY && notes[..n][i].key > NULLKEY
  {
  }

  lemma BoundsOn(notes: seq<Note>, least: int, greatest: int, note: Note, least': int, greatest': int)
    requires Bounds(notes, least, greatest) && note.key > NULLKEY
    requires forall i :: 0 <= i < |notes| ==> notes[i].key > NULLKEY
    requires greatest' == if note.key > greatest then note.key else greatest
    requires least' == if least == NULLKEY || note.key < least then note.key else least
    ensures Bounds(notes + [note], least', greatest')
  {
    var all := notes + [note];
    assert all[|notes|] == note;
    if notes != [] {
      var i :| 0 <= i < |notes| && notes[i].key == least;
      var j :| 0 <= j < |notes| && notes[j].key == greatest;
      assert all[i].key == least && all[j].key == greatest;
    }
  }

  /** A key is a new bound exactly if it is below all keys before it, or above all of them. */
  lemma NewBound(notes: seq<Note>, n: nat, least: int, greatest: int)
    requires n < |notes| && Bounds(notes[..n], least, greatest) && notes[n].key > NULLKEY
    requires forall i :: 0 <= i < n ==> notes[i].key > NULLKEY
    ensures notes[n].key > greatest <==> GreatestSoFar(notes, n)
    ensures least == NULLKEY || notes[n].key < least <==> LeastSoFar(notes, n)
  {
    if n > 0 {
      var i :| 0 <= i < n && notes[..n][i].key == least;
      var j :| 0 <= j < n && notes[..n][j].key == greatest;
      assert notes[i].key == least && notes[j].key == greatest;
      assert forall k :: 0 <= k < n ==> notes[..n][k] == notes[k];
    }
  }

  /**
    Over any run of updates of a new index, whatever else goes into it, the two keys that it hands out are the least and
    the greatest of all keys it was told, and an update says yes exactly if its key is a new least or greatest one.
   */
  method NoteAll(notes: seq<Note>) returns (b: JagBlock, news: seq<bool>)
    requires forall i :: 0 <= i < |notes| ==> notes[i].key > NULLKEY
    ensures fresh(b) && Shaped(b.vec, b.topLevel) && Bounds(notes, b.minKey, b.maxKey)
    ensures |news| == |notes|
    ensures forall i :: 0 <= i < |notes| ==>
              (news[i] <==> LeastSoFar(notes, i) || GreatestSoFar(notes, i))
  {
    hide *;
    b := new JagBlock();
    NewIndex(notes, b.vec);
    news := [];
    while |news| < |notes|
      invariant |news| <= |notes| && fresh(b) && Shaped(b.vec, b.topLevel)
      invariant Bounds(notes[..|news|], b.minKey, b.maxKey)
      invariant forall i :: 0 <= i < |news| ==>
                  (news[i] <==> LeastSoFar(notes, i) || GreatestSoFar(notes, i))
    {
      var n := |news|;
      var note := notes[n];
      ghost var least, greatest := b.minKey, b.maxKey;
      KeysNotNull(notes, n);
      var rc := b.UpdateIndex(note.key, note.pos, note.force, []);
      assert notes[..n + 1] == notes[..n] + [note];
      BoundsOn(notes[..n], least, greatest, note, b.minKey, b.maxKey);
      NewBound(notes, n, least, greatest);
      news := news + [rc];
    }
    assert notes[..|notes|] == notes;
  }

  /** The keys of a run that ends with a lost head: n of its four steps are over. */
  ghost function LosingKeys(n: nat): seq<int> {
    seq(2049, i =>
      if i == 0 && 1 <= n <= 2 then 3 else if i == 32 && n >= 2 then 5 else if i == 2048 && n >= 4 then 10 else NULLKEY)
  }

  lemma LosingKeysOrder(n: nat)
    ensures Sorted(LosingKeys(n)) && NonDecreasing(LosingKeys(n))
  {
  }

  lemma LosingFirst(n: nat, p: nat)
    ensures First(LosingKeys(n), p) ==
              if p == 0 && 1 <= n <= 2 then 3 else if p == 1 && n >= 2 then 5 else if p == 64 && n >= 4 then 10
                else NULLKEY
  {
    var ks := LosingKeys(n);
    if p == 0 && 1 <= n <= 2 {
      FirstFromIs(ks, 0, 0, 32);
    } else if p == 1 && n >= 2 {
      FirstFromIs(ks, 32, 32, 64);
    } else if p == 64 && n >= 4 {
      FirstFromIs(ks, 2048, 2048, 2080);
    } else {
      assert AllNull(ks, BLOCK * p, BLOCK * p + BLOCK);
    }
  }

  lemma LosingAwaits(n: nat, vec: seq<GapVector>, b: nat, key: int)
    requires |vec| == 1
    requires forall p :: 0 <= p && p != b ==> At(vec[0].slots, p) == First(LosingKeys(n), p)
    requires key == First(LosingKeys(n), b) && At(vec[0].slots, b) == NULLKEY
    ensures AwaitsWrite(LosingKeys(n), vec[0].slots, b, key, false) && NonDecreasing(LosingKeys(n))
  {
    LosingKeysOrder(n);
  }

  lemma LosingStarts(vec: seq<GapVector>)
    requires vec == [NewVector()]
    ensures Shaped(vec, 0) && UpperOk(vec, 0) && !Raises(vec, 0, 0) && NonDecreasing(LosingKeys(1))
    ensures AwaitsWrite(LosingKeys(1), vec[0].slots, 0, 3, false)
  {
    forall p: nat
      ensures First(LosingKeys(1), p) == if p == 0 then 3 else NULLKEY
    {
      LosingFirst(1, p);
    }
    LosingAwaits(1, vec, 0, 3);
  }

  lemma LosingSecond(was: seq<GapVector>, vec: seq<GapVector>)
    requires |was| == 1 && !Raises(was, 0, 0) && Settled(LosingKeys(1), was, 0, 0, vec)
    ensures |vec| == 1 && UpperOk(vec, 0) && !Raises(vec, 0, 32) && NonDecreasing(LosingKeys(2))
    ensures AwaitsWrite(LosingKeys(2), vec[0].slots, 1, 5, false)
  {
    forall p: nat
      ensures First(LosingKeys(1), p) == (if p == 0 then 3 else NULLKEY)
      ensures First(LosingKeys(2), p) == (if p == 0 then 3 else if p == 1 then 5 else NULLKEY)
    {
      LosingFirst(1, p);
      LosingFirst(2, p);
    }
    assert At(vec[0].slots, 0) == First(LosingKeys(1), 0);
    assert !LeadsAt(vec, 32, 0);
    LosingAwaits(2, vec, 1, 5);
  }

  lemma LosingThird(was: seq<GapVector>, vec: seq<GapVector>)
    requires |was| == 1 && !Raises(was, 0, 32) && Settled(LosingKeys(2), was, 0, 32, vec)
    ensures |vec| == 1 && UpperOk(vec, 0)
    ensures forall p: nat :: At(vec[0].slots, p) == if p == 0 then 3 else if p == 1 then 5 else NULLKEY
  {
    forall p: nat
      ensures At(vec[0].slots, p) == if p == 0 then 3 else if p == 1 then 5 else NULLKEY
    {
      LosingFirst(2, p);
      assert At(vec[0].slots, p) == First(LosingKeys(2), p);
    }
  }

  lemma LosingFourth(vec: seq<GapVector>)
    requires UpperOk(vec, 0)
    requires forall p: nat :: At(vec[0].slots, p) == if p == 1 then 5 else NULLKEY
    ensures |vec| == 1 && Shaped(vec, 0) && LostHead(vec, 0, 2048) && NonDecreasing(LosingKeys(4))
    ensures AwaitsWrite(LosingKeys(4), vec[0].slots, 64, 10, false)
  {
    forall p: nat
      ensures First(LosingKeys(4), p) == if p == 1 then 5 else if p == 64 then 10 else NULLKEY
    {
      LosingFirst(4, p);
    }
    assert SlotAt(2048, 0) == 64 && At(vec[0].slots, 1) == 5;
    LosingAwaits(4, vec, 64, 10);
  }

  lemma LosingSlots(q: nat)
    ensures At(LosingKeys(4), q) != NULLKEY ==> SlotAt(q, 1) != 1
  {
    assert SlotAt(q, 1) == SlotAt(q, 0) / BLOCK && SlotAt(q, 0) == q / BLOCK;
  }

  lemma LosingEntries(vec: seq<GapVector>)
    requires |vec| >= 3 && IndexOk(LosingKeys(4), vec, |vec| - 1)
    ensures At(vec[1].slots, 1) == NULLKEY && At(vec[1].slots, 2) != NULLKEY
  {
    hide IndexOk;
    var ks, top := LosingKeys(4), |vec| - 1;
    LosingKeysOrder(4);
    assert SlotAt(2048, 0) == 64 && SlotAt(2048, 1) == 2;
    EntryAbove(ks, vec, top, 1, 2048);
    if At(vec[1].slots, 1) != NULLKEY {
      var q := KeyBelow(ks, vec, top, 1, 1);
      LosingSlots(q);
    }
  }

  lemma LosingUpper(vec: seq<GapVector>)
    requires |vec| >= 3 && IndexOk(LosingKeys(4), vec, |vec| - 1) && At(vec[1].slots, 2) != NULLKEY
    ensures First(vec[0].slots, 0) == 5
    ensures 1 <= RealTop(vec, |vec| - 1) && !AllNull(vec[1].slots, 2, WindowEnd(vec, |vec| - 1, 1) + 1)
  {
    LosingFirst(4, 0);
    LosingFirst(4, 1);
    assert At(vec[0].slots, 0) == First(LosingKeys(4), 0) && At(vec[0].slots, 1) == First(LosingKeys(4), 1);
    FirstFromIs(vec[0].slots, 0, 1, 32);
    assert LevelOk(vec[1]);
  }

  lemma LosingStrays(was: seq<GapVector>, vec: seq<GapVector>)
    requires |was| == 1 && LostHead(was, 0, 2048) && Settled(LosingKeys(4), was, 0, 2048, vec)
    ensures Sorted(LosingKeys(4)) && IndexOk(LosingKeys(4), vec, |vec| - 1) && Strays(LosingKeys(4), vec, |vec| - 1, 5)
  {
    hide LosingKeys, Sorted, IndexOk, Strays, Headless, LostHead, Raises, Tight, Sound;
    LosingKeysOrder(4);
    LosingEntries(vec);
    LosingUpper(vec);
    LostHeadStrays(LosingKeys(4), vec, |vec| - 1, 1);
  }

  lemma LosingEnds(found: bool, first: int, last: int)
    requires !found ==> AllNull(LosingKeys(4), 0, |LosingKeys(4)|)
    requires found ==> Missed(LosingKeys(4), 5, first, last)
    ensures Missed(LosingKeys(4), 5, first, last) && LosingKeys(4)[32] == 5 && !(first <= 32 <= last)
  {
    assert At(LosingKeys(4), 32) == 5;
  }

  /**
    A run that loses a stored key. The index holds 3 in its first block and 5 in its second, on one level; 3 goes, and
    10 comes at slot 2048. Two levels are added over the emptied first entry, and the entry next to it is not used
    either, so the search for 5 ends at a block that its slot 32 is not in.
   */
  method LosesAKey() returns (b: JagBlock, first: nat, last: int)
    ensures Sorted(LosingKeys(4)) && IndexOk(LosingKeys(4), b.vec, b.topLevel)
    ensures LosingKeys(4)[32] == 5 && !(first <= 32 <= last)
    ensures Missed(LosingKeys(4), 5, first, last)
  {
    hide UpperOk, Settled, AwaitsWrite, LostHead, Raises, Missed, Strays, LosingKeys, IndexOk, Sorted, NonDecreasing;
    b := new JagBlock();
    ghost var v0 := b.vec;
    LosingStarts(v0);
    var rc := b.UpdateIndex(3, 0, false, LosingKeys(1));
    ghost var v1 := b.vec;
    LosingSecond(v0, v1);
    rc := b.UpdateIndex(5, 32, false, LosingKeys(2));
    LosingThird(v1, b.vec);
    b.DeleteIndex(3, NULLKEY, 0);
    ghost var v3 := b.vec;
    LosingFourth(v3);
    rc := b.UpdateIndex(10, 2048, false, LosingKeys(4));
    LosingStrays(v3, b.vec);
    var found;
    found, first, last := b.FindFirstLast(5, LosingKeys(4));
    LosingEnds(found, first, last);
  }
}
