/** The sorted array with gaps, its hash table and its block index, as one ordered map. */
module SortedArray {
  import opened Gapped
  import opened ProbeTable
  import opened BlockLevels
  import opened BlockClimb
  import opened BlockRepair
  import opened BlockSearch
  import opened BlockIndex
  import opened Placement
  import opened ArrayFacts

  /** The pairs stored when one more is inserted. */
  ghost function Entered(before: set<Pair>, p: Pair, isUpsert: bool): set<Pair> {
    if !isUpsert && (exists q :: q in before && q.key == p.key) then before
    else (set q | q in before && q.key != p.key) + {p}
  }

  datatype Operation = Insertion(pair: Pair, isUpsert: bool, goRight: bool) | Removal(key: int, markOnly: bool)

  predicate KeyedAbove(op: Operation) {
    match op
    case Insertion(p, _, _) => p.key > NULLKEY
    case Removal(key, _) => key > NULLKEY
  }

  class JagArray {
    var arr: array<Pair>
    var hashcol: array<int>
    var elements: int
    var first: int
    var last: int
    var aindex: JagBlock

    const hashKey: HashKey
    const usehash: bool

    function K(): (ks: seq<int>)
      reads `arr, arr
    {
      Keys(arr[..])
    }

    /** The hash table agrees with the keys ks. */
    ghost predicate Hashed(ks: seq<int>)
      reads `hashcol, hashcol
    {
      usehash ==> hashcol.Length == |ks| && TableOk(hashKey, ks, hashcol[..])
    }

    /** The block index agrees with the keys ks, save for heads that were lost. */
    ghost predicate Indexed(ks: seq<int>)
      reads `aindex, aindex
    {
      IndexOk(ks, aindex.vec, aindex.topLevel)
    }

    /** The block index has all its heads. */
    ghost predicate TightIndex()
      reads `aindex, aindex
    {
      Tight(aindex.vec)
    }

    /** The block index has next to every lost head the entry that makes up for it. */
    ghost predicate SoundIndex()
      reads `aindex, aindex
    {
      Sound(aindex.vec)
    }

    /** The ordered search does not come to where the key is, or belongs. */
    ghost predicate Misses(key: int)
      reads this, arr, aindex
    {
      Strays(K(), aindex.vec, aindex.topLevel, key)
    }

    /** All but the block index. */
    ghost predicate Base()
      reads this, arr, hashcol
    {
      && arr.Length >= 2 && InRange(hashKey)
      && Ordered(K(), elements, first, last)
      && Hashed(K())
    }

    ghost predicate Valid()
      reads this, arr, hashcol, aindex
    {
      Base() && Indexed(K())
    }

    /** The array is small enough for one level of the block index, or its first slot is used. */
    ghost predicate Anchored()
      reads `arr, arr
    {
      arr.Length <= BLOCK * BLOCK || arr[0].key != NULLKEY
    }

    constructor (length: nat, useHash: bool, h: HashKey)
      requires length >= 2 && InRange(h)
      ensures Valid() && TightIndex() && Stored(arr[..]) == {}
      ensures arr.Length == length && usehash == useHash && hashKey == h
      ensures fresh(arr) && fresh(hashcol) && fresh(aindex) && (length <= BLOCK * BLOCK ==> Anchored())
    {
      hashKey, usehash := h, useHash;
      arr := new Pair[length](_ => NULLVALUE);
      hashcol := new int[if useHash then length else 0](_ => EMPTY);
      elements, first, last := 0, 0, 0;
      aindex := new JagBlock();
      new;
      assert forall i :: 0 <= i < length ==> arr[..][i] == NULLVALUE;
      NothingStored(hashKey, K(), if usehash then hashcol[..] else seq(length, _ => EMPTY));
    }

    /** The block index describes these keys: those of the array, or those with the stale key of the last slot. */
    ghost predicate Viewed(view: seq<int>)
      reads `arr, arr, `aindex, aindex
    {
      Indexed(view) && (view == K() || StaleView(K(), view))
    }

    method NextNonNull(start: nat) returns (i: nat)
      requires start <= arr.Length
      ensures start <= i <= arr.Length && AllNull(K(), start, i) && (i < arr.Length ==> arr[i].key != NULLKEY)
    {
      i := start;
      while i <= arr.Length - 1 && arr[i].key == NULLKEY
        invariant start <= i <= arr.Length && AllNull(K(), start, i)
      {
        i := i + 1;
      }
    }

    /** The search inside a window, whatever the index made of it: steps to the first used slot, then halves. */
    method FindPredIn(key: int, first0: nat, last0: int) returns (found: bool, index: int)
      requires Base() && key > NULLKEY && elements >= 1 && 0 <= last0 < arr.Length
      requires Covers(K(), key, first0, last0) || Missed(K(), key, first0, last0) || Emptied(K(), first0, last0)
      ensures Located(K(), key, found, index) <==> Covers(K(), key, first0, last0)
      ensures !Covers(K(), key, first0, last0) ==> !found
    {
      ghost var ks := K();
      WindowInArray(ks, key, first0, last0);
      var low: int := NextNonNull(first0);
      if low == arr.Length {
        low := arr.Length - 1;
      }
      if elements == 1 {
        OneKeyWindow(ks, key, first0, last0, low);
        if arr[low].key == key {
          return true, low;
        } else if arr[low].key < key {
          return false, low;
        }
        return false, low - 1;
      }
      found, index := BinSearchPred(key, Keys(arr[..]), low, last0);
      if Covers(ks, key, first0, last0) {
        LocatedInWindow(ks, key, first0, low, last0, found, index);
      } else if Missed(ks, key, first0, last0) {
        NotLocatedInMissed(ks, key, first0, low, last0, index);
      } else {
        NotLocatedInEmptied(ks, key, first0, last0, index);
      }
    }

    /** The window of the block index, cut to the array. */
    method Window(key: int, ghost view: seq<int>) returns (low: nat, high: int)
      requires Base() && Viewed(view) && key > NULLKEY && elements >= 1
      ensures 0 <= high < arr.Length
      ensures Covers(K(), key, low, high) <==>
                !Strays(view, aindex.vec, aindex.topLevel, key) && (view == K() || key < view[|view| - 1])
      ensures Covers(K(), key, low, high) || Missed(K(), key, low, high) || Emptied(K(), low, high)
    {
      ghost var ks := K();
      var rc;
      rc, low, high := aindex.FindFirstLast(key, view);
      ViewUsed(ks, view);
      assert rc;
      if high > arr.Length - 1 {
        high := arr.Length - 1;
      }
      WindowSeen(ks, view, aindex.vec, aindex.topLevel, key, low, high);
    }

    /**
      The slot of the key, or of its predecessor, or the slot before the first key, unless the index leads elsewhere. A
      stale key hides no stored one, but a search for a key at or above it comes to no place.
     */
    method FindPred(key: int, ghost view: seq<int>) returns (found: bool, index: int)
      requires Base() && Viewed(view) && key > NULLKEY
      ensures Located(K(), key, found, index) <==>
                elements == 0 || (!Strays(view, aindex.vec, aindex.topLevel, key)
                  && (view == K() || key < view[|view| - 1]))
      ensures found <==> key in K() && !Strays(view, aindex.vec, aindex.topLevel, key)
    {
      if elements == 0 {
        UsedNone(K());
        NotAmong(K(), key, false, -1);
        return false, -1;
      }
      var low, high := Window(key, view);
      found, index := FindPredIn(key, low, high);
      if Located(K(), key, found, index) {
        NotAmong(K(), key, found, index);
      } else {
        StaleIsGreatest(K(), view, key);
      }
    }

    /** Looks a key up, through the hash table if there is one. */
    method Exist(key: int, ghost view: seq<int>) returns (found: bool, index: int, hloc: int)
      requires Base() && (usehash || Viewed(view)) && key > NULLKEY
      ensures found <==> key in K() && (usehash || !Strays(view, aindex.vec, aindex.topLevel, key))
      ensures found ==> 0 <= index < arr.Length && arr[index].key == key
      ensures found && usehash ==> 0 <= hloc < hashcol.Length && hashcol[hloc] == index
    {
      hloc := 0;
      if usehash {
        ghost var ks := K();
        var z := FreeSlot(ks);
        TableHasEmpty(hashKey, ks, hashcol[..], z);
        hloc := hashKey(key, arr.Length);
        index := hashcol[hloc];
        if index == EMPTY {
          HomeEmpty(hashKey, ks, hashcol[..], key);
          return false, index, hloc;
        }
        if key != arr[index].key {
          hloc := FindProbedLocation(key, hloc, arr, hashcol, hashKey, ks);
          if hloc < 0 {
            return false, index, hloc;
          }
          index := hashcol[hloc];
        }
        assert ks[index] == key;
        return true, index, hloc;
      }
      found, index := FindPred(key, view);
      if found {
        StaleIsGreatest(K(), view, key);
        NotAmong(K(), key, found, index);
      }
    }

    /** Enters a key that is now at pos in the hash table, if there is one. */
    method EnterHash(key: int, pos: nat, ghost ks: seq<int>)
      requires InRange(hashKey) && Hashed(ks)
      requires key != NULLKEY && pos < |ks| && ks[pos] == NULLKEY
      modifies hashcol
      ensures Hashed(ks[pos := key])
    {
      if usehash {
        TableHasEmpty(hashKey, ks, hashcol[..], pos);
        InsertHash(hashKey, key, pos, hashcol, ks);
      }
    }

    lemma PlaceReady(p: Pair, pos: nat, was: seq<int>)
      requires Indexed(was) && K() == was && pos < arr.Length && Sorted(was[pos := p.key]) && p.key != NULLKEY
      ensures |was| == arr.Length && was == Keys(arr[..]) && |aindex.vec| == aindex.topLevel + 1
      ensures was[pos := NULLKEY][pos] == NULLKEY && was[pos := NULLKEY][pos := p.key] == was[pos := p.key]
      ensures NonDecreasing(was[pos := p.key])
    {
      SortedIsNonDecreasing(was[pos := p.key]);
      assert was[pos := NULLKEY][pos := p.key] == was[pos := p.key];
    }

    lemma Placed(a0: seq<Pair>, p: Pair, pos: nat)
      requires pos < |a0| && arr[..] == a0[pos := p]
      ensures |Keys(a0)| == |a0| && K() == Keys(a0)[pos := p.key]
    {
      assert Keys(a0[pos := p]) == Keys(a0)[pos := p.key];
    }

    lemma IndexedMeans(was: seq<int>)
      requires Indexed(was)
      ensures IndexOk(was, aindex.vec, aindex.topLevel) && UpperOk(aindex.vec, aindex.topLevel)
      ensures Shaped(aindex.vec, aindex.topLevel) && |aindex.vec| == aindex.topLevel + 1
    {
    }

    lemma IndexedAgain(now: seq<int>)
      requires Shaped(aindex.vec, aindex.topLevel) && |aindex.vec| > 0 && IndexOk(now, aindex.vec, |aindex.vec| - 1)
      ensures Indexed(now)
    {
    }

    /** Notes in the block index that pos now holds key. */
    method NoteMoved(key: int, pos: nat, force: bool, ghost was: seq<int>, ghost now: seq<int>)
      requires Indexed(was) && key != NULLKEY && NonDecreasing(now)
      requires AwaitsWrite(now, aindex.vec[0].slots, pos / BLOCK, key, force)
      requires Near(was, pos) || !LostHead(aindex.vec, aindex.topLevel, pos)
      modifies aindex
      ensures |old(aindex.vec)| == old(aindex.topLevel) + 1 && Shaped(aindex.vec, aindex.topLevel)
      ensures Indexed(now) && Noted(was, old(aindex.vec), old(aindex.topLevel), pos, pos, aindex.vec)
    {
      hide *;
      ghost var vec, top := aindex.vec, aindex.topLevel;
      IndexedMeans(was);
      var _ := aindex.UpdateIndex(key, pos, force, now);
      WriteNoted(was, vec, top, pos, now, aindex.vec);
      IndexedAgain(now);
    }

    /**
      Puts a pair into the slot pos, which no hash entry names, and enters it in the hash table and the block index.
     */
    method Place(p: Pair, pos: nat, force: bool, ghost was: seq<int>)
      requires InRange(hashKey) && Shaped(aindex.vec, aindex.topLevel) && p.key != NULLKEY
      requires pos < arr.Length && K() == was && Hashed(was[pos := NULLKEY]) && Sorted(was[pos := p.key])
      requires Indexed(was) && AwaitsWrite(was[pos := p.key], aindex.vec[0].slots, pos / BLOCK, p.key, force)
      requires Near(was, pos) || !LostHead(aindex.vec, aindex.topLevel, pos)
      modifies arr, hashcol, aindex
      ensures arr[..] == old(arr[..])[pos := p] && K() == was[pos := p.key]
      ensures Hashed(K()) && Indexed(K()) && Shaped(aindex.vec, aindex.topLevel)
      ensures Noted(was, old(aindex.vec), old(aindex.topLevel), pos, pos, aindex.vec)
    {
      hide *;
      PlaceReady(p, pos, was);
      ghost var a0, now := arr[..], was[pos := p.key];
      arr[pos] := p;
      assert arr[..] == a0[pos := p];
      Placed(a0, p, pos);
      EnterHash(p.key, pos, was[pos := NULLKEY]);
      NoteMoved(p.key, pos, force, was, now);
    }

    /** Redirects the hash entry of a key that has just been copied from oldpos to the free slot newpos. */
    method MoveHash(key: int, oldpos: nat, newpos: nat, ghost ks: seq<int>)
      requires InRange(hashKey) && Hashed(ks) && Sorted(ks) && Agrees(arr[..], ks)
      requires oldpos < |ks| && newpos < |ks| && ks[oldpos] == key != NULLKEY && ks[newpos] == NULLKEY
      modifies hashcol
      ensures Hashed(ks[newpos := key][oldpos := NULLKEY])
    {
      if usehash {
        TableHasEmpty(hashKey, ks, hashcol[..], newpos);
        UpdateHash(hashKey, key, oldpos, newpos, arr, hashcol, ks);
      }
    }

    /** A shift to the left that has freed slot i; every key still has its one entry, at its present slot. */
    ghost predicate MidLeft(a0: seq<Pair>, left: nat, i: nat)
      reads `arr, arr, `hashcol, hashcol
      requires left <= i < |a0|
    {
      && arr[..] == ShiftedLeft(a0, left, i)
      && InRange(hashKey)
      && Hashed(ShiftedLeft(Keys(a0), left, i)[i := NULLKEY])
      && Used(ShiftedLeft(Keys(a0), left, i)[i := NULLKEY]) == Used(Keys(a0))
    }

    lemma LeftReady(a0: seq<Pair>, left: nat, i: nat, index: nat)
      requires Sorted(Keys(a0)) && LeftRun(Keys(a0), left, index) && left <= i < index && MidLeft(a0, left, i)
      ensures i < |Keys(a0)| == |ShiftedLeft(Keys(a0), left, i)|
      ensures var w := ShiftedLeft(Keys(a0), left, i)[i := NULLKEY];
              && InRange(hashKey) && Hashed(w) && Sorted(w)
              && i + 1 < arr.Length == |w| == |a0| == |Keys(a0)|
              && w[i] == NULLKEY && w[i + 1] == Keys(a0)[i + 1] == arr[i + 1].key != NULLKEY
              && arr[..][i := arr[..][i + 1]] == ShiftedLeft(a0, left, i + 1)
              && Agrees(arr[..][i := arr[..][i + 1]], w)
              && w[i := w[i + 1]][i + 1 := NULLKEY] == ShiftedLeft(Keys(a0), left, i + 1)[i + 1 := NULLKEY]
              && Used(ShiftedLeft(Keys(a0), left, i + 1)[i + 1 := NULLKEY]) == Used(Keys(a0))
    {
      LeftMove(Keys(a0), left, i, index);
      LeftMovePairs(a0, left, i);
    }

    lemma LeftFolds(a0: seq<Pair>, left: nat, i: nat)
      requires left <= i < |a0| == |Keys(a0)| && InRange(hashKey) && arr[..] == ShiftedLeft(a0, left, i)
      requires Hashed(ShiftedLeft(Keys(a0), left, i)[i := NULLKEY])
      requires Used(ShiftedLeft(Keys(a0), left, i)[i := NULLKEY]) == Used(Keys(a0))
      ensures MidLeft(a0, left, i)
    {
    }

    /** Copies the pair after the free slot i into it, and redirects its hash entry. */
    method CopyLeft(ghost a0: seq<Pair>, ghost left: nat, i: nat, ghost index: nat) returns (key: int)
      requires Sorted(Keys(a0)) && LeftRun(Keys(a0), left, index) && left <= i < index && MidLeft(a0, left, i)
      modifies arr, hashcol
      ensures MidLeft(a0, left, i + 1) && key == Keys(a0)[i + 1]
    {
      hide *;
      LeftReady(a0, left, i, index);
      ghost var w := ShiftedLeft(Keys(a0), left, i)[i := NULLKEY];
      arr[i] := arr[i + 1];
      assert arr[..] == old(arr[..])[i := old(arr[..])[i + 1]];
      key := arr[i].key;
      MoveHash(key, i + 1, i, w);
      LeftFolds(a0, left, i + 1);
    }

    /**
      Lets the block index follow a copy to the left: at the first slot of a block by force, at the last one plainly.
     */
    method NoteLeft(key: int, i: nat, ghost ks: seq<int>, ghost left: nat, ghost index: nat, ghost vec0: seq<GapVector>)
      requires Sorted(ks) && LeftRun(ks, left, index) && left <= i < index && key == ks[i + 1]
      requires Indexed(ShiftedLeft(ks, left, i)) && LeftNoted(ks, left, i, vec0, aindex.vec)
      modifies aindex
      ensures Indexed(ShiftedLeft(ks, left, i + 1)) && LeftNoted(ks, left, i + 1, vec0, aindex.vec)
    {
      ghost var was, now := ShiftedLeft(ks, left, i), ShiftedLeft(ks, left, i + 1);
      ghost var vec, top := aindex.vec, aindex.topLevel;
      LeftStep(ks, left, i, index, aindex.vec[0].slots);
      HeadNotLost(was, aindex.vec, aindex.topLevel, i, index);
      hide Sorted, LeftRun, Exact, UpperOk, AwaitsWrite, LostHead, LeftNoted, Noted, NonDecreasing, Near;
      if i % BLOCK == 0 {
        NoteMoved(key, i, true, was, now);
      } else if i % BLOCK == BLOCK - 1 {
        NoteMoved(key, i, false, was, now);
      }
      LeftNotedOn(ks, left, i, index, vec0, vec, top, aindex.vec);
    }

    lemma LeftStarts(left: nat, index: nat)
      requires InRange(hashKey) && Hashed(K()) && Indexed(K()) && LeftRun(K(), left, index)
      ensures left < index < |arr[..]| == |K()| && Keys(arr[..]) == K()
      ensures MidLeft(arr[..], left, left) && Indexed(ShiftedLeft(K(), left, left))
      ensures LeftNoted(K(), left, left, aindex.vec, aindex.vec)
    {
      ShiftStarts(arr[..], left);
    }

    /** Moves the run between the gap and index one slot to the left. */
    method ShiftLeft(left: nat, index: nat)
      requires InRange(hashKey) && Hashed(K()) && Indexed(K()) && Sorted(K()) && LeftRun(K(), left, index)
      modifies arr, hashcol, aindex
      ensures MidLeft(old(arr[..]), left, index)
      ensures Indexed(ShiftedLeft(old(K()), left, index))
      ensures LeftNoted(old(K()), left, index, old(aindex.vec), aindex.vec)
    {
      hide *;
      LeftStarts(left, index);
      ghost var a0, ks, vec0 := arr[..], K(), aindex.vec;
      var i := left;
      while i <= index - 1
        invariant left <= i <= index
        invariant MidLeft(a0, left, i) && Indexed(ShiftedLeft(ks, left, i)) && LeftNoted(ks, left, i, vec0, aindex.vec)
      {
        var key := CopyLeft(a0, left, i, index);
        NoteLeft(key, i, ks, left, index, vec0);
        i := i + 1;
      }
    }

    /** A shift to the right that has freed slot i. */
    ghost predicate MidRight(a0: seq<Pair>, right: nat, i: nat)
      reads `arr, arr, `hashcol, hashcol
      requires i <= right < |a0|
    {
      && arr[..] == ShiftedRight(a0, right, i)
      && InRange(hashKey)
      && Hashed(ShiftedRight(Keys(a0), right, i)[i := NULLKEY])
      && Used(ShiftedRight(Keys(a0), right, i)[i := NULLKEY]) == Used(Keys(a0))
    }

    lemma RightReady(a0: seq<Pair>, index: int, right: nat, i: nat)
      requires Sorted(Keys(a0)) && RightRun(Keys(a0), index, right) && index + 2 <= i <= right && MidRight(a0, right, i)
      ensures right < |Keys(a0)| == |ShiftedRight(Keys(a0), right, i)|
      ensures var w := ShiftedRight(Keys(a0), right, i)[i := NULLKEY];
              && InRange(hashKey) && Hashed(w) && Sorted(w)
              && 1 <= i < arr.Length == |w| == |a0| == |Keys(a0)|
              && w[i] == NULLKEY && w[i - 1] == Keys(a0)[i - 1] == arr[i - 1].key != NULLKEY
              && arr[..][i := arr[..][i - 1]] == ShiftedRight(a0, right, i - 1)
              && Agrees(arr[..][i := arr[..][i - 1]], w)
              && w[i := w[i - 1]][i - 1 := NULLKEY] == ShiftedRight(Keys(a0), right, i - 1)[i - 1 := NULLKEY]
              && Used(ShiftedRight(Keys(a0), right, i - 1)[i - 1 := NULLKEY]) == Used(Keys(a0))
    {
      RightMove(Keys(a0), index, right, i);
      RightMovePairs(a0, right, i);
    }

    lemma RightFolds(a0: seq<Pair>, right: nat, i: nat)
      requires i <= right < |a0| == |Keys(a0)| && InRange(hashKey) && arr[..] == ShiftedRight(a0, right, i)
      requires Hashed(ShiftedRight(Keys(a0), right, i)[i := NULLKEY])
      requires Used(ShiftedRight(Keys(a0), right, i)[i := NULLKEY]) == Used(Keys(a0))
      ensures MidRight(a0, right, i)
    {
    }

    /** Copies the pair before the free slot i into it, and redirects its hash entry. */
    method CopyRight(ghost a0: seq<Pair>, ghost index: int, ghost right: nat, i: nat) returns (key: int)
      requires Sorted(Keys(a0)) && RightRun(Keys(a0), index, right) && index + 2 <= i <= right && MidRight(a0, right, i)
      modifies arr, hashcol
      ensures MidRight(a0, right, i - 1) && key == Keys(a0)[i - 1]
    {
      hide *;
      RightReady(a0, index, right, i);
      ghost var w := ShiftedRight(Keys(a0), right, i)[i := NULLKEY];
      arr[i] := arr[i - 1];
      assert arr[..] == old(arr[..])[i := old(arr[..])[i - 1]];
      key := arr[i].key;
      MoveHash(key, i - 1, i, w);
      RightFolds(a0, right, i - 1);
    }

    /** Lets the block index follow a copy to the right, at the first slot of a block. */
    method NoteRight(key: int, ghost ks: seq<int>, ghost index: int, ghost right: nat, i: nat,
                     ghost vec0: seq<GapVector>, ghost top0: nat)
      requires Sorted(ks) && RightRun(ks, index, right) && index + 2 <= i <= right && key == ks[i - 1]
      requires Indexed(ShiftedRight(ks, right, i)) && |vec0| == top0 + 1
      requires RightNoted(right, i, vec0, top0, aindex.vec, aindex.topLevel)
      modifies aindex
      ensures Indexed(ShiftedRight(ks, right, i - 1))
      ensures RightNoted(right, i - 1, vec0, top0, aindex.vec, aindex.topLevel)
    {
      ghost var was, now := ShiftedRight(ks, right, i), ShiftedRight(ks, right, i - 1);
      ghost var vec, top := aindex.vec, aindex.topLevel;
      RightStep(ks, index, right, i, aindex.vec[0].slots);
      RightLead(ks, index, right, i, aindex.vec, aindex.topLevel);
      hide Sorted, Exact, UpperOk, AwaitsWrite, LostHead, RightNoted, Noted, NonDecreasing, Near;
      if i % BLOCK == 0 {
        NoteMoved(key, i, false, was, now);
      }
      RightNotedOn(ks, index, right, i, vec0, top0, vec, top, aindex.vec, aindex.topLevel);
    }

    lemma RightStarts(index: int, right: nat)
      requires InRange(hashKey) && Hashed(K()) && Indexed(K()) && RightRun(K(), index, right)
      ensures -1 <= index < right < |arr[..]| == |K()| && Keys(arr[..]) == K() && |aindex.vec| == aindex.topLevel + 1
      ensures MidRight(arr[..], right, right) && Indexed(ShiftedRight(K(), right, right))
      ensures RightNoted(right, right, aindex.vec, aindex.topLevel, aindex.vec, aindex.topLevel)
    {
      ShiftStarts(arr[..], right);
    }

    /** Moves the run between index and the gap one slot to the right. */
    method ShiftRight(index: int, right: nat)
      requires InRange(hashKey) && Hashed(K()) && Indexed(K()) && Sorted(K()) && RightRun(K(), index, right)
      modifies arr, hashcol, aindex
      ensures MidRight(old(arr[..]), right, index + 1)
      ensures Indexed(ShiftedRight(old(K()), right, index + 1))
      ensures RightNoted(right, index + 1, old(aindex.vec), old(aindex.topLevel), aindex.vec, aindex.topLevel)
    {
      hide *;
      RightStarts(index, right);
      ghost var a0, ks, vec0, top0 := arr[..], K(), aindex.vec, aindex.topLevel;
      var i: int := right;
      while i >= index + 2
        invariant index + 1 <= i <= right
        invariant MidRight(a0, right, i) && Indexed(ShiftedRight(ks, right, i))
        invariant RightNoted(right, i, vec0, top0, aindex.vec, aindex.topLevel)
      {
        var key := CopyRight(a0, index, right, i);
        NoteRight(key, ks, index, right, i, vec0, top0);
        i := i - 1;
      }
    }

    lemma KeysAt()
      ensures |K()| == arr.Length && forall j :: 0 <= j < arr.Length ==> K()[j] == arr[j].key
    {
    }

    /** Looks for the nearest gap, to the right first, then to the left, one slot further out each time. */
    method FindGap(index: int) returns (leftfound: bool, gap: nat)
      requires -1 <= index < arr.Length && (index >= 0 ==> arr[index].key != NULLKEY)
      requires Used(K()) < arr.Length
      ensures leftfound ==> 0 <= index && LeftRun(K(), gap, index) && NoGap(K(), index, index + (index - gap))
      ensures !leftfound ==> RightRun(K(), index, gap) && NoGap(K(), index - (gap - index) + 1, index)
    {
      hide Used, Keys;
      KeysAt();
      ghost var z := FreeSlot(K());
      ghost var out := 0;
      var left, right := index, index;
      while true
        invariant 0 <= out && left == (if index - out < -1 then -1 else index - out)
        invariant right == if index + out > arr.Length then arr.Length else index + out
        invariant forall j :: left <= j <= right && 0 <= j < arr.Length ==> arr[j].key != NULLKEY
        decreases arr.Length - right + left + 1
      {
        assert left >= 0 || right < arr.Length by {
          assert K()[z] == arr[z].key;
        }
        out := out + 1;
        if right >= arr.Length {
          left := left - 1;
        } else if left < 0 {
          right := right + 1;
        } else {
          left, right := left - 1, right + 1;
        }
        if right < arr.Length && arr[right].key == NULLKEY {
          return false, right;
        }
        if left >= 0 && arr[left].key == NULLKEY {
          return true, left;
        }
      }
    }

    lemma RecheckReady(left: nat, ks: seq<int>, index: nat)
      requires LeftRun(ks, left, index) && Sorted(ks)
      requires K() == ShiftedLeft(ks, left, index) && left < arr.Length && arr[left].key != NULLKEY && Indexed(K())
      ensures NonDecreasing(K()) && !LostHead(aindex.vec, aindex.topLevel, left)
      ensures AwaitsWrite(K(), aindex.vec[0].slots, left / BLOCK, arr[left].key, false)
    {
      var now := K();
      ShiftsNonDecreasing(ks, left, index);
      assert now[left := now[left]] == now;
      OverwriteIndexed(now, aindex.vec[0].slots, left, now[left], now);
      HeadNotLost(now, aindex.vec, aindex.topLevel, left, left);
    }

    /**
      After a shift to the left that began inside a block with nothing before it, notes the block's first key once
      more.
     */
    method RecheckLeft(left: nat, ghost ks: seq<int>, ghost index: nat, ghost vec0: seq<GapVector>)
      requires LeftRun(ks, left, index) && Sorted(ks)
      requires K() == ShiftedLeft(ks, left, index) && left < arr.Length && arr[left].key != NULLKEY
      requires Indexed(K()) && LeftNoted(ks, left, index, vec0, aindex.vec)
      modifies aindex
      ensures Indexed(K()) && LeftNoted(ks, left, index, vec0, aindex.vec)
    {
      if left % BLOCK != 0 {
        var start := left / BLOCK * BLOCK;
        var allempty, i: int := true, left - 1;
        while i >= start
          invariant start - 1 <= i < left
          invariant allempty && AllNull(K(), i + 1, left)
        {
          if arr[i].key != NULLKEY {
            allempty := false;
            break;
          }
          i := i - 1;
        }
        if allempty {
          RecheckReady(left, ks, index);
          ghost var vec, top := aindex.vec, aindex.topLevel;
          NoteMoved(arr[left].key, left, false, K(), K());
          LeftNotedAgain(ks, left, index, vec0, vec, top, aindex.vec);
        }
      }
    }

    /**
      Puts a pair into a free slot of an array being filled in order; its block already has a key, so the index
      stands.
     */
    method PlaceQuietly(p: Pair, pos: nat)
      requires InRange(hashKey) && p.key != NULLKEY && Hashed(K()) && Indexed(K())
      requires pos < arr.Length && arr[pos].key == NULLKEY
      requires !AllNull(K(), pos / BLOCK * BLOCK, pos)
      modifies arr, hashcol
      ensures arr[..] == old(arr[..])[pos := p] && K() == old(K())[pos := p.key]
      ensures Hashed(K()) && Indexed(K())
    {
      ghost var was := K();
      HiddenIndexed(was, aindex.vec[0].slots, pos, p.key, was[pos := p.key]);
      hide TableOk, Exact, UpperOk, AllNull;
      arr[pos] := p;
      assert arr[..] == old(arr[..])[pos := p];
      assert K() == was[pos := p.key];
      EnterHash(p.key, pos, was);
    }

    /**
      The array that takes over when this one grows, while it holds the pairs before slot i, the last one at lastPos.
     */
    ghost predicate Filling(next: JagArray, i: int, lastPos: int)
      reads this, arr, next, next.arr, next.hashcol, next.aindex
    {
      && 0 <= i <= arr.Length
      && next.hashKey == hashKey && next.usehash == usehash && InRange(hashKey)
      && next.Hashed(next.K()) && next.Indexed(next.K()) && next.TightIndex()
      && Copied(arr[..i], next.arr[..], lastPos)
    }

    lemma CopyReady(next: JagArray, i: nat, pos: nat, lastBlock: int, lastPos: int)
      requires Filling(next, i, lastPos) && Sorted(K()) && i < arr.Length && arr[i].key != NULLKEY
      requires Leading(lastPos, pos, lastBlock) && pos < next.arr.Length
      ensures next.hashKey == hashKey && next.usehash == usehash && InRange(hashKey)
      ensures var was := next.K(); var key := arr[i].key;
              && |was| == next.arr.Length && was[pos] == NULLKEY && next.arr[pos].key == NULLKEY
              && Sorted(was[pos := key]) && next.Hashed(was) && was[pos := NULLKEY] == was
              && next.Indexed(was) && Shaped(next.aindex.vec, next.aindex.topLevel)
              && AwaitsWrite(was[pos := key], next.aindex.vec[0].slots, pos / BLOCK, key, false)
              && !LostHead(next.aindex.vec, next.aindex.topLevel, pos) && Tight(next.aindex.vec)
              && (BlockOf(pos) == lastBlock ==> !AllNull(was, pos / BLOCK * BLOCK, pos))
      ensures Copied(arr[..i + 1], next.arr[..][pos := arr[i]], pos)
    {
      CopiedOne(arr[..i], arr[i], next.arr[..], lastPos, pos, K());
      assert arr[..i + 1] == arr[..i] + [arr[i]];
      var was := next.K();
      assert was[pos := NULLKEY] == was;
      HeadThere(was, next.aindex.vec, next.aindex.topLevel);
      SortedIsNonDecreasing(was[pos := arr[i].key]);
      OverwriteIndexed(was, next.aindex.vec[0].slots, pos, arr[i].key, was[pos := arr[i].key]);
      if pos / BLOCK == lastBlock {
        assert At(was, lastPos) != NULLKEY;
      }
    }

    lemma CopyFolds(next: JagArray, i: nat, pos: nat, dst: seq<Pair>)
      requires i < arr.Length && pos < |dst| && next.arr[..] == dst[pos := arr[i]]
      requires next.hashKey == hashKey && next.usehash == usehash && InRange(hashKey)
      requires next.Hashed(next.K()) && next.Indexed(next.K()) && Tight(next.aindex.vec)
      requires Copied(arr[..i + 1], dst[pos := arr[i]], pos)
      ensures Filling(next, i + 1, pos)
    {
    }

    /** One pair goes over: the block index hears of it when it is the first of its block. */
    method CopyOver(next: JagArray, i: nat, pos: nat, lastBlock: int, ghost lastPos: int)
      requires next.arr != arr && next.aindex != aindex && next.hashcol != hashcol
      requires Filling(next, i, lastPos) && Sorted(K()) && i < arr.Length && arr[i].key != NULLKEY
      requires Leading(lastPos, pos, lastBlock) && pos < next.arr.Length
      modifies next.arr, next.hashcol, next.aindex
      ensures Filling(next, i + 1, pos)
    {
      hide *;
      CopyReady(next, i, pos, lastBlock, lastPos);
      ghost var was, dst := next.K(), next.arr[..];
      if BlockOf(pos) != lastBlock {
        ghost var vec, top := next.aindex.vec, next.aindex.topLevel;
        next.Place(arr[i], pos, false, was);
        StaysTight(was, vec, top, pos, next.aindex.vec);
      } else {
        next.PlaceQuietly(arr[i], pos);
      }
      CopyFolds(next, i, pos, dst);
    }

    /** Takes over the storage and the indexes of an array that holds the same pairs. */
    method Adopt(next: JagArray, newFirst: int, newLast: int)
      requires next.arr.Length >= 2 && next.hashKey == hashKey && next.usehash == usehash && InRange(hashKey)
      requires Ordered(next.K(), elements, newFirst, newLast)
      requires next.Hashed(next.K()) && next.Indexed(next.K()) && next.TightIndex()
      modifies this
      ensures Valid() && TightIndex() && arr == next.arr && hashcol == next.hashcol && aindex == next.aindex
      ensures elements == old(elements)
    {
      hide Ordered, TableOk, IndexOk;
      arr, hashcol, aindex := next.arr, next.hashcol, next.aindex;
      last, first := newLast, newFirst;
    }

    lemma GrowReady()
      requires Base()
      ensures InRange(hashKey) && GEO * arr.Length >= 2
    {
    }

    lemma FillDone(next: JagArray, lastPos: int, pos: int)
      requires Base() && elements >= 1 && Filling(next, arr.Length, lastPos) && lastPos < pos
      requires next.arr.Length == GEO * arr.Length
      ensures Ordered(next.K(), elements, 0, pos)
      ensures next.Hashed(next.K()) && next.Indexed(next.K()) && next.TightIndex()
      ensures Stored(next.arr[..]) == Stored(arr[..]) && next.arr[0].key != NULLKEY
    {
      assert arr[..arr.Length] == arr[..];
      assert Used(next.K()) >= 1;
      if lastPos < 0 {
        UsedNone(next.K());
      }
    }

    lemma FillFromNothing(next: JagArray)
      requires next.Valid() && next.TightIndex() && Stored(next.arr[..]) == {}
      requires next.hashKey == hashKey && next.usehash == usehash
      ensures Filling(next, 0, -1)
    {
      forall j | 0 <= j < next.arr.Length
        ensures next.K()[j] == NULLKEY
      {
        assert next.arr[j] in next.arr[..];
        assert next.arr[j] !in Stored(next.arr[..]);
      }
      UsedNone(next.K());
    }

    method FillStarts(next: JagArray, goRight: bool) returns (avgstep: nat)
      requires Base() && elements >= 1 && next.arr.Length == GEO * arr.Length
      requires next.Valid() && next.TightIndex() && Stored(next.arr[..]) == {}
      requires next.hashKey == hashKey && next.usehash == usehash
      ensures Filling(next, 0, -1) && Leading(-1, 0, -1) && Paced(K(), 0, goRight, 0, avgstep)
    {
      FillFromNothing(next);
      avgstep := next.arr.Length / elements;
    }

    lemma FillEnds(lastPos: int, pos: nat, lastBlock: int)
      requires Leading(lastPos, pos, lastBlock)
      ensures lastPos < pos
    {
    }

    lemma FillSkips(next: JagArray, i: nat, lastPos: int)
      requires Filling(next, i, lastPos) && i < arr.Length && arr[i].key == NULLKEY
      ensures Filling(next, i + 1, lastPos)
    {
      assert arr[..i + 1] == arr[..i] + [arr[i]];
      CopiedSkip(arr[..i], arr[i], next.arr[..], lastPos);
    }

    lemma FillFacts(next: JagArray, i: nat, goRight: bool, pos: nat, avgstep: int, lastPos: int, lastBlock: int)
      requires Base() && Filling(next, i, lastPos) && i < arr.Length && Paced(K(), i, goRight, pos, avgstep)
      requires next.arr.Length == GEO * arr.Length
      ensures Sorted(K())
      ensures arr[i].key == NULLKEY ==> Filling(next, i + 1, lastPos) && Paced(K(), i + 1, goRight, pos, avgstep)
      ensures arr[i].key != NULLKEY ==>
                && pos < next.arr.Length
                && Leading(pos, pos + (if goRight then (if i % 7 == 0 then 2 else 1) else avgstep), BlockOf(pos))
                && Paced(K(), i + 1, goRight, pos
                  + (if goRight then (if i % 7 == 0 then 2 else 1) else avgstep), avgstep)
    {
      PacedOn(K(), i, goRight, pos, avgstep, if i % 7 == 0 then 2 else 1);
      if arr[i].key == NULLKEY {
        FillSkips(next, i, lastPos);
      }
    }

    /** Copies every pair over, each some slots after the one before. */
    method Redistribute(next: JagArray, goRight: bool) returns (pos: nat, ghost lastPos: int)
      requires Base() && elements >= 1 && next.Valid() && next.TightIndex() && Stored(next.arr[..]) == {}
      requires next.hashKey == hashKey && next.usehash == usehash && next.arr.Length == GEO * arr.Length
      requires next.arr != arr && next.aindex != aindex && next.hashcol != hashcol
      modifies next.arr, next.hashcol, next.aindex
      ensures lastPos < pos && Filling(next, arr.Length, lastPos)
    {
      hide *;
      var avgstep := FillStarts(next, goRight);
      var i, lastBlock := 0, -1;
      lastPos, pos := -1, 0;
      while i < arr.Length
        invariant 0 <= i <= arr.Length
        invariant Filling(next, i, lastPos) && Leading(lastPos, pos, lastBlock)
        invariant Paced(K(), i, goRight, pos, avgstep)
      {
        FillFacts(next, i, goRight, pos, avgstep, lastPos, lastBlock);
        if arr[i].key != NULLKEY {
          CopyOver(next, i, pos, lastBlock, lastPos);
          lastBlock, lastPos := BlockOf(pos), pos;
          if goRight {
            pos := pos + if i % 7 == 0 then 2 else 1;
          } else {
            pos := pos + avgstep;
          }
        }
        i := i + 1;
      }
      FillEnds(lastPos, pos, lastBlock);
    }

    /**
      Doubles the array: its pairs go over in order, close together or spread out evenly. Both indexes are built anew,
      whatever the old ones were.
     */
    method Grow(goRight: bool)
      requires Base() && elements >= 1
      modifies this
      ensures Valid() && TightIndex() && fresh(arr) && fresh(hashcol) && fresh(aindex)
      ensures arr.Length == GEO * old(arr.Length) && elements == old(elements) && arr[0].key != NULLKEY
      ensures Stored(arr[..]) == old(Stored(arr[..]))
    {
      hide Base, Valid, Ordered, TableOk, IndexOk, Copied, InRange, Stored, Tight, Keys;
      GrowReady();
      var next := new JagArray(GEO * arr.Length, usehash, hashKey);
      ghost var lastPos;
      var pos;
      pos, lastPos := Redistribute(next, goRight);
      FillDone(next, lastPos, pos);
      Adopt(next, 0, pos);
    }

    /**
      The array that takes over when this one shrinks, while it holds the pairs from slot i on, the first one at low.
     */
    ghost predicate Draining(next: JagArray, i: int, low: int)
      reads this, arr, next, next.arr, next.hashcol, next.aindex
    {
      && 0 <= i <= arr.Length
      && next.hashKey == hashKey && next.usehash == usehash && InRange(hashKey)
      && next.Hashed(next.K()) && next.Indexed(next.K()) && next.TightIndex()
      && CopiedBack(arr[i..], next.arr[..], low)
    }

    lemma BackCopied(next: JagArray, i: nat, pos: int, low: int)
      requires Base() && Draining(next, i + 1, low) && i < arr.Length && arr[i].key != NULLKEY
      requires 0 <= pos < low <= next.arr.Length && (low == next.arr.Length ==> pos == low - 1)
      ensures arr[i..] == [arr[i]] + arr[i + 1..]
              && CopiedBack([arr[i]] + arr[i + 1..], next.arr[..][pos := arr[i]], pos)
      ensures var was := next.K();
              && |was| == next.arr.Length && was[pos] == NULLKEY && Sorted(was[pos := arr[i].key])
                && AllNull(was, 0, pos)
              && (low < |was| ==> At(was, |was| - 1) != NULLKEY) && (low == |was| ==> forall j :: At(was, j) == NULLKEY)
    {
      assert arr[i..] == [arr[i]] + arr[i + 1..];
      CopiedBackOne(arr[i + 1..], arr[i], next.arr[..], low, pos, K(), i);
    }

    lemma BackWrites(next: JagArray, i: nat, pos: int, low: int)
      requires Base() && Draining(next, i + 1, low) && i < arr.Length && arr[i].key != NULLKEY
      requires 0 <= pos < low <= next.arr.Length && (low == next.arr.Length ==> pos == low - 1)
      ensures var was := next.K(); var key := arr[i].key;
              && pos < |was| && was[pos := NULLKEY] == was && Sorted(was[pos := key])
              && Shaped(next.aindex.vec, next.aindex.topLevel)
              && AwaitsWrite(was[pos := key], next.aindex.vec[0].slots, pos / BLOCK, key, false)
              && !LostHead(next.aindex.vec, next.aindex.topLevel, pos) && AllNull(was, 0, pos)
              && CopiedBack(arr[i..], next.arr[..][pos := arr[i]], pos)
    {
      hide Sorted, CopiedBack, AwaitsWrite, LostHead, UpperOk, Exact, TableOk;
      assert arr[i..] == [arr[i]] + arr[i + 1..];
      BackCopied(next, i, pos, low);
      BackIndexed(next.K(), next.aindex.vec, next.aindex.topLevel, pos, arr[i].key, low);
      var was := next.K();
      assert was[pos := NULLKEY] == was;
    }

    lemma BackReady(next: JagArray, i: nat, pos: int, low: int)
      requires Base() && Draining(next, i + 1, low) && Backed(K(), i + 1, pos, low) && i < arr.Length
      requires next.arr.Length == arr.Length / GEO && SmallLoad(elements, arr.Length)
      ensures arr[i].key == NULLKEY ==> Draining(next, i, low) && Backed(K(), i, pos, low)
      ensures arr[i].key != NULLKEY ==>
                var was := next.K(); var key := arr[i].key;
                && 0 <= pos < |was| == next.arr.Length && was[pos := NULLKEY] == was && Sorted(was[pos := key])
                && next.hashKey == hashKey && next.usehash == usehash && InRange(hashKey)
                && next.Hashed(was) && next.Indexed(was) && Shaped(next.aindex.vec, next.aindex.topLevel)
                && AwaitsWrite(was[pos := key], next.aindex.vec[0].slots, pos / BLOCK, key, false)
                && !LostHead(next.aindex.vec, next.aindex.topLevel, pos) && AllNull(was, 0, pos)
                && CopiedBack(arr[i..], next.arr[..][pos := arr[i]], pos)
                && Backed(K(), i, pos - 3, pos)
    {
      assert arr[i..] == [arr[i]] + arr[i + 1..];
      BackedOn(K(), i, pos, low, elements);
      if arr[i].key == NULLKEY {
        CopiedBackSkip(arr[i + 1..], arr[i], next.arr[..], low);
      } else {
        BackWrites(next, i, pos, low);
      }
    }

    lemma BackFolds(next: JagArray, i: nat, pos: nat, dst: seq<Pair>)
      requires i < arr.Length && pos < |dst| && next.arr[..] == dst[pos := arr[i]]
      requires next.hashKey == hashKey && next.usehash == usehash && InRange(hashKey)
      requires next.Hashed(next.K()) && next.Indexed(next.K()) && Tight(next.aindex.vec)
      requires CopiedBack(arr[i..], dst[pos := arr[i]], pos)
      ensures Draining(next, i, pos)
    {
    }

    lemma BackStarts(next: JagArray)
      requires Base() && next.Valid() && next.TightIndex() && Stored(next.arr[..]) == {}
      requires next.hashKey == hashKey && next.usehash == usehash
      requires next.arr.Length == arr.Length / GEO
      ensures Draining(next, arr.Length, next.arr.Length)
              && Backed(K(), arr.Length, next.arr.Length - 1, next.arr.Length)
    {
      forall j | 0 <= j < next.arr.Length
        ensures next.K()[j] == NULLKEY
      {
        assert next.arr[j] in next.arr[..];
        assert next.arr[j] !in Stored(next.arr[..]);
      }
      UsedNone(next.K());
      assert K()[arr.Length..] == [];
    }

    /** Copies every pair over from the greatest down, three slots apart, to the end of the smaller array. */
    method RedistributeShrink(next: JagArray) returns (pos: int, ghost low: int)
      requires Base() && next.Valid() && next.TightIndex() && Stored(next.arr[..]) == {}
      requires next.hashKey == hashKey && next.usehash == usehash
      requires next.arr.Length == arr.Length / GEO && SmallLoad(elements, arr.Length)
      requires next.arr != arr && next.aindex != aindex && next.hashcol != hashcol
      modifies next.arr, next.hashcol, next.aindex
      ensures Draining(next, 0, low) && Backed(K(), 0, pos, low)
    {
      hide *;
      BackStarts(next);
      pos, low := next.arr.Length - 1, next.arr.Length;
      var i := arr.Length - 1;
      while i >= 0
        invariant -1 <= i < arr.Length
        invariant Draining(next, i + 1, low) && Backed(K(), i + 1, pos, low)
      {
        BackReady(next, i, pos, low);
        if arr[i].key != NULLKEY {
          ghost var dst := next.arr[..];
          ghost var was, vec, top := next.K(), next.aindex.vec, next.aindex.topLevel;
          next.Place(arr[i], pos, false, was);
          GetsTight(was, vec, top, pos, next.aindex.vec);
          BackFolds(next, i, pos, dst);
          low := pos;
          pos := pos - 3;
        }
        i := i - 1;
      }
    }

    lemma BackDone(next: JagArray, pos: int, low: int)
      requires Base() && Draining(next, 0, low) && Backed(K(), 0, pos, low)
      requires next.arr.Length == arr.Length / GEO && SmallLoad(elements, arr.Length)
      ensures Ordered(next.K(), elements, if pos < 0 then 0 else pos, next.arr.Length - 1)
      ensures next.Hashed(next.K()) && next.Indexed(next.K()) && next.TightIndex()
      ensures Stored(next.arr[..]) == Stored(arr[..])
    {
      assert arr[0..] == arr[..];
    }

    lemma ShrinkReady()
      requires Base() && SmallLoad(elements, arr.Length)
      ensures InRange(hashKey) && arr.Length / GEO >= 2
    {
    }

    /** Halves the array. Both indexes are built anew, whatever the old ones were. */
    method Shrink()
      requires Base() && SmallLoad(elements, arr.Length)
      modifies this
      ensures Valid() && TightIndex() && fresh(arr) && fresh(hashcol) && fresh(aindex)
      ensures arr.Length == old(arr.Length) / GEO && elements == old(elements)
      ensures Stored(arr[..]) == old(Stored(arr[..]))
    {
      hide Base, Valid, Ordered, TableOk, IndexOk, CopiedBack, Backed, InRange, Stored, Tight, Keys;
      ShrinkReady();
      var next := new JagArray(arr.Length / GEO, usehash, hashKey);
      ghost var low;
      var pos;
      pos, low := RedistributeShrink(next);
      BackDone(next, pos, low);
      Adopt(next, if pos < 0 then 0 else pos, next.arr.Length - 1);
    }

    lemma Parts()
      requires Valid()
      ensures Base() && InRange(hashKey) && Hashed(K()) && Indexed(K()) && Sorted(K())
      ensures Ordered(K(), elements, first, last)
      ensures Used(K()) == elements < arr.Length && 0 <= elements
      ensures |K()| == arr.Length == |arr[..]| && arr.Length >= 2 && K() == Keys(arr[..])
      ensures Shaped(aindex.vec, aindex.topLevel) && |aindex.vec| == aindex.topLevel + 1
      ensures forall j :: 0 <= j < arr.Length ==> arr[j].key == K()[j]
      ensures Viewed(K()) && forall k :: Misses(k) <==> Strays(K(), aindex.vec, aindex.topLevel, k)
    {
    }

    lemma LeftShifted(a0: seq<Pair>, left: nat, index: nat)
      requires LeftRun(Keys(a0), left, index) && Sorted(Keys(a0)) && MidLeft(a0, left, index)
      requires Indexed(ShiftedLeft(Keys(a0), left, index))
      ensures K() == ShiftedLeft(Keys(a0), left, index) && left < arr.Length && arr[left].key != NULLKEY
    {
      KeysShifted(a0, left, index);
      assert K()[left] == arr[left].key;
    }

    lemma LeftPlaceReady(a0: seq<Pair>, left: nat, index: nat, k: int)
      requires LeftRun(Keys(a0), left, index) && Sorted(Keys(a0)) && MidLeft(a0, left, index) && Indexed(K())
      requires k != NULLKEY && IsPred(Keys(a0), 0, |Keys(a0)| - 1, k, index) && Keys(a0)[index] != k
      ensures arr[..] == ShiftedLeft(a0, left, index) && index < arr.Length == |K()|
      ensures K() == ShiftedLeft(Keys(a0), left, index)
      ensures Used(ShiftedLeft(Keys(a0), left, index)[index := NULLKEY]) == Used(Keys(a0))
      ensures Hashed(K()[index := NULLKEY]) && Sorted(K()[index := k]) && InRange(hashKey)
      ensures Shaped(aindex.vec, aindex.topLevel) && !LostHead(aindex.vec, aindex.topLevel, index)
      ensures AwaitsWrite(K()[index := k], aindex.vec[0].slots, index / BLOCK, k, BlockStart(index))
    {
      KeysShifted(a0, left, index);
      LeftPlaced(Keys(a0), left, index, k, aindex.vec[0].slots);
      assert At(K(), index) == Keys(a0)[index];
      HeadNotLost(K(), aindex.vec, aindex.topLevel, index, index);
    }

    lemma LeftInserted(a0: seq<Pair>, left: nat, index: nat, p: Pair, first0: int)
      requires Ordered(Keys(a0), elements - 1, first0, last) && LeftRun(Keys(a0), left, index) && p.key != NULLKEY
      requires elements < arr.Length == |a0| && |a0| >= 2 && first == (if left < first0 then left else first0)
      requires IsPred(Keys(a0), 0, |Keys(a0)| - 1, p.key, index) && Keys(a0)[index] != p.key
      requires arr[..] == ShiftedLeft(a0, left, index)[index := p]
      requires InRange(hashKey) && Hashed(K()) && Indexed(K())
      requires Used(ShiftedLeft(Keys(a0), left, index)[index := NULLKEY]) == Used(Keys(a0))
      ensures Valid() && index < arr.Length && arr[index] == p && Stored(arr[..]) == Stored(a0) + {p}
      ensures |a0| > 0 && (a0[0].key != NULLKEY ==> arr[0].key != NULLKEY)
    {
      assert Keys(a0)[0] == a0[0].key && arr[0] == arr[..][0];
      StoredLeft(a0, left, index, p);
      KeysShifted(a0, left, index);
      assert K() == ShiftedLeft(Keys(a0), left, index)[index := p.key];
      OrderedAfterLeft(Keys(a0), left, index, p.key, elements - 1, first0, last);
    }

    /** Opens a gap at the predecessor's slot by shifting to the left, and puts the pair in. */
    method InsertLeft(p: Pair, left: nat, index: nat)
      requires Valid() && p.key != NULLKEY && elements + 1 < arr.Length
      requires LeftRun(K(), left, index) && IsPred(K(), 0, |K()| - 1, p.key, index) && K()[index] != p.key
      modifies this`elements, this`first, arr, hashcol, aindex
      ensures Valid() && elements == old(elements) + 1
      ensures Noted(old(K()), old(aindex.vec), old(aindex.topLevel), left, index, aindex.vec)
      ensures index < arr.Length && arr[index] == p && Stored(arr[..]) == old(Stored(arr[..])) + {p}
      ensures arr.Length > 0 && (old(arr[..])[0].key != NULLKEY ==> arr[0].key != NULLKEY)
    {
      hide *;
      Parts();
      ghost var a0, ks, vec0, top0 := arr[..], K(), aindex.vec, aindex.topLevel;
      ShiftLeft(left, index);
      LeftShifted(a0, left, index);
      RecheckLeft(left, ks, index, vec0);
      LeftPlaceReady(a0, left, index, p.key);
      ghost var was, vec, top := K(), aindex.vec, aindex.topLevel;
      Place(p, index, BlockStart(index), was);
      LeftNotedEnds(ks, left, index, vec0, top0, vec, top, aindex.vec);
      if left < first {
        first := left;
      }
      elements := elements + 1;
      LeftInserted(a0, left, index, p, old(first));
    }

    lemma RightPlaceReady(a0: seq<Pair>, index: int, right: nat, k: int)
      requires RightRun(Keys(a0), index, right) && Sorted(Keys(a0)) && MidRight(a0, right, index + 1) && k != NULLKEY
      requires (IsPred(Keys(a0), 0, |Keys(a0)| - 1, k, index) && Keys(a0)[index] != k)
               || (index == -1 && IsBelowAll(Keys(a0), 0, k, index))
      ensures arr[..] == ShiftedRight(a0, right, index + 1) && 0 <= index + 1 < arr.Length == |K()|
      ensures Hashed(K()[index + 1 := NULLKEY]) && Sorted(K()[index + 1 := k]) && InRange(hashKey)
      ensures K() == ShiftedRight(Keys(a0), right, index + 1)
      ensures Used(ShiftedRight(Keys(a0), right, index + 1)[index + 1 := NULLKEY]) == Used(Keys(a0))
    {
      hide Sorted, TableOk, Used, Exact, AllNull, IsPred;
      KeysShifted(a0, right, index + 1);
      RightPlaced(Keys(a0), index, right, k, []);
    }

    lemma RightNoteReady(a0: seq<Pair>, index: int, right: nat, k: int)
      requires RightRun(Keys(a0), index, right) && Sorted(Keys(a0)) && k != NULLKEY
      requires (IsPred(Keys(a0), 0, |Keys(a0)| - 1, k, index) && Keys(a0)[index] != k)
               || (index == -1 && IsBelowAll(Keys(a0), 0, k, index))
      requires K() == ShiftedRight(Keys(a0), right, index + 1) && Indexed(K())
      ensures 0 <= index + 1 < |K()| && Near(K(), index + 1) && Shaped(aindex.vec, aindex.topLevel)
      ensures |aindex.vec| == aindex.topLevel + 1
      ensures AwaitsWrite(K()[index + 1 := k], aindex.vec[0].slots, (index + 1) / BLOCK, k, false)
      ensures index + 1 < right ==> !LostHead(aindex.vec, aindex.topLevel, index + 1)
    {
      RightPlaced(Keys(a0), index, right, k, aindex.vec[0].slots);
      RightNear(Keys(a0), index, right, k);
      hide Sorted, AwaitsWrite, LostHead, Exact, IsPred, IsBelowAll, Near;
      if index + 1 < right {
        assert At(K(), right) == Keys(a0)[right - 1] != NULLKEY;
        HeadNotLost(K(), aindex.vec, aindex.topLevel, index + 1, right);
      }
    }

    lemma RightInserted(a0: seq<Pair>, index: int, right: nat, p: Pair, first0: int, last0: int)
      requires Ordered(Keys(a0), elements - 1, first0, last0) && RightRun(Keys(a0), index, right) && p.key != NULLKEY
      requires elements < arr.Length == |a0| && |a0| >= 2
      requires first == (if index + 1 < first0 then index + 1 else first0)
      requires last == (if right > last0 then right else last0)
      requires (IsPred(Keys(a0), 0, |Keys(a0)| - 1, p.key, index) && Keys(a0)[index] != p.key)
               || (index == -1 && IsBelowAll(Keys(a0), 0, p.key, index))
      requires arr[..] == ShiftedRight(a0, right, index + 1)[index + 1 := p]
      requires InRange(hashKey) && Hashed(K()) && Indexed(K())
      requires Used(ShiftedRight(Keys(a0), right, index + 1)[index + 1 := NULLKEY]) == Used(Keys(a0))
      ensures Valid() && index + 1 < arr.Length && arr[index + 1] == p
      ensures Stored(arr[..]) == Stored(a0) + {p}
      ensures |a0| > 0 && (a0[0].key != NULLKEY ==> arr[0].key != NULLKEY)
    {
      assert Keys(a0)[0] == a0[0].key && arr[0] == arr[..][0];
      StoredRight(a0, index, right, p);
      RightKeys(a0, index, right, p);
      OrderedAfterRight(Keys(a0), index, right, p.key, elements - 1, first0, last0);
    }

    /** Opens a gap after the predecessor by shifting to the right, and puts the pair in. */
    method InsertRight(p: Pair, index: int, right: nat)
      requires Valid() && p.key != NULLKEY && elements + 1 < arr.Length && RightRun(K(), index, right)
      requires (IsPred(K(), 0, |K()| - 1, p.key, index) && K()[index] != p.key)
               || (index == -1 && IsBelowAll(K(), 0, p.key, index))
      modifies this`elements, this`first, this`last, arr, hashcol, aindex
      ensures Valid() && elements == old(elements) + 1 && index + 1 >= 0
      ensures Noted(old(K()), old(aindex.vec), old(aindex.topLevel), index + 1, right, aindex.vec)
      ensures index + 1 < arr.Length && arr[index + 1] == p
      ensures Stored(arr[..]) == old(Stored(arr[..])) + {p}
      ensures arr.Length > 0 && (old(arr[..])[0].key != NULLKEY ==> arr[0].key != NULLKEY)
    {
      hide *;
      Parts();
      ghost var a0, ks, vec0, top0 := arr[..], K(), aindex.vec, aindex.topLevel;
      RunFacts(ks, index, right);
      ShiftRight(index, right);
      RightPlaceReady(a0, index, right, p.key);
      RightNoteReady(a0, index, right, p.key);
      ghost var was, vec, top := K(), aindex.vec, aindex.topLevel;
      Place(p, index + 1, false, was);
      RightNotedEnds(ks, index, right, vec0, top0, vec, top, aindex.vec);
      if right > last {
        last := right;
      }
      if index + 1 < first {
        first := index + 1;
      }
      elements := elements + 1;
      RightInserted(a0, index, right, p, old(first), old(last));
    }

    lemma HereReady(p: Pair, pos: nat)
      requires Valid() && p.key != NULLKEY
      requires pos < |K()| && K()[pos] == NULLKEY && Sorted(K()[pos := p.key])
      ensures pos < arr.Length == |K()| && K()[pos := NULLKEY] == K() && K() == Keys(arr[..]) && arr.Length >= 2
      ensures InRange(hashKey) && Hashed(K()) && Indexed(K()) && Used(K()) == elements
      ensures Shaped(aindex.vec, aindex.topLevel)
      ensures AwaitsWrite(K()[pos := p.key], aindex.vec[0].slots, pos / BLOCK, p.key, false)
    {
      assert K()[pos := NULLKEY] == K();
      SortedIsNonDecreasing(K()[pos := p.key]);
      OverwriteIndexed(K(), aindex.vec[0].slots, pos, p.key, K()[pos := p.key]);
    }

    lemma HereDone(a0: seq<Pair>, p: Pair, pos: nat)
      requires pos < |a0| && Keys(a0)[pos] == NULLKEY && p.key != NULLKEY && arr[..] == a0[pos := p]
      requires K() == Keys(a0)[pos := p.key] && Sorted(K())
      requires arr.Length >= 2 && InRange(hashKey) && Hashed(K()) && elements == Used(Keys(a0)) + 1 < arr.Length
      requires 0 <= first <= pos <= last && Indexed(K())
      requires forall i :: 0 <= i < |a0| && (i < first || i > last) ==> Keys(a0)[i] == NULLKEY
      ensures Valid() && arr[pos] == p && Stored(arr[..]) == Stored(a0) + {p}
      ensures |a0| > 0 && (a0[0].key != NULLKEY ==> arr[0].key != NULLKEY)
    {
      UsedUpdate(Keys(a0), pos, p.key);
      StoredPlaced(a0, pos, p);
      assert arr[pos] == p;
    }

    /** Puts a pair into the free slot pos, widening the bounds of what is used. */
    method InsertHere(p: Pair, pos: nat, newFirst: int, newLast: int)
      requires Valid() && p.key != NULLKEY && elements + 1 < arr.Length
      requires pos < |K()| && K()[pos] == NULLKEY && Sorted(K()[pos := p.key]) && Near(K(), pos)
      requires 0 <= newFirst <= pos <= newLast
      requires forall i :: 0 <= i < |K()| && (i < newFirst || i > newLast) ==> K()[i] == NULLKEY
      modifies this`elements, this`first, this`last, arr, hashcol, aindex
      ensures Valid() && elements == old(elements) + 1
      ensures Noted(old(K()), old(aindex.vec), old(aindex.topLevel), pos, pos, aindex.vec)
      ensures pos < arr.Length && arr[pos] == p && Stored(arr[..]) == old(Stored(arr[..])) + {p}
      ensures arr.Length > 0 && (old(arr[..])[0].key != NULLKEY ==> arr[0].key != NULLKEY)
    {
      hide *;
      HereReady(p, pos);
      ghost var a0 := arr[..];
      Place(p, pos, false, K());
      first, last := newFirst, newLast;
      elements := elements + 1;
      HereDone(a0, p, pos);
    }

    /** Inserts beside the used slot of the predecessor, shifting what lies between it and the nearest gap. */
    method InsertShifting(p: Pair, index: int) returns (idx: nat, ghost low: nat, ghost high: nat)
      requires Valid() && p.key != NULLKEY && 1 <= elements && elements + 1 < arr.Length && -1 <= index < arr.Length
      requires if index == -1 then IsBelowAll(K(), 0, p.key, index)
               else IsPred(K(), 0, |K()| - 1, p.key, index) && K()[index] != p.key && K()[index] != NULLKEY
      modifies this`elements, this`first, this`last, arr, hashcol, aindex
      ensures Valid() && ChosenByShift(old(K()), index, idx, low, high)
      ensures Noted(old(K()), old(aindex.vec), old(aindex.topLevel), low, high, aindex.vec)
      ensures idx < arr.Length && arr[idx] == p && Stored(arr[..]) == old(Stored(arr[..])) + {p}
      ensures arr.Length > 0 && (old(arr[..])[0].key != NULLKEY ==> arr[0].key != NULLKEY)
    {
      hide *;
      Parts();
      ghost var ks := K();
      var leftfound, gap := FindGap(index);
      if leftfound {
        InsertLeft(p, gap, index);
        idx, low, high := index, gap, index;
      } else {
        InsertRight(p, index, gap);
        idx, low, high := index + 1, index + 1, gap;
      }
      ChosenAtGap(ks, index, leftfound, gap);
    }

    /** Inserts a pair whose key is not stored, given where the search for it ended. */
    method InsertAbsent(p: Pair, index: int) returns (idx: nat, ghost low: nat, ghost high: nat)
      requires Valid() && p.key != NULLKEY && elements + 1 < arr.Length
      requires Located(K(), p.key, false, index)
      modifies this, arr, hashcol, aindex
      ensures Valid() && arr == old(arr) && hashcol == old(hashcol) && aindex == old(aindex)
      ensures Chosen(old(K()), index, old(first), old(last), idx, low, high)
      ensures Noted(old(K()), old(aindex.vec), old(aindex.topLevel), low, high, aindex.vec)
      ensures idx < arr.Length && arr[idx] == p && Stored(arr[..]) == old(Stored(arr[..])) + {p}
      ensures arr.Length > 0 && (old(arr[..])[0].key != NULLKEY ==> arr[0].key != NULLKEY)
    {
      hide *;
      Parts();
      ghost var ks := K();
      if elements < 1 {
        idx := arr.Length / 2;
        low, high := idx, idx;
        EmptyPlace(ks, p.key, idx);
        InsertHere(p, idx, idx, idx);
        ChosenInEmpty(ks, index, old(first), old(last), idx);
        return;
      }
      InsertCases(ks, p.key, index, elements, first, last);
      if index + 1 == first && index - 2 >= 0 {
        // Decreasing order: skip one slot to the left.
        idx := index - 2;
        InsertHere(p, idx, idx, last);
        low, high := idx, idx;
      } else if index == last && index + 2 < arr.Length {
        // Increasing order: skip one slot to the right.
        idx := index + 2;
        InsertHere(p, idx, first, idx);
        low, high := idx, idx;
      } else if index >= 0 && arr[index].key == NULLKEY {
        idx := index;
        InsertHere(p, idx, if idx < first then idx else first, if idx > last then idx else last);
        low, high := idx, idx;
      } else {
        idx, low, high := InsertShifting(p, index);
      }
      ChosenByCase(ks, index, old(first), old(last), idx, low, high);
    }

    lemma SameKeys(ks: seq<int>)
      requires Keys(arr[..]) == ks && InRange(hashKey) && Hashed(ks) && Indexed(ks)
      requires Ordered(ks, elements, first, last) && |ks| >= 2
      ensures Valid() && K() == ks
    {
    }

    /** Puts another pair for a key in that key's slot. */
    method Overwrite(p: Pair, index: nat)
      requires Valid() && p.key != NULLKEY && index < arr.Length && arr[index].key == p.key
      modifies arr
      ensures Valid() && arr[index] == p && K() == old(K())
      ensures arr.Length > 0 && (old(arr[..])[0].key != NULLKEY ==> arr[0].key != NULLKEY)
      ensures Stored(arr[..]) == (set q | q in old(Stored(arr[..])) && q.key != p.key) + {p}
    {
      hide *;
      Parts();
      ghost var a0 := arr[..];
      FirstKey(a0, index, p);
      StoredReplaced(a0, index, p);
      arr[index] := p;
      assert arr[..] == a0[index := p];
      SameKeys(Keys(a0));
    }

    /** The insertion proper, into an array that has room. */
    method InsertWithRoom(p: Pair, isUpsert: bool)
      returns (inserted: bool, idx: nat, ghost index: int, ghost low: nat, ghost high: nat)
      requires Valid() && p.key > NULLKEY && elements + 1 < arr.Length && !Misses(p.key)
      modifies this, arr, hashcol, aindex
      ensures Valid() && arr == old(arr) && hashcol == old(hashcol) && aindex == old(aindex)
      ensures idx < arr.Length && arr[idx].key == p.key && (inserted ==> arr[idx] == p)
      ensures inserted <==> isUpsert || p.key !in old(K())
      ensures p.key in old(K()) ==> aindex.vec == old(aindex.vec) && K() == old(K())
      ensures p.key !in old(K()) ==>
                && Located(old(K()), p.key, false, index)
                && Chosen(old(K()), index, old(first), old(last), idx, low, high)
                && Noted(old(K()), old(aindex.vec), old(aindex.topLevel), low, high, aindex.vec)
      ensures Stored(arr[..]) == if inserted then (set q | q in old(Stored(arr[..])) && q.key != p.key) + {p}
                                 else old(Stored(arr[..]))
      ensures arr.Length > 0 && (old(arr[..])[0].key != NULLKEY ==> arr[0].key != NULLKEY)
    {
      hide *;
      Parts();
      ghost var ks := K();
      var found, at := FindPred(p.key, ks);
      index, low, high := at, 0, 0;
      NotAmong(ks, p.key, found, at);
      if found {
        idx := at;
        if isUpsert {
          Overwrite(p, idx);
        }
        return isUpsert, idx, index, low, high;
      }
      OtherKeys(arr[..], p.key);
      idx, low, high := InsertAbsent(p, at);
      inserted := true;
    }

    lemma StoredKeys(k: int)
      requires k != NULLKEY
      ensures k in K() <==> exists q :: q in Stored(arr[..]) && q.key == k
    {
      KeysOfStored(arr[..], k);
    }

    lemma EmptySoFar()
      requires Valid() && Stored(arr[..]) == {}
      ensures elements == 0 && forall k :: k != NULLKEY ==> k !in K()
    {
      forall k | k != NULLKEY
        ensures k !in K()
      {
        KeysOfStored(arr[..], k);
      }
      assert forall j :: 0 <= j < |K()| ==> K()[j] in K();
      UsedNone(K());
    }

    lemma OneAtTheEnd(p: Pair)
      requires Valid() && arr.Length == 2 && arr[1] == p && p.key != NULLKEY && Stored(arr[..]) == {p}
      ensures K()[1] == p.key && p.key in K() && StaleEnd(K(), 1)
    {
      OnlyPair(arr[..], p);
      assert BLOCK * 0 == 0;
    }

    /** A sound index misses nothing. */
    lemma SoundMissesNothing(key: int)
      requires Valid() && SoundIndex()
      ensures !Misses(key)
    {
      SoundFindsAll(K(), aindex.vec, aindex.topLevel, key);
    }

    lemma TightMissesNothing(key: int)
      requires Valid() && TightIndex()
      ensures SoundIndex() && !Misses(key)
    {
      SoundWhenTight(aindex.vec);
      SoundMissesNothing(key);
    }

    /** In an anchored array no position needs a level over an emptied slot. */
    lemma AnchorHolds(q: nat)
      requires Valid() && Anchored() && q < arr.Length
      ensures !LostHead(aindex.vec, aindex.topLevel, q)
    {
      if arr.Length <= BLOCK * BLOCK {
        SlotsSmall(q, aindex.topLevel);
      } else {
        HeadThere(K(), aindex.vec, aindex.topLevel);
      }
    }

    lemma AnchorHoldsAll()
      requires Valid() && Anchored()
      ensures forall q: nat :: q < arr.Length ==> !LostHead(aindex.vec, aindex.topLevel, q)
    {
      forall q: nat | q < arr.Length
        ensures !LostHead(aindex.vec, aindex.topLevel, q)
      {
        AnchorHolds(q);
      }
    }

    /**
      What the insertion asks of the index: nothing if the array grows first, else that it leads to the key's place.
     */
    ghost predicate Takes(key: int)
      reads this, arr, hashcol, aindex
    {
      Base() && (HighLoad(elements, arr.Length) || (Indexed(K()) && !Misses(key)))
    }

    lemma TakesParts(key: int)
      requires Takes(key)
      ensures Base() && arr.Length >= 2 && Keys(arr[..]) == K()
      ensures HighLoad(elements, arr.Length) <==> 10 * GEO * elements >= 8 * arr.Length
      ensures HighLoad(elements, arr.Length) ==> elements >= 1 && elements + 1 < GEO * arr.Length
      ensures !HighLoad(elements, arr.Length) ==> Valid() && !Misses(key) && elements + 1 < arr.Length
      ensures !HighLoad(elements, arr.Length) ==> |aindex.vec| == aindex.topLevel + 1 && |K()| == arr.Length
    {
      RoomLeft(elements, arr.Length);
    }

    lemma FirstUsed()
      requires arr.Length > 0 && arr[0].key != NULLKEY
      ensures Anchored()
    {
    }

    /** Grows the array if the load calls for it. */
    method MakeRoom(key: int, goRight: bool)
      requires Takes(key) && key > NULLKEY
      modifies this
      ensures Valid() && !Misses(key) && elements + 1 < arr.Length && |aindex.vec| == aindex.topLevel + 1
      ensures Stored(arr[..]) == old(Stored(arr[..])) && (key in K() <==> key in old(K()))
      ensures if HighLoad(old(elements), old(arr.Length))
              then && TightIndex() && Anchored() && arr.Length == GEO * old(arr.Length)
                   && fresh(arr) && fresh(hashcol) && fresh(aindex)
              else unchanged(this)
    {
      hide *;
      TakesParts(key);
      if 10 * GEO * elements >= 8 * arr.Length {
        KeysOfStored(arr[..], key);
        Grow(goRight);
        Parts();
        KeysOfStored(arr[..], key);
        TightMissesNothing(key);
        FirstUsed();
      }
    }

    /** What the flags of the index and of the array's front say. */
    lemma RoomFacts()
      ensures SoundIndex() <==> Sound(aindex.vec)
      ensures TightIndex() <==> Tight(aindex.vec)
      ensures TightIndex() ==> SoundIndex()
      ensures Valid() ==> |aindex.vec| == aindex.topLevel + 1 && 2 <= arr.Length == |K()|
      ensures Anchored() && arr.Length > 0 ==> arr.Length <= BLOCK * BLOCK || arr[..][0].key != NULLKEY
      ensures Valid() && Anchored() ==>
                forall q: nat :: q < arr.Length ==> !LostHead(aindex.vec, aindex.topLevel, q)
    {
      if TightIndex() {
        SoundWhenTight(aindex.vec);
      }
      if Valid() && Anchored() {
        AnchorHoldsAll();
      }
    }

    lemma InsertEnds(a0: seq<Pair>, anchored: bool, vec: seq<GapVector>)
      requires arr.Length == |a0| > 0 && (a0[0].key != NULLKEY ==> arr[0].key != NULLKEY)
      requires anchored ==> |a0| <= BLOCK * BLOCK || a0[0].key != NULLKEY
      requires Sound(vec) ==> Sound(aindex.vec)
      requires anchored && Tight(vec) ==> Tight(aindex.vec)
      ensures anchored ==> Anchored()
      ensures Sound(vec) ==> SoundIndex()
      ensures anchored && Tight(vec) ==> TightIndex()
    {
    }

    /**
      Inserts a pair. A key that is stored already keeps its pair unless this is an upsert. Growing first if the load
      calls for it, the array takes the pair at the predecessor's side: next to the end it extends, in a free slot, or
      where a shift opens a gap. The index stays sound. It has all its heads afterwards if the array has grown, and
      otherwise as Noted says of the slots from low to high, which Chosen names from what was there before.
     */
    method Insert(p: Pair, isUpsert: bool, goRight: bool)
      returns (inserted: bool, idx: nat, ghost index: int, ghost low: nat, ghost high: nat)
      requires Takes(p.key) && p.key > NULLKEY
      modifies this, arr, hashcol, aindex
      ensures arr == old(arr) || fresh(arr)
      ensures hashcol == old(hashcol) || fresh(hashcol)
      ensures aindex == old(aindex) || fresh(aindex)
      ensures Valid() && (old(SoundIndex()) ==> SoundIndex())
      ensures idx < arr.Length && arr[idx].key == p.key && (inserted ==> arr[idx] == p)
      ensures inserted <==> isUpsert || p.key !in old(K())
      ensures Stored(arr[..]) == if inserted then (set q | q in old(Stored(arr[..])) && q.key != p.key) + {p}
                                 else old(Stored(arr[..]))
      ensures HighLoad(old(elements), old(arr.Length)) ==>
                TightIndex() && Anchored() && arr.Length == GEO * old(arr.Length)
      ensures !HighLoad(old(elements), old(arr.Length)) ==> arr == old(arr)
      ensures !HighLoad(old(elements), old(arr.Length)) && p.key in old(K()) ==> aindex.vec == old(aindex.vec)
      ensures !HighLoad(old(elements), old(arr.Length)) && p.key !in old(K()) ==>
                && Located(old(K()), p.key, false, index)
                && Chosen(old(K()), index, old(first), old(last), idx, low, high)
                && |old(aindex.vec)| == old(aindex.topLevel) + 1
                && Noted(old(K()), old(aindex.vec), old(aindex.topLevel), low, high, aindex.vec)
      ensures old(Anchored()) && old(TightIndex()) ==> TightIndex() && Anchored()
    {
      hide *;
      RoomFacts();
      MakeRoom(p.key, goRight);
      RoomFacts();
      ghost var a0, anchored := arr[..], Anchored();
      ghost var ks, vec, top, first0, last0 := K(), aindex.vec, aindex.topLevel, first, last;
      inserted, idx, index, low, high := InsertWithRoom(p, isUpsert);
      IndexAfterInsert(ks, p.key, index, first0, last0, idx, low, high, vec, top, aindex.vec);
      InsertEnds(a0, anchored, vec);
    }

    /**
      The first key after index within its block, or null. After the last slot of all the scan starts at that slot
      itself.
     */
    method NextInBlock(index: nat) returns (nkey: int)
      requires index < arr.Length && arr[index].key != NULLKEY
      ensures nkey == Successor(K(), index)
    {
      var start := if index + 1 >= arr.Length then arr.Length - 1 else index + 1;
      var pos := NextNonNull(start);
      var end := index / BLOCK * BLOCK + BLOCK;
      SuccessorIs(K(), index, pos);
      return if pos >= arr.Length || pos >= end then NULLKEY else arr[pos].key;
    }

    lemma VacateReady(index: nat, hloc: int)
      requires Valid() && index < arr.Length && arr[index].key > NULLKEY
      requires usehash ==> 0 <= hloc < hashcol.Length && hashcol[hloc] == index
      ensures UpperOk(aindex.vec, aindex.topLevel) && |aindex.vec| == aindex.topLevel + 1
      ensures index / BLOCK == BlockOf(index) >= 0 && arr[index].key == K()[index]
      ensures usehash ==> TableOk(hashKey, K(), hashcol[..]) && HasEmpty(hashcol[..])
      ensures usehash ==> 0 <= hloc < hashcol.Length && hashcol[hloc] == index != EMPTY
    {
      if usehash {
        var z := FreeSlot(K());
        TableHasEmpty(hashKey, K(), hashcol[..], z);
      }
    }

    lemma VacateMid(a0: seq<Pair>, index: nat)
      requires index < |a0| == |Keys(a0)| && arr[..] == a0[index := NULLVALUE]
      ensures Agrees(arr[..], Keys(a0)[index := NULLKEY])
    {
    }

    lemma Vacated(a0: seq<Pair>, index: nat, vec: seq<GapVector>)
      requires index < |a0| == |Keys(a0)| && |a0| >= 2 && arr[..] == a0[index := NULLVALUE]
      requires Keys(a0)[index] != NULLKEY && InRange(hashKey) && Ordered(Keys(a0), elements + 1, first, last)
      requires usehash ==> hashcol.Length == |a0| && TableOk(hashKey, Keys(a0)[index := NULLKEY], hashcol[..])
      requires Released(Keys(a0), vec, index,
                        IndexOk(Keys(a0)[index := NULLKEY], aindex.vec, aindex.topLevel), aindex.vec)
      requires StaleEnd(Keys(a0), index) ==>
                 IndexOk(Keys(a0), aindex.vec, aindex.topLevel) && StaleView(Keys(a0)[index := NULLKEY], Keys(a0))
      ensures Base() && Released(Keys(a0), vec, index, Valid(), aindex.vec)
      ensures !Valid() ==> Viewed(Keys(a0))
      ensures Stored(arr[..]) == set q | q in Stored(a0) && q.key != a0[index].key
    {
      hide TableOk, IndexOk, StaleEnd, StaleView, Widowed, Tight, Sound;
      StoredVacated(a0, index);
      UsedUpdate(Keys(a0), index, NULLKEY);
      assert K() == Keys(a0)[index := NULLKEY];
    }

    /** Empties a slot: the block index and the hash table let go of its key. */
    method Vacate(index: nat, hloc: int)
      requires Valid() && index < arr.Length && arr[index].key > NULLKEY
      requires usehash ==> 0 <= hloc < hashcol.Length && hashcol[hloc] == index
      modifies this`elements, arr, hashcol, aindex
      ensures Base() && elements == old(elements) - 1
      ensures Stored(arr[..]) == set q | q in old(Stored(arr[..])) && q.key != old(arr[index].key)
      ensures |old(aindex.vec)| == old(aindex.topLevel) + 1
      ensures Released(old(K()), old(aindex.vec), index, Valid(), aindex.vec)
      ensures !Valid() ==> Viewed(old(K()))
    {
      hide *;
      Parts();
      ghost var a0, ks, vec, top := arr[..], K(), aindex.vec, aindex.topLevel;
      VacateReady(index, hloc);
      var key := arr[index].key;
      var nkey := NextInBlock(index);
      aindex.DeleteIndex(key, nkey, BlockOf(index));
      IndexReleased(ks, index, vec, top, aindex.vec);
      arr[index] := NULLVALUE;
      assert arr[..] == a0[index := NULLVALUE];
      VacateMid(a0, index);
      elements := elements - 1;
      if usehash {
        RehashCluster(hashKey, hloc, arr, hashcol, ks);
      }
      Vacated(a0, index, vec);
    }

    /** Removing this key leaves the array at its length. */
    predicate Stays(markOnly: bool)
      reads `elements, `arr
    {
      markOnly || !SmallLoad(elements - 1, arr.Length)
    }

    lemma StaysMeans(markOnly: bool)
      ensures Stays(markOnly) <==> markOnly || !SmallLoad(elements - 1, arr.Length)
    {
    }

    lemma SoundTakes(key: int)
      requires Valid() && SoundIndex()
      ensures Takes(key) && !Misses(key)
    {
      SoundMissesNothing(key);
    }

    /** Removing this key breaks the block index: it leaves a stale key, or hides what is under a lost head. */
    predicate Breaks(key: int, markOnly: bool)
      reads this, arr, aindex
    {
      Stays(markOnly) && BreaksAt(K(), aindex.vec, key)
    }

    lemma BreaksParts(key: int, markOnly: bool)
      ensures Breaks(key, markOnly) <==> Stays(markOnly) && BreaksAt(K(), aindex.vec, key)
      ensures SoundIndex() <==> Sound(aindex.vec)
      ensures TightIndex() ==> SoundIndex()
    {
    }

    /**
      Removes a key, and halves the array when that leaves the load small and the caller asks for more than a mark. What
      becomes of the block index otherwise is what Released says: it describes the keys unless a stale one is left
      behind, it stays sound unless the one entry that made up for a lost head went, and it has all its heads if it had
      them before or if the key was the least. A sound index is broken exactly if Breaks said so.
     */
    method Remove(key: int, markOnly: bool) returns (removed: bool, ghost index: int)
      requires Valid() && key > NULLKEY
      modifies this, arr, hashcol, aindex
      ensures arr == old(arr) || fresh(arr)
      ensures hashcol == old(hashcol) || fresh(hashcol)
      ensures aindex == old(aindex) || fresh(aindex)
      ensures Base() && (removed <==> key in old(K()) && (usehash || !old(Misses(key))))
      ensures !removed ==> Valid() && arr == old(arr) && arr[..] == old(arr[..]) && aindex.vec == old(aindex.vec)
      ensures removed ==> Stored(arr[..]) == set q | q in old(Stored(arr[..])) && q.key != key
      ensures elements == old(elements) - if removed then 1 else 0
      ensures removed && !old(Stays(markOnly)) ==> Valid() && TightIndex() && arr.Length == old(arr.Length) / GEO
      ensures removed && old(Stays(markOnly)) ==>
                && arr == old(arr) && 0 <= index < |old(K())| && old(K())[index] == key
                && Released(old(K()), old(aindex.vec), index, Valid(), aindex.vec)
      ensures !Valid() ==> Viewed(old(K()))
      ensures old(SoundIndex()) ==> (Valid() && SoundIndex() <==> !old(Breaks(key, markOnly)))
    {
      hide *;
      Parts();
      BreaksParts(key, markOnly);
      ghost var ks, vec, sound, stays := K(), aindex.vec, SoundIndex(), Stays(markOnly);
      if sound {
        SoundTakes(key);
      }
      var rc, at, hloc := Exist(key, ks);
      index := at;
      OtherKeys(arr[..], key);
      OneBreaks(ks, vec, at, key);
      if !rc {
        return false, index;
      }
      StaysMeans(markOnly);
      Vacate(at, hloc);
      LoadTest(elements, arr.Length);
      if !markOnly && arr.Length >= 64 {
        var loadfactor := 100 * elements / arr.Length;
        if loadfactor < 15 {
          Shrink();
          Parts();
        }
      }
      BreaksParts(key, markOnly);
      if sound && stays {
        BrokenIff(ks, vec, at, key, Valid(), aindex.vec);
      }
      removed := true;
    }

    /** One insertion, or one removal that does not break the block index. */
    method RunStep(op: Operation)
      requires Valid() && SoundIndex() && KeyedAbove(op)
      requires op.Removal? ==> !Breaks(op.key, op.markOnly)
      modifies this, arr, hashcol, aindex
      ensures arr == old(arr) || fresh(arr)
      ensures hashcol == old(hashcol) || fresh(hashcol)
      ensures aindex == old(aindex) || fresh(aindex)
      ensures Valid() && SoundIndex()
      ensures Stored(arr[..]) ==
                match op
                case Insertion(p, isUpsert, _) => Entered(old(Stored(arr[..])), p, isUpsert)
                case Removal(key, _) => set q | q in old(Stored(arr[..])) && q.key != key
    {
      hide Stored, K, Base, SoundIndex, Breaks, Valid, Takes, Misses, Stays, Widowed, StaleEnd, Chosen, Noted, Located;
      match op
      case Insertion(p, isUpsert, goRight) =>
        StoredKeys(p.key);
        SoundTakes(p.key);
        var _, _, _, _, _ := Insert(p, isUpsert, goRight);
      case Removal(key, markOnly) =>
        StoredKeys(key);
        SoundTakes(key);
        OtherKeys(arr[..], key);
        RoomFacts();
        var _, _ := Remove(key, markOnly);
        RoomFacts();
    }

    method PrevNonNull(start: int) returns (i: int)
      requires -1 <= start < arr.Length
      ensures -1 <= i <= start && AllNull(K(), i + 1, start + 1) && (i >= 0 ==> arr[i].key != NULLKEY)
    {
      i := start;
      while i >= 0 && arr[i].key == NULLKEY
        invariant -1 <= i <= start
        invariant AllNull(K(), i + 1, start + 1)
      {
        i := i - 1;
      }
    }

    /** The greatest stored key below the given one. */
    method GetPred(key: int) returns (r: Option)
      requires Valid() && key > NULLKEY && !Misses(key)
      ensures Floor(Stored(arr[..]), key - 1, r)
    {
      hide *;
      Parts();
      var rc, idx := FindPred(key, K());
      LocatedFloor(arr[..], key, rc, idx);
      if idx < 0 {
        return None;
      }
      if rc {
        ghost var pos := idx;
        idx := PrevNonNull(idx - 1);
        FloorBefore(arr[..], key, pos, idx);
        return if idx < 0 then None else Some(arr[idx]);
      }
      return if arr[idx].key == NULLKEY then None else Some(arr[idx]);
    }

    /** The greatest stored key not above the given one. */
    method GetPredOrEqual(key: int) returns (r: Option)
      requires Valid() && key > NULLKEY && !Misses(key)
      ensures Floor(Stored(arr[..]), key, r)
    {
      hide *;
      Parts();
      var rc, idx := FindPred(key, K());
      LocatedFloor(arr[..], key, rc, idx);
      if idx < 0 {
        return None;
      }
      if rc {
        return Some(arr[idx]);
      }
      return if arr[idx].key == NULLKEY then None else Some(arr[idx]);
    }

    /** The least stored key above the given one. */
    method GetSucc(key: int) returns (r: Option)
      requires Valid() && key > NULLKEY && !Misses(key)
      ensures Ceiling(Stored(arr[..]), key + 1, r)
    {
      hide *;
      Parts();
      var rc, idx := FindPred(key, K());
      LocatedFloor(arr[..], key, rc, idx);
      ghost var pos := idx;
      idx := NextNonNull(idx + 1);
      LocatedCeiling(arr[..], key, rc, pos, idx);
      return if idx == arr.Length then None else Some(arr[idx]);
    }

    /**
      The pair stored for a key, found through the hash table, or else through the block index unless that strays. A
      stale key does no harm here.
     */
    method Get(key: int, ghost view: seq<int>) returns (r: Option)
      requires Base() && (usehash || Viewed(view)) && key > NULLKEY
      ensures r.Some? <==> key in K() && (usehash || !Strays(view, aindex.vec, aindex.topLevel, key))
      ensures r.Some? ==> r.value in Stored(arr[..]) && r.value.key == key
    {
      var rc, index, _ := Exist(key, view);
      if !rc {
        return None;
      }
      return Some(arr[index]);
    }
  }

  /**
    The one removal that leaves a stale key behind: the key of the last slot of all, alone in its block. The array of
    two slots reaches it with one insertion and one removal.
   */
  method RemovalAtTheEnd(h: HashKey) returns (a: JagArray)
    requires InRange(h)
    ensures fresh(a) && Stored(a.arr[..]) == {} && a.Base() && !a.Valid()
  {
    a := new JagArray(2, false, h);
    a.EmptySoFar();
    a.TightMissesNothing(5);
    var p := Pair(5, 0);
    var inserted, idx, _, _, _ := a.Insert(p, false, true);
    a.OneAtTheEnd(p);
    a.TightMissesNothing(5);
    var removed, _ := a.Remove(5, true);
  }

  /** What a run of insertions stores. */
  ghost function Collected(ps: seq<Pair>, isUpsert: bool): set<Pair> {
    if ps == [] then {} else Entered(Collected(ps[..|ps| - 1], isUpsert), ps[|ps| - 1], isUpsert)
  }

  /**
    Every run of insertions into a new array keeps the order, the hash table and a sound block index, through every
    growth; from up to 1024 slots, as the default of 64 is, the block index never loses a head.
   */
  method InsertAll(length: nat, useHash: bool, h: HashKey, ps: seq<Pair>, isUpsert: bool, goRight: seq<bool>)
    returns (a: JagArray)
    requires 2 <= length && InRange(h) && |goRight| == |ps|
    requires forall i :: 0 <= i < |ps| ==> ps[i].key > NULLKEY
    ensures fresh(a) && a.Valid() && a.SoundIndex() && Stored(a.arr[..]) == Collected(ps, isUpsert)
    ensures length <= BLOCK * BLOCK ==> a.TightIndex()
  {
    hide Stored, JagArray.K, JagArray.Valid, JagArray.Base, JagArray.TightIndex, JagArray.SoundIndex, JagArray.Anchored;
    a := new JagArray(length, useHash, h);
    a.TightMissesNothing(0);
    var i := 0;
    while i < |ps|
      invariant 0 <= i <= |ps| && fresh(a) && fresh(a.arr) && fresh(a.hashcol) && fresh(a.aindex)
      invariant a.Valid() && a.SoundIndex() && Stored(a.arr[..]) == Collected(ps[..i], isUpsert)
      invariant length <= BLOCK * BLOCK ==> a.TightIndex() && a.Anchored()
    {
      a.StoredKeys(ps[i].key);
      a.SoundTakes(ps[i].key);
      var _, _, _, _, _ := a.Insert(ps[i], isUpsert, goRight[i]);
      assert ps[..i + 1][..i] == ps[..i];
      i := i + 1;
    }
    assert ps[..i] == ps;
  }

  /** What a run of insertions and removals stores. */
  ghost function Folded(ops: seq<Operation>): set<Pair> {
    if ops == [] then {}
    else
      var before := Folded(ops[..|ops| - 1]);
      match ops[|ops| - 1]
      case Insertion(p, isUpsert, _) => Entered(before, p, isUpsert)
      case Removal(key, _) => set q | q in before && q.key != key
  }

  /**
    Every run of insertions and removals of any array keeps the order, the hash table and a sound block index, and
    stores what the run says, up to the first removal, if any, that breaks the block index.
   */
  method RunAll(length: nat, useHash: bool, h: HashKey, ops: seq<Operation>) returns (a: JagArray, done: nat)
    requires 2 <= length && InRange(h) && forall i :: 0 <= i < |ops| ==> KeyedAbove(ops[i])
    ensures fresh(a) && a.Valid() && a.SoundIndex()
    ensures done <= |ops| && Stored(a.arr[..]) == Folded(ops[..done])
    ensures done < |ops| ==> ops[done].Removal? && a.Breaks(ops[done].key, ops[done].markOnly)
  {
    hide Stored, JagArray.K, JagArray.Valid, JagArray.Base, JagArray.SoundIndex, JagArray.Breaks;
    a := new JagArray(length, useHash, h);
    a.TightMissesNothing(0);
    done := 0;
    while done < |ops| && !(ops[done].Removal? && a.Breaks(ops[done].key, ops[done].markOnly))
      invariant 0 <= done <= |ops| && fresh(a) && fresh(a.arr) && fresh(a.hashcol) && fresh(a.aindex)
      invariant a.Valid() && a.SoundIndex() && Stored(a.arr[..]) == Folded(ops[..done])
    {
      a.RunStep(ops[done]);
      assert ops[..done + 1][..done] == ops[..done];
      done := done + 1;
    }
  }
}
