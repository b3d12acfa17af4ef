/** The search of the block index from the top down: which block it ends at, and which keys it misses. */
module BlockSearch {
  import opened Gapped
  import opened BlockLevels
  import opened BlockClimb

  /** No key at or below k lies after the window, and one lies inside it unless nothing at all lies before it. */
  ghost predicate Covers(s: seq<int>, k: int, first: int, last: int) {
    && 0 <= first
    && (forall j :: j > last && At(s, j) != NULLKEY ==> At(s, j) > k)
    && (AllNull(s, 0, first) || exists j :: first <= j <= last && At(s, j) != NULLKEY && At(s, j) <= k)
  }

  /** The window is empty, with keys on both sides of it, those after it above k. */
  ghost predicate Missed(s: seq<int>, k: int, first: int, last: int) {
    && 0 <= first <= last && AllNull(s, first, last + 1) && !AllNull(s, 0, first)
    && (forall j :: j > last && At(s, j) != NULLKEY ==> At(s, j) > k)
    && exists j :: j > last && At(s, j) != NULLKEY
  }

  /** The level a search starts at. */
  function RealTop(vec: seq<GapVector>, top: nat): nat
    requires top < |vec|
  {
    if vec[top].elements >= 2 || top == 0 then top else top - 1
  }

  /** The last slot of the window a search at level m looks at when it starts at the level's first slot. */
  function WindowEnd(vec: seq<GapVector>, top: nat, m: nat): nat
    requires m < |vec| && top < |vec|
  {
    if m == RealTop(vec, top) then vec[m].last else BLOCK - 1
  }

  /**
    Level m hides what is under its first slot from a search for k: neither that slot nor the next has an entry, and
    the first entry it does have, which is above k, makes the search go to the slot before that one.
   */
  ghost predicate Overlooks(ks: seq<int>, vec: seq<GapVector>, k: int, m: nat, hi: int) {
    && m < |vec| && AllNull(vec[m].slots, 0, 2)
    && (exists q: nat :: At(ks, q) != NULLKEY && SlotAt(q, m) == 0)
    && exists f :: 2 <= f <= hi && AllNull(vec[m].slots, 0, f) && At(vec[m].slots, f) > k
  }

  /** Some level on the way hides what the search for k is after. */
  ghost predicate Strays(ks: seq<int>, vec: seq<GapVector>, top: nat, k: int) {
    top < |vec| && exists m: nat :: m <= RealTop(vec, top) && Overlooks(ks, vec, k, m, WindowEnd(vec, top, m))
  }

  /** Every key with an ancestor after the window, d levels up, is above k. */
  ghost predicate AllBeyond(ks: seq<int>, k: int, d: nat, last: int) {
    forall q: nat :: At(ks, q) != NULLKEY && Ancestor(q, d) > last ==> At(ks, q) > k
  }

  ghost predicate SomeInside(ks: seq<int>, k: int, d: nat, first: int, last: int) {
    exists q: nat :: At(ks, q) != NULLKEY && At(ks, q) <= k && first <= Ancestor(q, d) <= last
  }

  ghost predicate NoneBefore(ks: seq<int>, d: nat, first: int) {
    forall q: nat :: At(ks, q) != NULLKEY ==> first <= Ancestor(q, d)
  }

  /** The window, d levels above the array, leads to the place of k. */
  ghost predicate OnTrack(ks: seq<int>, k: int, d: nat, first: int, last: int) {
    AllBeyond(ks, k, d, last) && (NoneBefore(ks, d, first) || SomeInside(ks, k, d, first, last))
  }

  ghost predicate NoneInside(ks: seq<int>, d: nat, first: int, last: int) {
    forall q: nat :: At(ks, q) != NULLKEY ==> !(first <= Ancestor(q, d) <= last)
  }

  /** Nothing is stored under the window, though something is before it and something after. */
  ghost predicate OffTrack(ks: seq<int>, k: int, d: nat, first: int, last: int) {
    && AllBeyond(ks, k, d, last) && NoneInside(ks, d, first, last) && !NoneBefore(ks, d, first)
    && exists q: nat :: At(ks, q) != NULLKEY && Ancestor(q, d) > last
  }

  lemma OnOrOff(ks: seq<int>, k: int, d: nat, first: int, last: int)
    ensures !(OnTrack(ks, k, d, first, last) && OffTrack(ks, k, d, first, last))
  {
  }

  lemma TrackEnds(ks: seq<int>, k: int, first: nat, last: int)
    requires first <= last
    ensures OnTrack(ks, k, 0, first, last) ==> Covers(ks, k, first, last)
    ensures OffTrack(ks, k, 0, first, last) ==> Missed(ks, k, first, last)
  {
    assert forall q: nat :: Ancestor(q, 0) == q;
    if OnTrack(ks, k, 0, first, last) {
      assert NoneBefore(ks, 0, first) ==> AllNull(ks, 0, first);
      if !AllNull(ks, 0, first) {
        var q: nat :| At(ks, q) != NULLKEY && At(ks, q) <= k && first <= Ancestor(q, 0) <= last;
        assert first <= q <= last;
      }
    }
    if OffTrack(ks, k, 0, first, last) {
      var q: nat :| At(ks, q) != NULLKEY && !(first <= Ancestor(q, 0));
      var q': nat :| At(ks, q') != NULLKEY && Ancestor(q', 0) > last;
      assert q < first && q' > last;
    }
  }

  lemma MissedNotCovered(s: seq<int>, k: int, first: int, last: int)
    requires Missed(s, k, first, last)
    ensures !Covers(s, k, first, last)
  {
  }

  /** What a level uses bounds what is stored under it. */
  lemma UnderLast(ks: seq<int>, vec: seq<GapVector>, top: nat, m: nat)
    requires Sorted(ks) && IndexOk(ks, vec, top) && m <= top
    ensures forall q: nat :: At(ks, q) != NULLKEY ==> Ancestor(q, m + 1) <= vec[m].last
  {
    forall q: nat | At(ks, q) != NULLKEY
      ensures Ancestor(q, m + 1) <= vec[m].last
    {
      if SlotAt(q, m) >= 1 {
        EntryAbove(ks, vec, top, m, q);
      }
      assert LevelOk(vec[m]);
    }
  }

  lemma TopIsOn(ks: seq<int>, vec: seq<GapVector>, top: nat, m: nat, k: int)
    requires Sorted(ks) && IndexOk(ks, vec, top) && m <= top
    ensures OnTrack(ks, k, m + 1, 0, vec[m].last)
  {
    UnderLast(ks, vec, top, m);
  }

  /** The window, kept inside what the level uses. */
  ghost predicate Clamped(v: GapVector, first0: nat, last0: int, first: nat, last: int) {
    && first == (if first0 > v.last then v.last / BLOCK * BLOCK else first0)
    && last == (if last0 > v.last then v.last else last0)
  }

  lemma ClampedOn(ks: seq<int>, v: GapVector, m: nat, k: int, first0: nat, last0: int, first: nat, last: int)
    requires forall q: nat :: At(ks, q) != NULLKEY ==> Ancestor(q, m + 1) <= v.last
    requires Clamped(v, first0, last0, first, last)
    requires OnTrack(ks, k, m + 1, first0, last0)
    ensures OnTrack(ks, k, m + 1, first, last)
  {
    hide Ancestor;
    if SomeInside(ks, k, m + 1, first0, last0) {
      var q: nat :| At(ks, q) != NULLKEY && At(ks, q) <= k && first0 <= Ancestor(q, m + 1) <= last0;
      assert first <= Ancestor(q, m + 1) <= last;
    }
  }

  lemma ClampedOff(ks: seq<int>, v: GapVector, m: nat, k: int, first0: nat, last0: int, first: nat, last: int)
    requires forall q: nat :: At(ks, q) != NULLKEY ==> Ancestor(q, m + 1) <= v.last
    requires Clamped(v, first0, last0, first, last) && first0 <= last0
    requires OffTrack(ks, k, m + 1, first0, last0)
    ensures first == first0 && last == last0
    ensures OffTrack(ks, k, m + 1, first, last)
  {
    hide Ancestor;
    var q: nat :| At(ks, q) != NULLKEY && Ancestor(q, m + 1) > last0;
    assert Ancestor(q, m + 1) <= v.last;
  }

  lemma OverlooksWithin(ks: seq<int>, vec: seq<GapVector>, m: nat, k: int, last0: int, last: int)
    requires m < |vec| && LevelOk(vec[m]) && k > NULLKEY
    requires last == if last0 > vec[m].last then vec[m].last else last0
    ensures Overlooks(ks, vec, k, m, last) <==> Overlooks(ks, vec, k, m, last0)
  {
    hide AllNull;
  }

  lemma ClampedTrack(ks: seq<int>, vec: seq<GapVector>, top: nat, m: nat, k: int,
                     first0: nat, last0: int, first: nat, last: int)
    requires Sorted(ks) && IndexOk(ks, vec, top) && m <= top && first0 <= last0 && k > NULLKEY
    requires Clamped(vec[m], first0, last0, first, last)
    ensures first <= last < |vec[m].slots|
    ensures OnTrack(ks, k, m + 1, first0, last0) ==> OnTrack(ks, k, m + 1, first, last)
    ensures Overlooks(ks, vec, k, m, last) <==> Overlooks(ks, vec, k, m, last0)
    ensures OffTrack(ks, k, m + 1, first0, last0) ==> OffTrack(ks, k, m + 1, first, last)
  {
    assert LevelOk(vec[m]);
    UnderLast(ks, vec, top, m);
    OverlooksWithin(ks, vec, m, k, last0, last);
    hide Sorted, IndexOk, Overlooks, LevelOk, OnTrack, OffTrack;
    if OnTrack(ks, k, m + 1, first0, last0) {
      ClampedOn(ks, vec[m], m, k, first0, last0, first, last);
    }
    if OffTrack(ks, k, m + 1, first0, last0) {
      ClampedOff(ks, vec[m], m, k, first0, last0, first, last);
    }
  }

  /** The slot the search goes down from. */
  function GoesTo(first: int, index: int): int {
    if index < 0 then first else index
  }

  /** What a search of a window says of the entries in it that come after the answer. */
  lemma EntriesAfter(s: seq<int>, k: int, first: nat, last: int, found: bool, index: int, j: int)
    requires Sorted(s) && first <= last < |s| && SearchResult(s, first, last, k, found, index)
    requires GoesTo(first, index) < j <= last && At(s, j) != NULLKEY
    ensures At(s, j) > k
  {
    if IsBelowAll(s, first, k, index) && index + 1 < j {
      assert At(s, index + 1) < At(s, j);
    }
  }

  /** No key after the slot the search goes down from is at or below k. */
  lemma BeyondBelow(ks: seq<int>, vec: seq<GapVector>, top: nat, m: nat, k: int,
                    first: nat, last: int, found: bool, index: int)
    requires Sorted(ks) && IndexOk(ks, vec, top) && m <= top && first <= last < |vec[m].slots|
    requires SearchResult(vec[m].slots, first, last, k, found, index)
    requires AllBeyond(ks, k, m + 1, last)
    ensures GoesTo(first, index) >= 0
    ensures AllBeyond(ks, k, m, BLOCK * GoesTo(first, index) + BLOCK - 1)
  {
    var p := GoesTo(first, index);
    forall q: nat | At(ks, q) != NULLKEY && Ancestor(q, m) > BLOCK * p + BLOCK - 1
      ensures At(ks, q) > k
    {
      var s := SlotAt(q, m);
      assert s == Ancestor(q, m) / BLOCK == Ancestor(q, m + 1) && s > p;
      if s <= last {
        EntryAbove(ks, vec, top, m, q);
        LevelSorted(ks, vec, top, m);
        EntriesAfter(vec[m].slots, k, first, last, found, index, s);
      }
    }
  }

  /** A key in the window that is not above k has an entry that is not, unless it lies under slot 0. */
  lemma InsideShows(ks: seq<int>, vec: seq<GapVector>, top: nat, m: nat, k: int, first: nat, last: int) returns (q: nat)
    requires Sorted(ks) && IndexOk(ks, vec, top) && m <= top && SomeInside(ks, k, m + 1, first, last)
    ensures At(ks, q) != NULLKEY && At(ks, q) <= k && first <= SlotAt(q, m) <= last
    ensures SlotAt(q, m) >= 1 ==> NULLKEY != At(vec[m].slots, SlotAt(q, m)) <= k
  {
    q :| At(ks, q) != NULLKEY && At(ks, q) <= k && first <= Ancestor(q, m + 1) <= last;
    if SlotAt(q, m) >= 1 {
      EntryAbove(ks, vec, top, m, q);
    }
  }

  /** If the first entry of a level is above k, all are. */
  lemma AboveFirst(s: seq<int>, k: int, f: nat)
    requires Sorted(s) && AllNull(s, 0, f) && At(s, f) > k >= NULLKEY
    ensures forall j :: 0 <= j && At(s, j) != NULLKEY ==> At(s, j) > k
  {
    assert forall j :: 0 <= j < |s| ==> At(s, j) == s[j];
  }

  /** A search that a level could mislead is in its first block. */
  lemma OverlooksAtFront(ks: seq<int>, vec: seq<GapVector>, top: nat, m: nat, k: int, first: nat, last: int, hi: int)
    requires Sorted(ks) && IndexOk(ks, vec, top) && m <= top && k > NULLKEY
    requires OnTrack(ks, k, m + 1, first, last) && Overlooks(ks, vec, k, m, hi)
    ensures first == 0
  {
    var q0: nat :| At(ks, q0) != NULLKEY && SlotAt(q0, m) == 0;
    var f :| 2 <= f <= hi && AllNull(vec[m].slots, 0, f) && At(vec[m].slots, f) > k;
    if NoneBefore(ks, m + 1, first) {
      assert first <= Ancestor(q0, m + 1);
    } else {
      var q := InsideShows(ks, vec, top, m, k, first, last);
      LevelSorted(ks, vec, top, m);
      hide IndexOk, Overlooks, OnTrack;
      AboveFirst(vec[m].slots, k, f);
    }
  }

  lemma NoneAtOrBelow(s: seq<int>, k: int, first: nat, last: int, found: bool, index: int)
    requires Sorted(s) && first <= last < |s|
    requires SearchResult(s, first, last, k, found, index) && !IsPred(s, first, last, k, index)
    ensures forall j :: first <= j <= last && At(s, j) != NULLKEY ==> At(s, j) > k
  {
  }

  /** With no entry at or below k in the window, the keys before the answer lie under slot 0, and only if that is it. */
  lemma NoEntryAtOrBelow(ks: seq<int>, vec: seq<GapVector>, top: nat, m: nat, k: int,
                         first: nat, last: int, found: bool, index: int)
    requires Sorted(ks) && IndexOk(ks, vec, top) && m <= top && first <= last < |vec[m].slots| && k > NULLKEY
    requires SearchResult(vec[m].slots, first, last, k, found, index) && !IsPred(vec[m].slots, first, last, k, index)
    requires !Overlooks(ks, vec, k, m, last)
    ensures GoesTo(first, index) >= 0
    ensures forall j :: first <= j <= last && At(vec[m].slots, j) != NULLKEY ==> At(vec[m].slots, j) > k
    ensures AllNull(vec[m].slots, first, GoesTo(first, index) + 1) || GoesTo(first, index) == first
    ensures first == 0 && GoesTo(first, index) != 0 ==> forall q: nat :: At(ks, q) != NULLKEY ==> SlotAt(q, m) != 0
  {
    var p, s := GoesTo(first, index), vec[m].slots;
    LevelSorted(ks, vec, top, m);
    hide IndexOk, UpperOk, Sorted;
    NoneAtOrBelow(s, k, first, last, found, index);
    if first == 0 && p != 0 {
      assert AllNull(s, 0, p + 1) && 2 <= p + 1 <= last && At(s, p + 1) > k;
    }
  }

  lemma NoneComesBefore(ks: seq<int>, vec: seq<GapVector>, top: nat, m: nat, first: nat, p: nat)
    requires Sorted(ks) && IndexOk(ks, vec, top) && m <= top && NoneBefore(ks, m + 1, first)
    requires AllNull(vec[m].slots, first, p + 1) || p == first
    requires first == 0 && p != 0 ==> forall q: nat :: At(ks, q) != NULLKEY ==> SlotAt(q, m) != 0
    ensures NoneBefore(ks, m, BLOCK * p)
  {
    forall q: nat | At(ks, q) != NULLKEY
      ensures BLOCK * p <= Ancestor(q, m)
    {
      var s := SlotAt(q, m);
      assert first <= Ancestor(q, m + 1) == s == Ancestor(q, m) / BLOCK;
      if s < p && s >= 1 {
        EntryAbove(ks, vec, top, m, q);
      }
    }
  }

  lemma StaysOn(ks: seq<int>, vec: seq<GapVector>, top: nat, m: nat, k: int,
                first: nat, last: int, found: bool, index: int)
    requires Sorted(ks) && IndexOk(ks, vec, top) && m <= top && first <= last < |vec[m].slots| && k > NULLKEY
    requires SearchResult(vec[m].slots, first, last, k, found, index)
    requires OnTrack(ks, k, m + 1, first, last) && !Overlooks(ks, vec, k, m, last)
    ensures GoesTo(first, index) >= 0
    ensures var p := GoesTo(first, index); OnTrack(ks, k, m, BLOCK * p, BLOCK * p + BLOCK - 1)
  {
    var p, s := GoesTo(first, index), vec[m].slots;
    BeyondBelow(ks, vec, top, m, k, first, last, found, index);
    if IsPred(s, first, last, k, index) {
      var q := KeyBelow(ks, vec, top, m, index);
      assert Ancestor(q, m) / BLOCK == p;
      assert SomeInside(ks, k, m, BLOCK * p, BLOCK * p + BLOCK - 1);
    } else {
      NoEntryAtOrBelow(ks, vec, top, m, k, first, last, found, index);
      if SomeInside(ks, k, m + 1, first, last) {
        var q := InsideShows(ks, vec, top, m, k, first, last);
        assert Ancestor(q, m) / BLOCK == p;
        assert SomeInside(ks, k, m, BLOCK * p, BLOCK * p + BLOCK - 1);
      } else {
        NoneComesBefore(ks, vec, top, m, first, p);
      }
    }
  }

  lemma LandsBefore(s: seq<int>, k: int, last: int, found: bool, index: int, f: int)
    requires Sorted(s) && 0 <= last < |s| && SearchResult(s, 0, last, k, found, index) && k > NULLKEY
    requires 1 <= f <= last && AllNull(s, 0, f) && At(s, f) > k
    ensures index == f - 1
  {
    assert forall j :: 0 <= j < |s| ==> At(s, j) == s[j];
  }

  /** Under empty entries, the first one aside, nothing is stored. */
  lemma NothingUnder(ks: seq<int>, vec: seq<GapVector>, top: nat, m: nat, first: int, last: int)
    requires Sorted(ks) && IndexOk(ks, vec, top) && m <= top && 1 <= first && AllNull(vec[m].slots, first, last + 1)
    ensures NoneInside(ks, m, BLOCK * first, BLOCK * last + BLOCK - 1)
  {
    forall q: nat | At(ks, q) != NULLKEY
      ensures !(BLOCK * first <= Ancestor(q, m) <= BLOCK * last + BLOCK - 1)
    {
      assert SlotAt(q, m) == Ancestor(q, m) / BLOCK;
      if SlotAt(q, m) >= 1 {
        EntryAbove(ks, vec, top, m, q);
      }
    }
  }

  lemma GoesOff(ks: seq<int>, vec: seq<GapVector>, top: nat, m: nat, k: int,
                first: nat, last: int, found: bool, index: int)
    requires Sorted(ks) && IndexOk(ks, vec, top) && m <= top && first <= last < |vec[m].slots| && k > NULLKEY
    requires SearchResult(vec[m].slots, first, last, k, found, index)
    requires OnTrack(ks, k, m + 1, first, last) && Overlooks(ks, vec, k, m, last)
    ensures GoesTo(first, index) >= 0
    ensures var p := GoesTo(first, index); OffTrack(ks, k, m, BLOCK * p, BLOCK * p + BLOCK - 1)
  {
    OverlooksAtFront(ks, vec, top, m, k, first, last, last);
    BeyondBelow(ks, vec, top, m, k, first, last, found, index);
    LevelSorted(ks, vec, top, m);
    var p, s := GoesTo(first, index), vec[m].slots;
    var q0: nat :| At(ks, q0) != NULLKEY && SlotAt(q0, m) == 0;
    var f :| 2 <= f <= last && AllNull(s, 0, f) && At(s, f) > k;
    LandsBefore(s, k, last, found, index, f);
    var q1 := KeyBelow(ks, vec, top, m, f);
    NothingUnder(ks, vec, top, m, p, p);
    assert Ancestor(q0, m) / BLOCK == 0 && Ancestor(q1, m) / BLOCK == f;
  }

  lemma EntryHasKey(ks: seq<int>, vec: seq<GapVector>, top: nat, m: nat, j: int)
    requires IndexOk(ks, vec, top) && m <= top && At(vec[m].slots, j) != NULLKEY
    ensures exists q: nat :: At(ks, q) != NULLKEY && Ancestor(q, m + 1) == j
  {
    var q := KeyBelow(ks, vec, top, m, j);
    assert Ancestor(q, m + 1) == j;
  }

  lemma OffBelow(ks: seq<int>, k: int, m: nat, first: nat, last: int)
    requires OffTrack(ks, k, m + 1, first, last) && first <= last
    requires AllBeyond(ks, k, m, BLOCK * first + BLOCK - 1)
    ensures OffTrack(ks, k, m, BLOCK * first, BLOCK * first + BLOCK - 1)
  {
    assert forall q: nat :: Ancestor(q, m + 1) == Ancestor(q, m) / BLOCK;
    var q: nat :| At(ks, q) != NULLKEY && !(first <= Ancestor(q, m + 1));
    var q': nat :| At(ks, q') != NULLKEY && Ancestor(q', m + 1) > last;
    assert Ancestor(q, m) < BLOCK * first && Ancestor(q', m) > BLOCK * first + BLOCK - 1;
  }

  lemma StaysOff(ks: seq<int>, vec: seq<GapVector>, top: nat, m: nat, k: int,
                 first: nat, last: int, found: bool, index: int)
    requires Sorted(ks) && IndexOk(ks, vec, top) && m <= top && first <= last < |vec[m].slots|
    requires SearchResult(vec[m].slots, first, last, k, found, index)
    requires OffTrack(ks, k, m + 1, first, last)
    ensures index == first
    ensures OffTrack(ks, k, m, BLOCK * first, BLOCK * first + BLOCK - 1)
  {
    forall j | first <= j <= last
      ensures At(vec[m].slots, j) == NULLKEY
    {
      if At(vec[m].slots, j) != NULLKEY {
        EntryHasKey(ks, vec, top, m, j);
      }
    }
    BeyondBelow(ks, vec, top, m, k, first, last, found, index);
    OffBelow(ks, k, m, first, last);
  }

  /** One level of the search goes on where it should, unless this level, or one before it, hides what it is after. */
  lemma Descends(ks: seq<int>, vec: seq<GapVector>, top: nat, m: nat, k: int, first0: nat, last0: int,
                 first: nat, last: int, found: bool, index: int)
    requires Sorted(ks) && IndexOk(ks, vec, top) && m <= top && first0 <= last0 && k > NULLKEY
    requires Clamped(vec[m], first0, last0, first, last) && first <= last < |vec[m].slots|
    requires SearchResult(vec[m].slots, first, last, k, found, index)
    requires OnTrack(ks, k, m + 1, first0, last0) || OffTrack(ks, k, m + 1, first0, last0)
    ensures GoesTo(first, index) >= 0
    ensures var lo := BLOCK * GoesTo(first, index);
            if OnTrack(ks, k, m + 1, first0, last0) && !Overlooks(ks, vec, k, m, last0)
            then OnTrack(ks, k, m, lo, lo + BLOCK - 1) else OffTrack(ks, k, m, lo, lo + BLOCK - 1)
  {
    ClampedTrack(ks, vec, top, m, k, first0, last0, first, last);
    hide Sorted, IndexOk, Overlooks, Clamped, SearchResult, OnTrack, OffTrack;
    if OnTrack(ks, k, m + 1, first0, last0) {
      if Overlooks(ks, vec, k, m, last0) {
        GoesOff(ks, vec, top, m, k, first, last, found, index);
      } else {
        StaysOn(ks, vec, top, m, k, first, last, found, index);
      }
    } else {
      StaysOff(ks, vec, top, m, k, first, last, found, index);
    }
  }

  lemma EmptyFront(vec: seq<GapVector>, top: nat, m: nat)
    requires UpperOk(vec, top) && Sound(vec) && 1 <= m <= top && AllNull(vec[m].slots, 0, 2)
    ensures AllNull(vec[m - 1].slots, 0, BLOCK)
  {
    assert At(vec[m].slots, 0) == NULLKEY && At(vec[m].slots, 1) == NULLKEY;
    assert LinkOk(vec, m) && !HeadlessAt(vec, m);
  }

  /** A search strays only where slot 0 of the array is free. */
  lemma StraysFrontEmpty(ks: seq<int>, vec: seq<GapVector>, top: nat, k: int)
    requires IndexOk(ks, vec, top) && Strays(ks, vec, top, k)
    ensures At(ks, 0) == NULLKEY
  {
    var m: nat :| m <= RealTop(vec, top) && Overlooks(ks, vec, k, m, WindowEnd(vec, top, m));
    assert At(vec[m].slots, 0) == NULLKEY;
    if At(ks, 0) != NULLKEY {
      HeadUp(ks, vec, top, m);
    }
  }

  /** In a sound index no level hides anything. */
  lemma {:induction false} SoundHidesNothing(ks: seq<int>, vec: seq<GapVector>, top: nat, m: nat, q: nat)
    requires Sorted(ks) && IndexOk(ks, vec, top) && Sound(vec) && m <= top && AllNull(vec[m].slots, 0, 2)
    requires At(ks, q) != NULLKEY
    ensures SlotAt(q, m) != 0
  {
    hide Sorted, UpperOk, Sound, LinkOk, Linked, Headless, FirstFrom;
    if m == 0 {
      EntryAbove(ks, vec, top, 0, q);
    } else {
      EmptyFront(vec, top, m);
      SoundHidesNothing(ks, vec, top, m - 1, q);
      if SlotAt(q, m) == 0 {
        EntryAbove(ks, vec, top, m - 1, q);
      }
    }
  }

  /** So every search of a sound index is right. */
  lemma SoundFindsAll(ks: seq<int>, vec: seq<GapVector>, top: nat, k: int)
    requires Sorted(ks) && IndexOk(ks, vec, top) && Sound(vec)
    ensures !Strays(ks, vec, top, k)
  {
    forall m: nat | m <= RealTop(vec, top)
      ensures !Overlooks(ks, vec, k, m, WindowEnd(vec, top, m))
    {
      if q: nat :| At(ks, q) != NULLKEY && SlotAt(q, m) == 0 && AllNull(vec[m].slots, 0, 2) {
        SoundHidesNothing(ks, vec, top, m, q);
      }
    }
  }

  /** Where an index is not sound, at a level that searches look at, a stored key is missed: the lost head itself. */
  lemma LostHeadStrays(ks: seq<int>, vec: seq<GapVector>, top: nat, m: nat)
    requires Sorted(ks) && IndexOk(ks, vec, top) && HeadlessAt(vec, m) && m <= RealTop(vec, top)
    requires At(vec[m].slots, 1) == NULLKEY && !AllNull(vec[m].slots, 2, WindowEnd(vec, top, m) + 1)
    ensures First(vec[m - 1].slots, 0) in ks && Strays(ks, vec, top, First(vec[m - 1].slots, 0))
  {
    var child, s := vec[m - 1].slots, vec[m].slots;
    var a := FirstFromSlot(child, 0, BLOCK);
    var q0 := KeyBelow(ks, vec, top, m - 1, a);
    assert SlotAt(q0, m) == 0 && ks[q0] == First(child, 0);
    var f := FirstFromSlot(s, 2, WindowEnd(vec, top, m) + 1);
    var q1 := KeyBelow(ks, vec, top, m, f);
    if q1 <= q0 {
      SlotMonotone(q1, q0, m);
    }
    assert AllNull(s, 0, f);
    assert Overlooks(ks, vec, First(child, 0), m, WindowEnd(vec, top, m));
  }

  lemma SearchReady(ks: seq<int>, vec: seq<GapVector>, top: nat, m: nat)
    requires Sorted(ks) && IndexOk(ks, vec, top) && m <= top
    ensures m < |vec| == top + 1 && LevelOk(vec[m]) && Sorted(vec[m].slots)
  {
    LevelSorted(ks, vec, top, m);
  }

  lemma EmptyIndex(ks: seq<int>, vec: seq<GapVector>)
    requires Sorted(ks) && IndexOk(ks, vec, 0) && vec[0].elements < 1
    ensures AllNull(ks, 0, |ks|)
  {
    forall q | 0 <= q < |ks|
      ensures At(ks, q) == NULLKEY
    {
      if At(ks, q) != NULLKEY {
        FirstNotAbove(ks, q);
      }
    }
  }

  /** A search for k that has come down to level m has been misled on the way. */
  ghost predicate StrayedAbove(ks: seq<int>, vec: seq<GapVector>, top: nat, k: int, m: nat) {
    top < |vec| && exists j: nat :: m <= j <= RealTop(vec, top) && Overlooks(ks, vec, k, j, WindowEnd(vec, top, j))
  }

  /** A search begins on its track. */
  lemma SearchStarts(ks: seq<int>, vec: seq<GapVector>, top: nat, k: int)
    requires Sorted(ks) && IndexOk(ks, vec, top)
    ensures |vec| == top + 1
    ensures OnTrack(ks, k, RealTop(vec, top) + 1, 0, vec[RealTop(vec, top)].last)
    ensures !StrayedAbove(ks, vec, top, k, RealTop(vec, top) + 1)
  {
    TopIsOn(ks, vec, top, RealTop(vec, top), k);
  }

  /** A search that has come down to the array covers the key's place, or misses it, as it was misled or not. */
  lemma SearchEnds(ks: seq<int>, vec: seq<GapVector>, top: nat, k: int, first: nat, last: int)
    requires first <= last && top < |vec|
    requires if StrayedAbove(ks, vec, top, k, 0) then OffTrack(ks, k, 0, first, last)
             else OnTrack(ks, k, 0, first, last)
    ensures Covers(ks, k, first, last) <==> !Strays(ks, vec, top, k)
    ensures Strays(ks, vec, top, k) ==> Missed(ks, k, first, last)
  {
    hide OnTrack, OffTrack, Covers, Missed, Overlooks;
    TrackEnds(ks, k, first, last);
    if Strays(ks, vec, top, k) {
      MissedNotCovered(ks, k, first, last);
    }
  }

  lemma FrontHidesNothing(ks: seq<int>, vec: seq<GapVector>, top: nat, m: nat, k: int, first: nat, last: int, hi: int)
    requires Sorted(ks) && IndexOk(ks, vec, top) && m <= top && k > NULLKEY
    requires OnTrack(ks, k, m + 1, first, last) && first != 0
    ensures !Overlooks(ks, vec, k, m, hi)
  {
    if Overlooks(ks, vec, k, m, hi) {
      OverlooksAtFront(ks, vec, top, m, k, first, last, hi);
    }
  }

  /** A search on its way looks at the whole window in which its level could mislead it. */
  lemma SameWindow(ks: seq<int>, vec: seq<GapVector>, top: nat, m: nat, k: int, first: nat, last: int)
    requires Sorted(ks) && IndexOk(ks, vec, top) && m <= RealTop(vec, top) && k > NULLKEY
    requires m == RealTop(vec, top) ==> first == 0 && last == vec[m].last
    requires m < RealTop(vec, top) ==> last == first + BLOCK - 1
    ensures OnTrack(ks, k, m + 1, first, last) ==>
              (Overlooks(ks, vec, k, m, last) <==> Overlooks(ks, vec, k, m, WindowEnd(vec, top, m)))
    ensures StrayedAbove(ks, vec, top, k, m) <==>
              StrayedAbove(ks, vec, top, k, m + 1) || Overlooks(ks, vec, k, m, WindowEnd(vec, top, m))
  {
    if OnTrack(ks, k, m + 1, first, last) && first != 0 {
      FrontHidesNothing(ks, vec, top, m, k, first, last, last);
      FrontHidesNothing(ks, vec, top, m, k, first, last, WindowEnd(vec, top, m));
    }
  }
}
