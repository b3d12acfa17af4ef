/** A reader and writer lock over regions of an array, region -1 standing for the whole of it. */
module BlockLock {
  const WHOLE: int := -1

  /** Who holds what: a region once for every reader, and once for every writer, in it. */
  datatype Holds = Holds(reading: multiset<int>, writing: multiset<int>)

  const NOBODY := Holds(multiset{}, multiset{})

  ghost predicate Meet(p: int, q: int) {
    p == q || p == WHOLE || q == WHOLE
  }

  ghost predicate MeetsAny(p: int, held: multiset<int>) {
    exists q :: q in held && Meet(p, q)
  }

  /** Some holder stands in the way: a writer of a common region, or for a writer any holder of one. */
  ghost predicate Barred(h: Holds, pos: int, isRead: bool) {
    MeetsAny(pos, h.writing) || (!isRead && MeetsAny(pos, h.reading))
  }

  /** No writer shares a region with another writer or with a reader. */
  ghost predicate Exclusive(h: Holds) {
    && (forall w :: w in h.writing ==> h.writing[w] == 1 && !MeetsAny(w, h.reading))
    && (forall w, w' :: w in h.writing && w' in h.writing && w != w' ==> !Meet(w, w'))
  }

  /** A request is made, or made again on waking up; or a holder leaves. */
  datatype Event = Ask(pos: int, isRead: bool) | Leave(pos: int, isRead: bool)

  ghost function Entered(h: Holds, pos: int, isRead: bool): Holds {
    if isRead then h.(reading := h.reading + multiset{pos}) else h.(writing := h.writing + multiset{pos})
  }

  ghost function Next(h: Holds, e: Event): Holds {
    match e
    case Ask(pos, isRead) => if Barred(h, pos, isRead) then h else Entered(h, pos, isRead)
    case Leave(pos, true) => h.(reading := h.reading - multiset{pos})
    case Leave(pos, false) => h.(writing := h.writing - multiset{pos})
  }

  ghost function Run(es: seq<Event>): Holds {
    if es == [] then NOBODY else Next(Run(es[..|es| - 1]), es[|es| - 1])
  }

  lemma NextIsExclusive(h: Holds, e: Event)
    requires Exclusive(h)
    ensures Exclusive(Next(h, e))
  {
    var h' := Next(h, e);
    match e
    case Ask(pos, isRead) =>
      if !Barred(h, pos, isRead) {
        forall w | w in h'.writing
          ensures h'.writing[w] == 1 && !MeetsAny(w, h'.reading)
        {
          assert w == pos ==> Meet(pos, w);
          assert Meet(pos, w) <==> Meet(w, pos);
        }
      }
    case Leave(pos, isRead) =>
  }

  /** In every reachable state a region has at most one writer, and nobody beside it. */
  lemma {:induction false} RunsAreExclusive(es: seq<Event>)
    ensures Exclusive(Run(es))
  {
    if es != [] {
      RunsAreExclusive(es[..|es| - 1]);
      NextIsExclusive(Run(es[..|es| - 1]), es[|es| - 1]);
    }
  }

  /** The steps at which a request for region p was granted, among the first of a run. */
  ghost function Admitted(es: seq<Event>, p: int, isRead: bool): set<int> {
    set i | 0 <= i < |es| && es[i] == Ask(p, isRead) && !Barred(Run(es[..i]), p, isRead)
  }

  /** How many readers, or writers, are in region p. */
  ghost function InRegion(h: Holds, p: int, isRead: bool): nat {
    if isRead then h.reading[p] else h.writing[p]
  }

  /** Those at which a holder of region p left. */
  ghost function Departed(es: seq<Event>, p: int, isRead: bool): set<int> {
    set i | 0 <= i < |es| && es[i] == Leave(p, isRead) && InRegion(Run(es[..i]), p, isRead) > 0
  }

  lemma StepsOn(es: seq<Event>, p: int, isRead: bool)
    requires es != []
    ensures var n := |es| - 1;
            var before, h := es[..n], Run(es[..n]);
            && Admitted(es, p, isRead) == Admitted(before, p, isRead)
                                          + (if es[n] == Ask(p, isRead) && !Barred(h, p, isRead) then {n} else {})
            && Departed(es, p, isRead) == Departed(before, p, isRead)
                                          + (if es[n] == Leave(p, isRead) && InRegion(h, p, isRead) > 0 then {n}
                                             else {})
            && n !in Admitted(before, p, isRead) && n !in Departed(before, p, isRead)
  {
    hide Barred, Run, InRegion;
    var n := |es| - 1;
    assert forall i :: 0 <= i < n ==> es[..n][..i] == es[..i] && es[..n][i] == es[i];
  }

  lemma OneStep(h: Holds, e: Event, p: int, isRead: bool)
    ensures InRegion(Next(h, e), p, isRead) == InRegion(h, p, isRead)
              + (if e == Ask(p, isRead) && !Barred(h, p, isRead) then 1 else 0)
              - (if e == Leave(p, isRead) && InRegion(h, p, isRead) > 0 then 1 else 0)
  {
    hide Barred;
  }

  /** Over every run, those in a region are those who were admitted to it and have not left. */
  lemma {:induction false} HoldersStay(es: seq<Event>, p: int, isRead: bool)
    ensures InRegion(Run(es), p, isRead) == |Admitted(es, p, isRead)| - |Departed(es, p, isRead)|
  {
    if es != [] {
      hide Admitted, Departed, Barred, Next, InRegion;
      var n := |es| - 1;
      HoldersStay(es[..n], p, isRead);
      StepsOn(es, p, isRead);
      OneStep(Run(es[..n]), es[n], p, isRead);
    }
  }

  /**
    After every run, a request is granted exactly if every writer, and for a writer every reader, that was admitted to
    the same region or to the whole, or to any region when the whole is asked for, has left. No holder of another
    region, and no reader for a reader, stands in the way.
   */
  lemma GrantedWhenLeft(es: seq<Event>, pos: int, isRead: bool)
    ensures !Barred(Run(es), pos, isRead) <==>
              forall q, r :: (q == pos || q == WHOLE || pos == WHOLE) && !(isRead && r) ==>
                |Admitted(es, q, r)| == |Departed(es, q, r)|
  {
    hide Admitted, Departed, Run;
    var h := Run(es);
    forall q, r
      ensures InRegion(h, q, r) == |Admitted(es, q, r)| - |Departed(es, q, r)|
    {
      HoldersStay(es, q, r);
    }
    if Barred(h, pos, isRead) {
      if MeetsAny(pos, h.writing) {
        var q :| q in h.writing && Meet(pos, q);
        assert InRegion(h, q, false) > 0;
      } else {
        var q :| q in h.reading && Meet(pos, q);
        assert InRegion(h, q, true) > 0;
      }
    } else {
      forall q, r | (q == pos || q == WHOLE || pos == WHOLE) && !(isRead && r)
        ensures |Admitted(es, q, r)| == |Departed(es, q, r)|
      {
        assert Meet(pos, q);
        assert InRegion(h, q, r) == 0;
      }
    }
  }

  datatype Count = Count(readers: int, writers: int)

  /** The table counts the holders of each region, and the totals all of them. */
  ghost predicate Tallied(h: Holds, table: map<int, Count>, readers: int, writers: int) {
    && readers == |h.reading| && writers == |h.writing|
    && forall p :: if p in h.reading || p in h.writing
                   then p in table && table[p] == Count(h.reading[p], h.writing[p])
                   else p !in table
  }

  lemma TallyEntered(h: Holds, table: map<int, Count>, readers: int, writers: int, pos: int, c: Count)
    requires Tallied(h, table, readers, writers) && c == Count(h.reading[pos], h.writing[pos])
    ensures Tallied(Entered(h, pos, true), table[pos := c.(readers := c.readers + 1)], readers + 1, writers)
    ensures Tallied(Entered(h, pos, false), table[pos := c.(writers := c.writers + 1)], readers, writers + 1)
  {
  }

  /** One reader, or writer, of the region less. */
  function Fewer(table: map<int, Count>, pos: int, c: Count): map<int, Count> {
    if c == Count(0, 0) then table - {pos} else table[pos := c]
  }

  lemma TallyLeft(h: Holds, table: map<int, Count>, readers: int, writers: int, pos: int, c: Count)
    requires Tallied(h, table, readers, writers) && c == Count(h.reading[pos], h.writing[pos])
    ensures c.readers > 0 ==>
              Tallied(h.(reading := h.reading - multiset{pos}), Fewer(table, pos, c.(readers := c.readers - 1)),
                      readers - 1, writers)
    ensures c.writers > 0 ==>
              Tallied(h.(writing := h.writing - multiset{pos}), Fewer(table, pos, c.(writers := c.writers - 1)),
                      readers, writers - 1)
    ensures c.readers == 0 ==> h.reading - multiset{pos} == h.reading
    ensures c.writers == 0 ==> h.writing - multiset{pos} == h.writing
  {
    if c.readers > 0 {
      assert h.reading == (h.reading - multiset{pos}) + multiset{pos};
    }
    if c.writers > 0 {
      assert h.writing == (h.writing - multiset{pos}) + multiset{pos};
    }
  }

  lemma Present(held: multiset<int>)
    ensures |held| > 0 <==> exists q :: q in held
  {
    if forall q :: q !in held {
      assert held == multiset{};
    }
  }

  /** With someone in the whole array, a reader of any region is barred only by a writer of the whole array. */
  lemma WholeDecides(h: Holds, pos: int)
    requires Exclusive(h) && (WHOLE in h.reading || WHOLE in h.writing)
    ensures Barred(h, pos, true) <==> WHOLE in h.writing
  {
    if WHOLE in h.writing {
      assert Meet(pos, WHOLE);
    } else {
      forall w
        ensures w !in h.writing
      {
        assert Meet(w, WHOLE);
      }
    }
  }

  class RegionLock {
    var table: map<int, Count>
    var readers: int
    var writers: int
    ghost var holds: Holds

    /** The table and the two totals are those of the holders. */
    ghost predicate Valid()
      reads this
    {
      Exclusive(holds) && Tallied(holds, table, readers, writers)
    }

    constructor ()
      ensures Valid() && holds == NOBODY
    {
      table, readers, writers, holds := map[], 0, 0, NOBODY;
    }

    function Lookup(pos: int): (c: Count)
      reads this
      ensures Valid() ==> c == Count(holds.reading[pos], holds.writing[pos])
    {
      if pos in table then table[pos] else Count(0, 0)
    }

    /**
      Tells whether some holder bars the request. A reader of the whole array lets any reader in without a further
      look.
     */
    method RegionOverlaps(pos: int, isRead: bool) returns (overlaps: bool)
      requires Valid()
      ensures overlaps <==> Barred(holds, pos, isRead)
    {
      Present(holds.reading);
      Present(holds.writing);
      if pos == WHOLE {
        if !isRead {
          return readers > 0 || writers > 0;
        }
        return writers > 0;
      }
      if !isRead {
        if WHOLE in table {
          return true;
        }
        return pos in table;
      }
      if WHOLE in table {
        WholeDecides(holds, pos);
        return table[WHOLE].writers >= 1;
      }
      if pos in table {
        return table[pos].writers >= 1;
      }
      return false;
    }

    /** One round of asking for a region: it is given unless some holder bars it. */
    method Lock(pos: int, isRead: bool) returns (given: bool)
      requires Valid()
      modifies this
      ensures Valid() && holds == Next(old(holds), Ask(pos, isRead))
      ensures given <==> !Barred(old(holds), pos, isRead)
    {
      NextIsExclusive(holds, Ask(pos, isRead));
      var overlaps := RegionOverlaps(pos, isRead);
      if overlaps {
        return false;
      }
      hide Exclusive, Barred, Tallied, Entered;
      var v := Lookup(pos);
      TallyEntered(holds, table, readers, writers, pos, v);
      if isRead {
        v := v.(readers := v.readers + 1);
        readers := readers + 1;
      } else {
        v := v.(writers := v.writers + 1);
        writers := writers + 1;
      }
      table := table[pos := v];
      holds := Entered(holds, pos, isRead);
      given := true;
    }

    /** A reader leaves. Where there is none, nothing happens. */
    method ReadUnlock(pos: int)
      requires Valid()
      modifies this
      ensures Valid() && holds == Next(old(holds), Leave(pos, true))
    {
      NextIsExclusive(holds, Leave(pos, true));
      var v := Lookup(pos);
      TallyLeft(holds, table, readers, writers, pos, v);
      hide Tallied, Exclusive;
      if v.readers > 0 {
        readers := readers - 1;
        table := if v.readers == 1 && v.writers == 0 then table - {pos} else table[pos := v.(readers := v.readers - 1)];
      }
      holds := holds.(reading := holds.reading - multiset{pos});
    }

    /** A writer leaves. Where there is none, nothing happens. */
    method WriteUnlock(pos: int)
      requires Valid()
      modifies this
      ensures Valid() && holds == Next(old(holds), Leave(pos, false))
    {
      NextIsExclusive(holds, Leave(pos, false));
      var v := Lookup(pos);
      TallyLeft(holds, table, readers, writers, pos, v);
      hide Tallied, Exclusive;
      if v.writers > 0 {
        writers := writers - 1;
        table := if v.writers == 1 && v.readers == 0 then table - {pos} else table[pos := v.(writers := v.writers - 1)];
      }
      holds := holds.(writing := holds.writing - multiset{pos});
    }
  }

  /** Performs a run of a new lock, and tells of each step whether it was a request that was granted. */
  method Perform(es: seq<Event>) returns (lock: RegionLock, given: seq<bool>)
    ensures fresh(lock) && lock.Valid() && lock.holds == Run(es)
    ensures |given| == |es|
    ensures forall i :: 0 <= i < |es| ==> (given[i] <==> es[i].Ask? && i in Admitted(es, es[i].pos, es[i].isRead))
  {
    hide Barred, Next, Exclusive, Tallied;
    lock := new RegionLock();
    given := [];
    while |given| < |es|
      invariant |given| <= |es| && fresh(lock) && lock.Valid() && lock.holds == Run(es[..|given|])
      invariant forall i :: 0 <= i < |given| ==>
                  (given[i] <==> es[i].Ask? && !Barred(Run(es[..i]), es[i].pos, es[i].isRead))
    {
      var n := |given|;
      assert es[..n + 1][..n] == es[..n];
      var granted := false;
      match es[n] {
        case Ask(pos, isRead) => granted := lock.Lock(pos, isRead);
        case Leave(pos, true) => lock.ReadUnlock(pos);
        case Leave(pos, false) => lock.WriteUnlock(pos);
      }
      given := given + [granted];
    }
    assert es[..|es|] == es;
  }
}
