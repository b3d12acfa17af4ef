/**
  Records gathered from several hosts: kept in memory, spilled to files when it fills up, and read back or joined by
  key.
 */
module Aggregate {
  import opened Merge

  /** What a read buffer holds where nothing was read into it. */
  const BLANK := Rec(0, 0)

  ghost function Joined(parts: seq<seq<Rec>>): seq<Rec> {
    if parts == [] then [] else parts[0] + Joined(parts[1..])
  }

  /** The records from position pos of host idx on. */
  ghost function From(parts: seq<seq<Rec>>, idx: nat, pos: nat): seq<Rec> {
    if idx >= |parts| then []
    else if pos <= |parts[idx]| then parts[idx][pos..] + Joined(parts[idx + 1..])
    else Joined(parts[idx + 1..])
  }

  lemma FromNext(parts: seq<seq<Rec>>, idx: nat)
    requires idx < |parts|
    ensures From(parts, idx, |parts[idx]|) == From(parts, idx + 1, 0)
  {
    var rest := parts[idx + 1..];
    if rest != [] {
      assert rest[0] == parts[idx + 1] && rest[1..] == parts[idx + 2..];
      assert parts[idx + 1][0..] == parts[idx + 1];
    }
  }

  lemma FromSplit(parts: seq<seq<Rec>>, idx: nat, pos: nat, n: nat)
    requires idx < |parts| && pos + n <= |parts[idx]|
    ensures From(parts, idx, pos) == parts[idx][pos..pos + n] + From(parts, idx, pos + n)
  {
    var a, b, rest := parts[idx][pos..pos + n], parts[idx][pos + n..], Joined(parts[idx + 1..]);
    assert parts[idx][pos..] == a + b;
    assert (a + b) + rest == a + (b + rest);
  }

  lemma FromStart(parts: seq<seq<Rec>>)
    ensures From(parts, 0, 0) == Joined(parts)
  {
    if parts != [] {
      assert parts[0][0..] == parts[0];
    }
  }

  /** With nothing left, no later host has anything. */
  lemma {:induction false} NothingLater(parts: seq<seq<Rec>>)
    requires Joined(parts) == [] && parts != []
    ensures parts[|parts| - 1] == []
  {
    if |parts| > 1 {
      NothingLater(parts[1..]);
    }
  }

  class Spill {
    var mem: seq<seq<Rec>>
    var disk: seq<seq<Rec>>
    var useDisk: bool
    var flushed: bool
    ghost var written: seq<seq<Rec>>

    const caps: seq<nat>
    const readmax: nat

    /** What each host wrote is on disk and, after that, in memory. */
    ghost predicate Gathering()
      reads this
    {
      && |caps| == |mem| == |disk| == |written| && readmax >= 1
      && (forall i :: 0 <= i < |caps| ==> caps[i] >= |mem[i]| && caps[i] >= 1 && written[i] == disk[i] + mem[i])
      && (if useDisk then exists i :: 0 <= i < |caps| && disk[i] != [] && |written[i]| > caps[i]
          else forall i :: 0 <= i < |caps| ==> disk[i] == [])
    }

    constructor (capacities: seq<nat>, readCapacity: nat)
      requires readCapacity >= 1 && forall i :: 0 <= i < |capacities| ==> capacities[i] >= 1
      ensures Gathering() && !flushed && !useDisk && caps == capacities && readmax == readCapacity
      ensures written == seq(|capacities|, _ => [])
    {
      caps, readmax := capacities, readCapacity;
      mem, disk := seq(|capacities|, _ => []), seq(|capacities|, _ => []);
      written := seq(|capacities|, _ => []);
      useDisk, flushed := false, false;
    }

    /** Takes a record of a host. When the host's buffer is full, it goes to the host's file first. */
    method Write(host: nat, r: Rec)
      requires Gathering() && !flushed && host < |caps|
      modifies this
      ensures Gathering() && !flushed && written == old(written)[host := old(written)[host] + [r]]
    {
      if |mem[host]| + 1 > caps[host] {
        disk := disk[host := disk[host] + mem[host]];
        mem := mem[host := []];
        useDisk := true;
      }
      mem := mem[host := mem[host] + [r]];
      written := written[host := written[host] + [r]];
    }

    /** Something was spilled exactly if some host wrote more than its buffer takes. */
    lemma SpilledWhenFull()
      requires Gathering()
      ensures useDisk <==> exists i :: 0 <= i < |caps| && |written[i]| > caps[i]
    {
    }

    /** Spills what one host still has in memory. */
    method FlushHost(i: nat)
      requires Gathering() && useDisk && i < |caps|
      modifies this`disk, this`mem
      ensures Gathering() && mem == old(mem)[i := []]
    {
      if mem[i] != [] {
        disk := disk[i := disk[i] + mem[i]];
        mem := mem[i := []];
      }
    }

    lemma Sizes()
      requires Gathering()
      ensures |caps| == |mem| == |disk| == |written|
    {
    }

    /** Spills what all hosts still have in memory. */
    method FlushAll()
      requires Gathering() && useDisk
      modifies this`disk, this`mem
      ensures Gathering() && forall j :: 0 <= j < |caps| ==> mem[j] == []
    {
      hide *;
      Sizes();
      var i := 0;
      while i < |caps|
        invariant 0 <= i <= |caps| == |mem| && Gathering() && useDisk
        invariant forall j :: 0 <= j < i ==> mem[j] == []
      {
        FlushHost(i);
        i := i + 1;
      }
    }

    lemma WhereAll()
      requires Gathering()
      ensures useDisk && (forall j :: 0 <= j < |caps| ==> mem[j] == []) ==> disk == written
      ensures !useDisk ==> mem == written
    {
      assert useDisk && (forall j :: 0 <= j < |caps| ==> mem[j] == []) ==>
               forall i :: 0 <= i < |caps| ==> disk[i] == written[i];
      assert !useDisk ==> forall i :: 0 <= i < |caps| ==> mem[i] == written[i];
    }

    /** Ends the writing: if anything was spilled, all the rest is spilled too. */
    method Flush()
      requires Gathering() && !flushed
      modifies this
      ensures Gathering() && flushed && useDisk == old(useDisk) && written == old(written)
      ensures if useDisk then disk == written else mem == written
    {
      if useDisk {
        FlushAll();
      }
      flushed := true;
      WhereAll();
    }
  }

  /**
    The read buffer has just been filled when the records end, and the last host, which is still to be looked at, has
    none.
   */
  ghost predicate EndsBlank(parts: seq<seq<Rec>>, readmax: nat)
    requires readmax >= 1
  {
    parts != [] && parts[|parts| - 1] == [] && |Joined(parts)| % readmax == 0
  }

  /** A place in the hosts' records. In a file that has been begun there is always something left. */
  ghost predicate Place(parts: seq<seq<Rec>>, idx: nat, at: nat, begun: bool) {
    && idx <= |parts|
    && (if idx < |parts| then at <= |parts[idx]| && (begun && at > 0 ==> at < |parts[idx]|) else at == 0)
  }

  lemma TimesAtLeast(e: int, d: int)
    requires d >= 1
    ensures e >= 1 ==> e * d >= d
    ensures e <= -1 ==> e * d <= -d
  {
  }

  lemma Divides(total: int, q: int, n: nat, d: int)
    requires n < d && total == q * d + n
    ensures total % d == n
  {
    var e := total / d - q;
    assert e * d == n - total % d;
    TimesAtLeast(e, d);
  }

  /** Adding a number to a multiple of another. */
  lemma Remainder(total: int, n: nat, d: nat, multiple: int)
    requires d >= 1 && multiple % d == 0
    ensures n < d && total == multiple + n ==> total % d == n
    ensures total == multiple + d ==> total % d == 0
  {
    var q := multiple / d;
    assert multiple == q * d;
    if n < d && total == multiple + n {
      Divides(total, q, n, d);
    }
    if total == multiple + d {
      assert (q + 1) * d == q * d + d;
      Divides(total, q + 1, 0, d);
    }
  }

  lemma NothingFrom(parts: seq<seq<Rec>>)
    ensures From(parts, |parts|, 0) == []
  {
  }

  lemma Regroup(a: seq<Rec>, b: seq<Rec>, c: seq<Rec>)
    ensures a + (b + c) == a + b + c
  {
  }

  lemma LastIsEmpty(parts: seq<seq<Rec>>, idx: nat, pos: nat)
    requires idx < |parts| && pos <= |parts[idx]| && (pos > 0 ==> pos < |parts[idx]|) && From(parts, idx, pos) == []
    ensures parts[|parts| - 1] == []
  {
    assert parts[idx][pos..] == [] && Joined(parts[idx + 1..]) == [];
    if idx + 1 < |parts| {
      NothingLater(parts[idx + 1..]);
    }
  }

  lemma {:induction false} SomethingSpilled(parts: seq<seq<Rec>>)
    requires exists i :: 0 <= i < |parts| && parts[i] != []
    ensures Joined(parts) != []
  {
    var i :| 0 <= i < |parts| && parts[i] != [];
    if i > 0 {
      assert parts[1..][i - 1] == parts[i];
      SomethingSpilled(parts[1..]);
    }
  }

  /** Reads back what was gathered, host by host. */
  class SpillReader {
    var numIdx: nat
    var at: nat
    var started: bool
    var readbuf: seq<Rec>
    var readpos: nat
    ghost var blank: bool

    const parts: seq<seq<Rec>>
    const useDisk: bool
    const readmax: nat

    /** What has not been read into a buffer. */
    ghost function Unread(): seq<Rec>
      reads `numIdx, `at
    {
      From(parts, numIdx, at)
    }

    ghost predicate Valid()
      reads this
    {
      && readmax >= 1 && Place(parts, numIdx, at, useDisk)
      && (readpos <= |readbuf| || (blank && readbuf == []))
      && (useDisk ==> Joined(parts) != [])
      && (!useDisk || !started ==> readbuf == [] && readpos == 0 && !blank)
      && (!started ==> Unread() == Joined(parts) && (parts != [] ==> numIdx < |parts|))
    }

    /** A block was full whenever a host is left, and a blank has come if one was to come. */
    ghost predicate Paced()
      reads this
      requires readmax >= 1
    {
      useDisk ==> if numIdx < |parts| then !blank && (|Joined(parts)| - |Unread()|) % readmax == 0
                  else blank == EndsBlank(parts, readmax)
    }

    /** What has not been handed out. */
    ghost function Rest(): seq<Rec>
      reads this
    {
      (if readpos <= |readbuf| then readbuf[readpos..] else []) + Unread()
    }

    constructor (source: Spill)
      requires source.Gathering() && source.flushed
               && (if source.useDisk then source.disk == source.written else source.mem == source.written)
      ensures Valid() && Paced() && parts == source.written && useDisk == source.useDisk && readmax == source.readmax
      ensures Rest() == Joined(parts) && !blank
    {
      parts := if source.useDisk then source.disk else source.mem;
      useDisk, readmax := source.useDisk, source.readmax;
      numIdx, at, started, readbuf, readpos, blank := 0, 0, false, [], 0, false;
      new;
      FromStart(parts);
      if useDisk {
        SomethingSpilled(parts);
      }
    }

    /** Takes what fits of the host's file, and goes to the next host if that was all of it. */
    method TakeFromHost(ghost unread: seq<Rec>)
      requires Place(parts, numIdx, at, true) && numIdx < |parts| && |readbuf| < readmax && readbuf + Unread() == unread
      modifies this`numIdx, this`at, this`readbuf
      ensures Place(parts, numIdx, at, true) && |readbuf| <= readmax && readbuf + Unread() == unread
      ensures numIdx == |parts| && |readbuf| == readmax ==> parts[|parts| - 1] != []
      ensures numIdx > old(numIdx) || (numIdx == old(numIdx) && |readbuf| > |old(readbuf)|)
    {
      hide From, Joined;
      var mrest, drest := readmax - |readbuf|, |parts[numIdx]| - at;
      if |parts[numIdx]| == 0 {
        FromNext(parts, numIdx);
        numIdx, at := numIdx + 1, 0;
      } else if drest > mrest {
        FromSplit(parts, numIdx, at, mrest);
        Regroup(readbuf, parts[numIdx][at..at + mrest], From(parts, numIdx, at + mrest));
        readbuf := readbuf + parts[numIdx][at..at + mrest];
        at := at + mrest;
      } else {
        FromSplit(parts, numIdx, at, drest);
        FromNext(parts, numIdx);
        Regroup(readbuf, parts[numIdx][at..at + drest], From(parts, numIdx + 1, 0));
        readbuf := readbuf + parts[numIdx][at..at + drest];
        numIdx, at := numIdx + 1, 0;
      }
    }

    /**
      A block has what was unread up to the size of the buffer; a host is left if there is more, or if the last host
      is empty and the block is full.
     */
    ghost predicate BlockOf(unread: seq<Rec>, block: seq<Rec>, rest: seq<Rec>)
      reads this
    {
      && block + rest == unread && |block| <= readmax
      && (numIdx < |parts| ==> |block| == readmax)
      && (numIdx >= |parts| ==> rest == [])
      && (numIdx < |parts| <==> |unread| > readmax || (|unread| == readmax && parts != [] && parts[|parts| - 1] == []))
    }

    lemma BlockRead(unread: seq<Rec>)
      requires Place(parts, numIdx, at, true) && |readbuf| <= readmax && readbuf + Unread() == unread && parts != []
      requires numIdx >= |parts| || readmax == |readbuf|
      requires numIdx == |parts| && |readbuf| == readmax ==> parts[|parts| - 1] != []
      ensures BlockOf(unread, readbuf, Unread())
    {
      if numIdx < |parts| {
        if Unread() == [] {
          LastIsEmpty(parts, numIdx, at);
        }
      } else {
        assert Unread() == [];
      }
    }

    /** Fills the read buffer from the hosts' files, host after host. */
    method ReadNextBlock() returns (more: bool)
      requires readmax >= 1 && Place(parts, numIdx, at, true)
      modifies this`numIdx, this`at, this`readbuf, this`readpos
      ensures Place(parts, numIdx, at, true) && readpos == 0 && (more <==> old(numIdx) < |parts|)
      ensures !more ==> readbuf == [] && numIdx == old(numIdx) && at == old(at)
      ensures more ==> BlockOf(old(Unread()), readbuf, Unread())
    {
      hide From, Joined, BlockOf;
      ghost var unread := Unread();
      readbuf, readpos := [], 0;
      if numIdx >= |parts| {
        return false;
      }
      assert [] + unread == unread;
      while !(numIdx >= |parts| || readmax == |readbuf|)
        invariant Place(parts, numIdx, at, true) && |readbuf| <= readmax && readpos == 0
        invariant readbuf + Unread() == unread
        invariant numIdx == |parts| && |readbuf| == readmax ==> parts[|parts| - 1] != []
        decreases |parts| - numIdx, readmax - |readbuf|
      {
        TakeFromHost(unread);
      }
      more := true;
      BlockRead(unread);
    }

    /** Hands out the next record from the buffers of the hosts. */
    method ReadFromMemory() returns (ok: bool, r: Rec)
      requires Valid() && !useDisk
      modifies this`numIdx, this`at, this`started
      ensures Valid()
      ensures old(Rest()) != [] ==> ok && old(Rest()) == [r] + Rest()
      ensures old(Rest()) == [] ==> !ok && Rest() == [] && numIdx == |parts|
    {
      hide From, Joined;
      assert Rest() == Unread();
      NothingFrom(parts);
      started := true;
      while numIdx < |parts|
        invariant started && Place(parts, numIdx, at, false) && Unread() == old(Unread())
        decreases |parts| - numIdx
      {
        if at + 1 > |parts[numIdx]| {
          FromNext(parts, numIdx);
          numIdx, at := numIdx + 1, 0;
        } else {
          FromSplit(parts, numIdx, at, 1);
          at := at + 1;
          assert parts[numIdx][at - 1..at] == [parts[numIdx][at - 1]];
          assert Rest() == Unread();
          return true, parts[numIdx][at - 1];
        }
      }
      assert Rest() == Unread();
      return false, BLANK;
    }

    lemma BlockPaced(unread: seq<Rec>, idx: nat, place: nat)
      requires readmax >= 1 && BlockOf(unread, readbuf, Unread()) && idx < |parts|
      requires Place(parts, idx, place, true) && unread == From(parts, idx, place)
      requires (|Joined(parts)| - |unread|) % readmax == 0
      ensures numIdx < |parts| ==> readbuf != [] && (|Joined(parts)| - |Unread()|) % readmax == 0
      ensures numIdx >= |parts| ==> (EndsBlank(parts, readmax) <==> readbuf == [])
    {
      var total := |Joined(parts)|;
      if numIdx < |parts| {
        Remainder(total - |unread| + readmax, 0, readmax, total - |unread|);
      } else if |unread| < readmax {
        Remainder(total, |unread|, readmax, total - |unread|);
        if unread == [] {
          LastIsEmpty(parts, idx, place);
        }
      }
    }

    /** Brings in the next block. An empty one stands for a record that nobody wrote. */
    method NextBlock() returns (more: bool)
      requires Valid() && useDisk && readpos >= |readbuf| && Paced()
      modifies this`numIdx, this`at, this`readbuf, this`readpos, this`blank
      ensures Place(parts, numIdx, at, true) && Paced() && readpos == 0
      ensures !more ==>
                old(numIdx) == numIdx == |parts| && readbuf == [] && Unread() == old(Unread()) == []
                && blank == old(blank)
      ensures more ==> old(numIdx) < |parts| && readbuf + Unread() == old(Unread()) && (blank <==> readbuf == [])
      ensures more && readbuf == [] ==> Unread() == [] && numIdx == |parts|
    {
      hide From, Joined, EndsBlank;
      ghost var unread, idx, place := Unread(), numIdx, at;
      NothingFrom(parts);
      more := ReadNextBlock();
      if more {
        BlockPaced(unread, idx, place);
        blank := readbuf == [];
      }
    }

    lemma StartPaced()
      requires readmax >= 1
      ensures (|Joined(parts)| - |Joined(parts)|) % readmax == 0
    {
    }

    /** The first call fills the read buffer. */
    method Start()
      requires Valid() && Paced() && useDisk
      modifies this
      ensures Valid() && Paced() && started && Rest() == old(Rest()) && blank == old(blank)
    {
      hide From, Joined, EndsBlank;
      if !started {
        StartPaced();
        var _ := NextBlock();
        started := true;
      }
    }

    method ReadFromDisk() returns (ok: bool, r: Rec)
      requires Valid() && Paced() && useDisk && started
      modifies this
      ensures Valid() && Paced()
      ensures old(Rest()) != [] ==> ok && old(Rest()) == [r] + Rest() && blank == old(blank)
      ensures old(Rest()) == [] ==>
                Rest() == [] && (ok <==> blank && !old(blank)) && (ok ==> r == BLANK) && (!ok ==> numIdx == |parts|)
    {
      hide From, Joined, EndsBlank;
      if readpos + 1 > |readbuf| {
        var more := NextBlock();
        if !more {
          return false, BLANK;
        }
      }
      ok := true;
      r := if readpos < |readbuf| then readbuf[readpos] else BLANK;
      readpos := readpos + 1;
    }

    /** Hands out the next record. */
    method ReadIt() returns (ok: bool, r: Rec)
      requires Valid() && Paced()
      modifies this
      ensures Valid() && Paced()
      ensures old(Rest()) != [] ==> ok && old(Rest()) == [r] + Rest() && blank == old(blank)
      ensures old(Rest()) == [] ==>
                Rest() == [] && (ok <==> blank && !old(blank)) && (ok ==> r == BLANK) && (!ok ==> numIdx == |parts|)
    {
      if !useDisk {
        ok, r := ReadFromMemory();
        return;
      }
      Start();
      ok, r := ReadFromDisk();
    }
  }

  ghost predicate HostsBelow(writes: seq<(nat, Rec)>, n: nat) {
    forall i :: 0 <= i < |writes| ==> writes[i].0 < n
  }

  /** What each of n hosts wrote. */
  ghost function PerHost(writes: seq<(nat, Rec)>, n: nat): seq<seq<Rec>>
    requires HostsBelow(writes, n)
    ensures |PerHost(writes, n)| == n
  {
    if writes == [] then seq(n, _ => [])
    else
      var before, (host, r) := PerHost(writes[..|writes| - 1], n), writes[|writes| - 1];
      before[host := before[host] + [r]]
  }

  lemma PerHostOn(writes: seq<(nat, Rec)>, w: (nat, Rec), n: nat, h: nat)
    requires HostsBelow(writes, n) && w.0 < n && h < n
    ensures HostsBelow(writes + [w], n)
    ensures PerHost(writes + [w], n)[h] == PerHost(writes, n)[h] + if w.0 == h then [w.1] else []
  {
    assert (writes + [w])[..|writes|] == writes;
  }

  lemma LastApart(a: seq<(nat, Rec)>, b: seq<(nat, Rec)>)
    requires b != []
    ensures b == b[..|b| - 1] + [b[|b| - 1]] && a + b == a + b[..|b| - 1] + [b[|b| - 1]]
  {
  }

  /** Each host's records are in the order of the writes. */
  lemma {:induction false} PerHostJoins(a: seq<(nat, Rec)>, b: seq<(nat, Rec)>, n: nat, h: nat)
    requires HostsBelow(a, n) && HostsBelow(b, n) && h < n
    ensures HostsBelow(a + b, n)
    ensures PerHost(a + b, n)[h] == PerHost(a, n)[h] + PerHost(b, n)[h]
  {
    if b == [] {
      assert a + b == a;
    } else {
      hide PerHost;
      var most, w := b[..|b| - 1], b[|b| - 1];
      LastApart(a, b);
      PerHostJoins(a, most, n, h);
      PerHostOn(most, w, n, h);
      PerHostOn(a + most, w, n, h);
    }
  }

  /** Reads a gathering back to its end. */
  method ReadBack(reader: SpillReader) returns (out: seq<Rec>)
    requires reader.Valid() && reader.Paced() && !reader.blank && reader.Rest() == Joined(reader.parts)
    modifies reader
    ensures out == Joined(reader.parts) +
            if reader.useDisk && EndsBlank(reader.parts, reader.readmax) then [BLANK] else []
  {
    hide Joined, EndsBlank, From;
    ghost var all := Joined(reader.parts);
    out := [];
    assert [] + all == all;
    while true
      invariant reader.Valid() && reader.Paced() && (reader.blank ==> reader.Rest() == [])
      invariant if reader.blank then out == all + [BLANK] else out + reader.Rest() == all
      decreases 2 * |reader.Rest()| + if reader.blank then 0 else 1
    {
      ghost var before, was := out, reader.Rest();
      var ok, r := reader.ReadIt();
      if !ok {
        break;
      }
      out := out + [r];
      assert was != [] ==> before + ([r] + reader.Rest()) == out + reader.Rest();
      assert was == [] ==> before + [] == before;
    }
    assert reader.Rest() == [] && out + [] == out && all + [] == all;
  }

  /**
    Writing, flushing and reading back gives the records of the first host, then those of the second, and so on. One
    record too many comes at the end exactly if some host spilled, the last host wrote nothing, and the number of
    records is a multiple of what the read buffer takes.
   */
  method GatherAndReadBack(writes: seq<(nat, Rec)>, caps: seq<nat>, readmax: nat) returns (out: seq<Rec>)
    requires readmax >= 1 && forall i :: 0 <= i < |caps| ==> caps[i] >= 1
    requires HostsBelow(writes, |caps|)
    ensures var parts := PerHost(writes, |caps|);
            out == Joined(parts)
                   + if (exists i :: 0 <= i < |caps| && |parts[i]| > caps[i]) && EndsBlank(parts, readmax)
                     then [BLANK] else []
  {
    hide Joined, EndsBlank;
    var spill := new Spill(caps, readmax);
    var i := 0;
    while i < |writes|
      invariant 0 <= i <= |writes| && fresh(spill) && spill.Gathering() && !spill.flushed
      invariant spill.caps == caps && spill.readmax == readmax && spill.written == PerHost(writes[..i], |caps|)
    {
      assert writes[..i + 1][..i] == writes[..i];
      spill.Write(writes[i].0, writes[i].1);
      i := i + 1;
    }
    assert writes[..i] == writes;
    spill.Flush();
    spill.SpilledWhenFull();
    var reader := new SpillReader(spill);
    out := ReadBack(reader);
  }

  lemma BlankParts(writes: seq<(nat, Rec)>)
    requires |writes| == 2 && writes[0] == (0, Rec(1, 1)) && writes[1] == (0, Rec(2, 2))
    ensures PerHost(writes, 2) == [[Rec(1, 1), Rec(2, 2)], []]
    ensures |PerHost(writes, 2)[0]| > [1, 1][0] && Joined(PerHost(writes, 2)) == [Rec(1, 1), Rec(2, 2)]
    ensures EndsBlank(PerHost(writes, 2), 2)
  {
    var one := writes[..|writes| - 1];
    assert one[0] == writes[0] == (0, Rec(1, 1));
    assert one[..|one| - 1] == [];
    var none: seq<Rec> := [];
    assert PerHost(one[..|one| - 1], 2) == [none, none];
    assert none + [Rec(1, 1)] == [Rec(1, 1)];
    assert PerHost(one, 2) == [none, none][0 := none + [Rec(1, 1)]];
    assert PerHost(one, 2) == [[Rec(1, 1)], none];
    var parts := PerHost(writes, 2);
    assert [Rec(1, 1)] + [Rec(2, 2)] == [Rec(1, 1), Rec(2, 2)];
    assert parts == [[Rec(1, 1)], none][0 := [Rec(1, 1)] + [Rec(2, 2)]];
    assert parts == [[Rec(1, 1), Rec(2, 2)], none];
    assert parts[1..] == [[]] && parts[1..][1..] == [];
    assert Joined(parts[1..]) == [];
  }

  /** Two hosts, of which the last writes nothing; the first one's two records are spilled and fill the read buffer. */
  method BlankComesBack() returns (out: seq<Rec>)
    ensures out == [Rec(1, 1), Rec(2, 2), BLANK]
  {
    var writes: seq<(nat, Rec)> := [(0, Rec(1, 1)), (0, Rec(2, 2))];
    out := GatherAndReadBack(writes, [1, 1], 2);
    BlankParts(writes);
  }
}
