/** Records on disk, written and read back through buffers that hold one superblock each. */
module Superblocks {
  datatype Slot = Blank | Record(value: int)

  /** The records of a stretch of slots, in order. */
  ghost function Compact(s: seq<Slot>): seq<int> {
    if s == [] then []
    else (match s[0] case Blank => [] case Record(v) => [v]) + Compact(s[1..])
  }

  ghost function Reverse(s: seq<int>): seq<int> {
    if s == [] then [] else Reverse(s[1..]) + [s[0]]
  }

  lemma {:induction false} CompactJoin(s: seq<Slot>, t: seq<Slot>)
    ensures Compact(s + t) == Compact(s) + Compact(t)
  {
    if s == [] {
      assert s + t == t;
    } else {
      assert (s + t)[1..] == s[1..] + t;
      CompactJoin(s[1..], t);
    }
  }

  lemma {:induction false} CompactBlanks(s: seq<Slot>)
    requires forall i :: 0 <= i < |s| ==> s[i] == Blank
    ensures Compact(s) == []
  {
    if s != [] {
      CompactBlanks(s[1..]);
    }
  }

  lemma CompactOne(x: Slot)
    ensures Compact([x]) == if x == Blank then [] else [x.value]
  {
    assert [x][1..] == [];
  }

  lemma {:induction false} ReverseJoin(s: seq<int>, t: seq<int>)
    ensures Reverse(s + t) == Reverse(t) + Reverse(s)
  {
    if s == [] {
      assert s + t == t;
    } else {
      assert (s + t)[1..] == s[1..] + t;
      ReverseJoin(s[1..], t);
    }
  }

  /** Going one slot on. */
  lemma CompactStep(s: seq<Slot>, i: nat)
    requires i < |s|
    ensures Compact(s[i..]) == (if s[i] == Blank then [] else [s[i].value]) + Compact(s[i + 1..])
  {
    assert s[i..][1..] == s[i + 1..];
  }

  /** Going one slot back. */
  lemma ReverseStep(s: seq<Slot>, i: nat)
    requires 0 < i <= |s|
    ensures Reverse(Compact(s[..i])) == (if s[i - 1] == Blank then [] else [s[i - 1].value])
            + Reverse(Compact(s[..i - 1]))
  {
    assert s[..i] == s[..i - 1] + [s[i - 1]];
    CompactJoin(s[..i - 1], [s[i - 1]]);
    CompactOne(s[i - 1]);
    ReverseJoin(Compact(s[..i - 1]), Compact([s[i - 1]]));
  }

  /** Writes data at a position; what lies between the old end and there reads as blank. */
  function Pwrite(file: seq<Slot>, data: seq<Slot>, at: nat): (r: seq<Slot>)
    ensures |r| == if |file| > at + |data| then |file| else at + |data|
    ensures forall i :: 0 <= i < |r| ==>
              r[i] == if at <= i < at + |data| then data[i - at] else if i < |file| then file[i] else Blank
  {
    var n := if |file| > at + |data| then |file| else at + |data|;
    seq(n, i requires 0 <= i => if at <= i < at + |data| then data[i - at] else if i < |file| then file[i] else Blank)
  }

  ghost predicate AllBlank(s: seq<Slot>, lo: nat) {
    forall i :: lo <= i < |s| ==> s[i] == Blank
  }

  function SlotOf(s: seq<Slot>, i: int): Slot {
    if 0 <= i < |s| then s[i] else Blank
  }

  /** The file has all of content before base, and the buffer has the rest. */
  ghost predicate Buffered(content: seq<Slot>, file: seq<Slot>, buf: seq<Slot>, base: int) {
    && 0 <= base && |file| <= base && |content| <= base + |buf|
    && (forall i :: 0 <= i < base ==> SlotOf(content, i) == SlotOf(file, i))
    && (forall i :: 0 <= i < |buf| ==> buf[i] == SlotOf(content, base + i))
  }

  lemma BufferedNothing(blanks: seq<Slot>, base: nat)
    requires AllBlank(blanks, 0)
    ensures Buffered([], [], blanks, base)
  {
  }

  lemma BufferedWrite(content: seq<Slot>, file: seq<Slot>, buf: seq<Slot>, base: int, pos: nat, value: int)
    requires Buffered(content, file, buf, base) && |content| <= pos && base <= pos < base + |buf|
    ensures Buffered(Pwrite(content, [Record(value)], pos), file, buf[pos - base := Record(value)], base)
  {
  }

  lemma BufferedMoves(content: seq<Slot>, file: seq<Slot>, buf: seq<Slot>, base: int, next: int, blanks: seq<Slot>)
    requires Buffered(content, file, buf, base) && next >= base + |buf| && AllBlank(blanks, 0)
    ensures Buffered(content, Pwrite(file, buf, base), blanks, next)
  {
    var f := Pwrite(file, buf, base);
    forall i | 0 <= i < next
      ensures SlotOf(content, i) == SlotOf(f, i)
    {
      assert base <= i < base + |buf| ==> buf[i - base] == SlotOf(content, base + (i - base));
    }
  }

  lemma BufferedFlush(content: seq<Slot>, file: seq<Slot>, buf: seq<Slot>, base: int, relpos: int)
    requires Buffered(content, file, buf, base) && |content| == base + relpos + 1 && 0 <= relpos < |buf|
    ensures Pwrite(file, buf[..relpos + 1], base) == content
  {
    var f := Pwrite(file, buf[..relpos + 1], base);
    forall i | 0 <= i < |content|
      ensures f[i] == content[i]
    {
      assert base <= i ==> buf[i - base] == SlotOf(content, base + (i - base));
      assert i < base ==> SlotOf(content, i) == SlotOf(file, i);
    }
  }

  lemma Times(a: int, b: int, c: nat)
    requires a <= b
    ensures a * c <= b * c && (a * c == (a - 1) * c + c)
  {
  }

  lemma BlockAfter(q: int, r: int, sb: nat, block: int)
    requires 0 <= r < sb
    ensures 0 <= block && block * sb <= q * sb + r && q != block ==> block * sb + sb <= q * sb
  {
    if q < block {
      Times(q + 1, block, sb);
    } else if q > block {
      Times(block + 1, q, sb);
    }
  }

  /** Which superblock a position is in, and where. */
  lemma BlockFacts(pos: nat, sb: nat, block: int)
    requires sb >= 1
    ensures pos == pos / sb * sb + pos % sb && 0 <= pos % sb < sb && pos / sb >= 0
    ensures 0 <= block && block * sb <= pos && pos / sb != block ==> block * sb + sb <= pos / sb * sb
  {
    BlockAfter(pos / sb, pos % sb, sb, block);
  }

  lemma PwriteBehind(content: seq<Slot>, gap: seq<Slot>, pos: nat, value: int)
    requires pos == |content| + |gap| && forall i :: 0 <= i < |gap| ==> gap[i] == Blank
    ensures Pwrite(content, [Record(value)], pos) == content + (gap + [Record(value)])
  {
  }

  lemma ContentGrows(content: seq<Slot>, pos: nat, value: int)
    requires pos >= |content|
    ensures Compact(Pwrite(content, [Record(value)], pos)) == Compact(content) + [value]
  {
    hide Compact, Pwrite;
    var gap := seq(pos - |content|, _ => Blank);
    PwriteBehind(content, gap, pos, value);
    CompactJoin(content, gap + [Record(value)]);
    CompactJoin(gap, [Record(value)]);
    CompactBlanks(gap);
    CompactOne(Record(value));
    assert Compact(content) + ([] + [value]) == Compact(content) + [value];
  }

  /** Buffers one superblock of a file that is written at increasing positions. */
  class BuffWriter {
    var file: seq<Slot>
    var superbuf: seq<Slot>
    var lastBlock: int
    var relpos: int
    var flushed: bool
    ghost var content: seq<Slot>
    ghost var records: seq<int>

    const superblock: nat

    /** content is what the file will be once the buffer is flushed. */
    ghost predicate Valid()
      reads this
    {
      && superblock >= 1 && |superbuf| == superblock
      && Compact(content) == records
      && if lastBlock < 0 then
           lastBlock == -1 && file == content && (flushed || (content == [] && AllBlank(superbuf, 0)))
         else
           && !flushed && 0 <= relpos < superblock && |content| == lastBlock * superblock + relpos + 1
           && Buffered(content, file, superbuf, lastBlock * superblock)
    }

    constructor (size: nat)
      requires size >= 1
      ensures Valid() && content == [] && records == [] && !flushed && superblock == size
    {
      superblock := size;
      file, superbuf, lastBlock, relpos, flushed := [], seq(size, _ => Blank), -1, -1, false;
      content, records := [], [];
    }

    /** Makes the buffer that of the superblock of pos, and writes the one before out if it is another. */
    method Bring(pos: nat) returns (newBlock: int, newRelpos: int)
      requires Valid() && !flushed && pos >= |content|
      modifies this`file, this`superbuf
      ensures |superbuf| == superblock && newBlock >= 0 && 0 <= newRelpos < superblock
      ensures pos == newBlock * superblock + newRelpos && Buffered(content, file, superbuf, newBlock * superblock)
    {
      hide Buffered, Compact, Pwrite;
      BlockFacts(pos, superblock, lastBlock);
      newBlock, newRelpos := pos / superblock, pos % superblock;
      if lastBlock == -1 {
        BufferedNothing(superbuf, newBlock * superblock);
      } else if newBlock != lastBlock {
        var blanks := seq(superblock, _ => Blank);
        BufferedMoves(content, file, superbuf, lastBlock * superblock, newBlock * superblock, blanks);
        file := Pwrite(file, superbuf, lastBlock * superblock);
        superbuf := blanks;
      }
    }

    /** Writes a record behind all that were written before. */
    method Write(pos: nat, value: int)
      requires Valid() && !flushed && pos >= |content|
      modifies this
      ensures Valid() && !flushed && |content| == pos + 1 && records == old(records) + [value]
      ensures content == Pwrite(old(content), [Record(value)], pos)
    {
      ContentGrows(content, pos, value);
      hide Buffered, Compact, Pwrite, AllBlank;
      var newBlock, newRelpos := Bring(pos);
      BufferedWrite(content, file, superbuf, newBlock * superblock, pos, value);
      superbuf := superbuf[newRelpos := Record(value)];
      lastBlock, relpos := newBlock, newRelpos;
      content := Pwrite(content, [Record(value)], pos);
      records := records + [value];
    }

    /** Writes out the last superblock, up to the last record. */
    method Flush()
      requires Valid()
      modifies this
      ensures Valid() && flushed && file == content && content == old(content) && records == old(records)
    {
      if lastBlock != -1 {
        BufferedFlush(content, file, superbuf, lastBlock * superblock, relpos);
        file := Pwrite(file, superbuf[..relpos + 1], lastBlock * superblock);
        lastBlock, relpos := -1, -1;
      }
      flushed := true;
    }
  }

  /** What both readers have in common: a stretch of a file, and the superblock of it that is in memory. */
  ghost predicate Loaded(buf: seq<Slot>, region: seq<Slot>, lo: int, cur: int) {
    0 <= lo <= lo + cur <= |region| && cur == |buf| && buf == region[lo..lo + cur]
  }

  lemma SliceOfSlice(file: seq<Slot>, start: nat, n: nat, lo: nat, cur: nat)
    requires start + n <= |file| && lo + cur <= n
    ensures file[start..start + n][lo..lo + cur] == file[start + lo..start + lo + cur]
  {
    var a, b := file[start..start + n][lo..lo + cur], file[start + lo..start + lo + cur];
    assert |a| == |b| == cur;
    assert forall i :: 0 <= i < cur ==> a[i] == b[i];
  }

  lemma LoadedFrom(file: seq<Slot>, start: nat, n: nat, from: nat, cur: nat)
    requires start <= from <= from + cur <= start + n <= |file|
    ensures Loaded(file[from..from + cur], file[start..start + n], from - start, cur)
  {
    SliceOfSlice(file, start, n, from - start, cur);
  }

  /** Where a superblock begins. */
  function Base(block: int, elements: int): int {
    block * elements
  }

  lemma BaseNext(block: int, elements: int)
    ensures Base(block + 1, elements) == Base(block, elements) + elements && Base(0, elements) == 0
  {
  }

  lemma BaseBelow(block: int, next: int, elements: nat)
    requires block < next
    ensures Base(block, elements) + elements <= Base(next, elements)
  {
    Times(block + 1, next, elements);
  }

  lemma BaseNotNegative(block: nat, elements: nat)
    ensures Base(block, elements) >= 0
  {
  }

  function Least(a: int, b: int): int {
    if a <= b then a else b
  }

  /** Reads the records of a stretch of a file in order. */
  class BuffReader {
    var superbuf: seq<Slot>
    var lastSuperBlock: int
    var relpos: int
    var curBlockElements: int
    var marked: bool
    var markBlock: int
    var markRelpos: int

    const file: seq<Slot>
    const start: nat
    const readlen: nat
    const elements: nat

    ghost function Region(): seq<Slot>
      requires start + readlen <= |file|
    {
      file[start..start + readlen]
    }

    /** The slot that is read next. */
    ghost function Position(): int
      reads this
    {
      if lastSuperBlock < 0 then 0 else Base(lastSuperBlock, elements) + relpos
    }

    ghost predicate Valid()
      reads this
    {
      && elements >= 1 && start + readlen <= |file|
      && (if lastSuperBlock < 0 then lastSuperBlock == -1 && relpos == 0
          else
            var lo := Base(lastSuperBlock, elements);
            if lo >= readlen then lo == readlen && relpos == 0
            else 0 <= relpos <= curBlockElements && curBlockElements == Least(elements, readlen - lo)
                 && Loaded(superbuf, Region(), lo, curBlockElements))
      && (marked ==>
        0 <= markBlock <= lastSuperBlock && 0 <= markRelpos < elements
        && Base(markBlock, elements) + markRelpos < readlen)
    }

    /** The records still to come. */
    ghost function Remaining(): seq<int>
      reads this
      requires Valid()
    {
      if Position() <= readlen then Compact(Region()[Position()..]) else []
    }

    constructor (f: seq<Slot>, from: nat, len: nat, size: nat)
      requires size >= 1 && from + len <= |f|
      ensures Valid() && file == f && start == from && readlen == len && !marked
      ensures Remaining() == Compact(f[from..from + len])
    {
      file, start, readlen, elements := f, from, len, size;
      superbuf, lastSuperBlock, relpos, curBlockElements := [], -1, 0, 0;
      marked, markBlock, markRelpos := false, -1, 0;
    }

    /** The superblock at hand has been read from the file. */
    ghost predicate InMemory()
      reads this
    {
      && elements >= 1 && start + readlen <= |file|
      && lastSuperBlock >= 0 && Base(lastSuperBlock, elements) < readlen
      && 0 <= relpos <= curBlockElements == Least(elements, readlen - Base(lastSuperBlock, elements))
      && Loaded(superbuf, Region(), Base(lastSuperBlock, elements), curBlockElements)
    }

    lemma Ahead()
      requires Valid() && InMemory()
      ensures Position() <= readlen && Remaining() == Compact(Region()[Position()..])
    {
    }

    lemma WholeFile()
      requires start == 0 && readlen == |file|
      ensures Region() == file
    {
    }

    /** Reads a superblock that the stretch has. */
    method Load(block: nat)
      requires elements >= 1 && start + readlen <= |file| && Base(block, elements) < readlen
      modifies this`superbuf, this`curBlockElements, this`lastSuperBlock, this`relpos
      ensures lastSuperBlock == block && relpos == 0 && InMemory()
    {
      hide Loaded, Base;
      BaseNotNegative(block, elements);
      var rc := readlen - Base(block, elements);
      curBlockElements := if rc < elements then rc else elements;
      var from := start + Base(block, elements);
      LoadedFrom(file, start, readlen, from, curBlockElements);
      superbuf := file[from..from + curBlockElements];
      lastSuperBlock, relpos := block, 0;
    }

    ghost function ToScan(): nat
      reads this
      requires InMemory()
    {
      2 * (curBlockElements - relpos + readlen - (Base(lastSuperBlock, elements) + curBlockElements)) +
        if relpos == curBlockElements then 1 else 0
    }

    lemma NothingAhead()
      requires Valid() && Position() == readlen
      ensures Remaining() == []
    {
      assert Region()[readlen..] == [];
    }

    /** Brings in the next superblock, if there is one. */
    method NextBlock() returns (more: bool)
      requires Valid() && InMemory() && relpos == curBlockElements == elements
      modifies this`superbuf, this`curBlockElements, this`lastSuperBlock, this`relpos
      ensures Valid() && Position() == old(Position())
      ensures !more ==> old(Remaining()) == Remaining() == []
      ensures more ==> InMemory() && ToScan() < old(ToScan()) && old(Remaining()) == Remaining()
    {
      hide Compact, Loaded, Base;
      BaseNext(lastSuperBlock, elements);
      lastSuperBlock, relpos := lastSuperBlock + 1, 0;
      if readlen - Base(lastSuperBlock, elements) <= 0 {
        NothingAhead();
        return false;
      }
      Load(lastSuperBlock);
      more := true;
    }

    lemma SlotAhead()
      requires Valid() && InMemory() && relpos < curBlockElements
      ensures relpos < |superbuf| && 0 <= Position() < readlen && superbuf[relpos] == Region()[Position()]
      ensures Remaining() == (if superbuf[relpos] == Blank then [] else [superbuf[relpos].value])
              + Compact(Region()[Position() + 1..])
    {
      CompactStep(Region(), Position());
      assert superbuf[relpos] == Region()[Position()];
    }

    /** Takes the slot at hand, or brings in the next superblock, which counts as a blank. */
    method Advance() returns (more: bool, next: Slot, i: int)
      requires Valid() && InMemory()
      modifies this`superbuf, this`curBlockElements, this`lastSuperBlock, this`relpos
      ensures Valid() && Position() >= old(Position())
      ensures !more ==> old(Remaining()) == Remaining() == []
      ensures more ==> InMemory() && ToScan() < old(ToScan())
      ensures more ==> old(Remaining()) == (if next == Blank then [] else [next.value]) + Remaining()
      ensures more && next != Blank ==>
                relpos >= 1 && i == Position() - 1 >= old(Position()) && 0 <= i < readlen && Region()[i] == next
    {
      hide Compact, Loaded, Base;
      if relpos < curBlockElements {
        SlotAhead();
        relpos := relpos + 1;
        return true, superbuf[relpos - 1], Base(lastSuperBlock, elements) + relpos - 1;
      }
      if curBlockElements < elements {
        NothingAhead();
        return false, Blank, 0;
      }
      more := NextBlock();
      return more, Blank, 0;
    }

    /** Looks for the next slot that is not blank, through as many superblocks as it takes. */
    method FindNonblankElement() returns (found: bool, value: int, i: int)
      requires Valid() && InMemory()
      modifies this`superbuf, this`curBlockElements, this`lastSuperBlock, this`relpos
      ensures Valid()
      ensures found ==>
                old(Remaining()) == [value] + Remaining() && InMemory() && relpos >= 1
                && i == Position() - 1 >= old(Position())
      ensures found ==> 0 <= i < readlen && Region()[i] == Record(value)
      ensures !found ==> old(Remaining()) == Remaining() == []
    {
      hide *;
      value, i := 0, 0;
      var next: Slot;
      while true
        invariant Valid() && InMemory() && Remaining() == old(Remaining()) && Position() >= old(Position())
        decreases ToScan()
      {
        var more;
        more, next, i := Advance();
        if !more {
          return false, 0, 0;
        }
        if next != Blank {
          return true, next.value, i;
        }
      }
    }

    /** Hands out the next record. */
    method GetNext() returns (found: bool, value: int, i: int)
      requires Valid()
      modifies this`superbuf, this`curBlockElements, this`lastSuperBlock, this`relpos
      ensures Valid()
      ensures found ==>
                old(Remaining()) == [value] + Remaining() && InMemory() && relpos >= 1
                && i == Position() - 1 >= old(Position())
      ensures found ==> 0 <= i < readlen && Region()[i] == Record(value)
      ensures !found ==> old(Remaining()) == Remaining() == []
    {
      value, i := 0, 0;
      if Base(lastSuperBlock, elements) + relpos >= readlen {
        found := false;
        return;
      }
      if lastSuperBlock == -1 {
        if readlen == 0 {
          NothingAhead();
          found := false;
          return;
        }
        Load(0);
      }
      found, value, i := FindNonblankElement();
    }

    ghost function Mark(): int
      reads `markBlock, `markRelpos
    {
      Base(markBlock, elements) + markRelpos
    }

    /** Marks the record handed out last. A mark that stands is not moved. */
    method SetRestartPos() returns (placed: bool)
      requires Valid() && InMemory() && relpos >= 1
      modifies this`marked, this`markBlock, this`markRelpos
      ensures Valid() && marked && placed == !old(marked)
      ensures if placed then Mark() == Position() - 1 else Mark() == old(Mark())
      ensures Remaining() == old(Remaining()) && Position() == old(Position())
    {
      if marked {
        return false;
      }
      markBlock, markRelpos, marked := lastSuperBlock, relpos - 1, true;
      return true;
    }

    /**
      Goes back to the mark, so that what comes next begins with the marked record. Within one superblock the mark
      stays set and the answer is no, though the move is made all the same.
     */
    method MoveToRestartPos() returns (moved: bool)
      requires Valid()
      modifies this
      ensures Valid()
      ensures old(marked) ==> Position() == old(Mark()) && Remaining() == Compact(Region()[old(Mark())..])
      ensures moved <==> old(marked) && old(markBlock) < old(lastSuperBlock)
      ensures marked <==> old(marked) && !moved
      ensures !old(marked) ==> Position() == old(Position())
    {
      if !marked {
        return false;
      }
      if markBlock >= lastSuperBlock {
        relpos := markRelpos;
        return false;
      }
      BaseBelow(markBlock, lastSuperBlock, elements);
      Load(markBlock);
      relpos := markRelpos;
      marked := false;
      return true;
    }
  }

  /** Reads the records of the stretch of a file that ends at end, from the last to the first. */
  class BuffBackReader {
    var superbuf: seq<Slot>
    var lastSuperBlock: int
    var relpos: int
    var curBlockElements: int
    var marked: bool
    var markBlock: int
    var markRelpos: int

    const file: seq<Slot>
    const end: nat
    const readlen: nat
    const elements: nat

    ghost function Region(): seq<Slot>
      requires readlen <= end <= |file|
    {
      file[end - readlen..end]
    }

    /** How many slots have been read, counted from the end. */
    ghost function Taken(): int
      reads this
    {
      if lastSuperBlock < 0 then 0
      else if Base(lastSuperBlock, elements) >= readlen then readlen
      else Base(lastSuperBlock, elements) + curBlockElements - 1 - relpos
    }

    ghost predicate InMemory()
      reads this
    {
      && elements >= 1 && readlen <= end <= |file|
      && lastSuperBlock >= 0 && Base(lastSuperBlock, elements) < readlen
      && -1 <= relpos < curBlockElements == Least(elements, readlen - Base(lastSuperBlock, elements))
      && Loaded(superbuf, Region(), readlen - Base(lastSuperBlock, elements) - curBlockElements, curBlockElements)
    }

    ghost predicate Valid()
      reads this
    {
      && elements >= 1 && readlen <= end <= |file|
      && (if lastSuperBlock < 0 then lastSuperBlock == -1 && relpos == 0 && curBlockElements == 0
          else if Base(lastSuperBlock, elements) >= readlen then
            Base(lastSuperBlock, elements) == readlen && relpos == 0 && curBlockElements == elements
          else InMemory())
      && (marked ==>
        0 <= markBlock <= lastSuperBlock && 0 <= markRelpos < Least(elements, readlen - Base(markBlock, elements)))
    }

    /** The records still to come. */
    ghost function Remaining(): seq<int>
      reads this
      requires Valid()
    {
      if 0 <= Taken() <= readlen then Reverse(Compact(Region()[..readlen - Taken()])) else []
    }

    constructor (f: seq<Slot>, to: nat, len: nat, size: nat)
      requires size >= 1 && len <= to <= |f|
      ensures Valid() && file == f && end == to && readlen == len && !marked
      ensures Remaining() == Reverse(Compact(f[to - len..to]))
    {
      file, end, readlen, elements := f, to, len, size;
      superbuf, lastSuperBlock, relpos, curBlockElements := [], -1, 0, 0;
      marked, markBlock, markRelpos := false, -1, 0;
      new;
      assert Region()[..readlen] == Region();
    }

    lemma Behind()
      requires Valid() && InMemory()
      ensures 0 <= Taken() <= readlen && Remaining() == Reverse(Compact(Region()[..readlen - Taken()]))
    {
    }

    lemma WholeFile()
      requires end == readlen == |file|
      ensures Region() == file
    {
    }

    /** Reads a superblock that the stretch has, counted from its end. */
    method Load(block: nat)
      requires elements >= 1 && readlen <= end <= |file| && Base(block, elements) < readlen
      modifies this`superbuf, this`curBlockElements, this`lastSuperBlock, this`relpos
      ensures lastSuperBlock == block && relpos == curBlockElements - 1 && InMemory()
    {
      hide Loaded, Base;
      BaseNotNegative(block, elements);
      var rc := readlen - Base(block, elements);
      curBlockElements := if rc < elements then rc else elements;
      var from := end - Base(block, elements) - curBlockElements;
      LoadedFrom(file, end - readlen, readlen, from, curBlockElements);
      superbuf := file[from..from + curBlockElements];
      lastSuperBlock, relpos := block, curBlockElements - 1;
    }

    /** A record of the superblock in memory has been handed out. */
    ghost predicate Handed()
      reads this
    {
      InMemory() && relpos + 1 < curBlockElements
    }

    ghost function ToScan(): nat
      reads this
      requires InMemory()
    {
      2 * (relpos + 1 + readlen - (Base(lastSuperBlock, elements) + curBlockElements)) + if relpos < 0 then 1 else 0
    }

    lemma NothingLeft()
      requires Valid() && Taken() == readlen
      ensures Remaining() == []
    {
      assert Region()[..0] == [];
    }

    /** Brings in the superblock before, if there is one. */
    method NextBlock() returns (more: bool)
      requires Valid() && InMemory() && relpos < 0 && curBlockElements == elements
      modifies this`superbuf, this`curBlockElements, this`lastSuperBlock, this`relpos
      ensures Valid()
      ensures !more ==> old(Remaining()) == Remaining() == []
      ensures more ==> InMemory() && ToScan() < old(ToScan()) && old(Remaining()) == Remaining()
    {
      hide Compact, Reverse, Loaded, Base;
      BaseNext(lastSuperBlock, elements);
      relpos, lastSuperBlock := 0, lastSuperBlock + 1;
      if readlen - Base(lastSuperBlock, elements) <= 0 {
        NothingLeft();
        return false;
      }
      Load(lastSuperBlock);
      more := true;
    }

    lemma SlotAhead()
      requires Valid() && InMemory() && relpos >= 0
      ensures relpos < |superbuf| && 0 <= Taken() < readlen && superbuf[relpos] == Region()[readlen - 1 - Taken()]
      ensures Remaining() == (if superbuf[relpos] == Blank then [] else [superbuf[relpos].value])
                             + Reverse(Compact(Region()[..readlen - Taken() - 1]))
    {
      ReverseStep(Region(), readlen - Taken());
      assert superbuf[relpos] == Region()[readlen - Taken() - 1];
    }

    /** Takes the slot at hand, or brings in the superblock before, which counts as a blank. */
    method Advance() returns (more: bool, next: Slot, i: int)
      requires Valid() && InMemory()
      modifies this`superbuf, this`curBlockElements, this`lastSuperBlock, this`relpos
      ensures Valid()
      ensures !more ==> old(Remaining()) == Remaining() == []
      ensures more ==> InMemory() && ToScan() < old(ToScan())
      ensures more ==> old(Remaining()) == (if next == Blank then [] else [next.value]) + Remaining()
      ensures more && next != Blank ==>
                Handed() && i == Taken() - 1 && 0 <= i < readlen && Region()[readlen - 1 - i] == next
    {
      hide Compact, Reverse, Loaded, Base;
      if relpos >= 0 {
        SlotAhead();
        relpos := relpos - 1;
        return true, superbuf[relpos + 1], Base(lastSuperBlock, elements) + curBlockElements - 1 - (relpos + 1);
      }
      if curBlockElements < elements {
        NothingLeft();
        return false, Blank, 0;
      }
      more := NextBlock();
      return more, Blank, 0;
    }

    method FindNonblankElement() returns (found: bool, value: int, i: int)
      requires Valid() && InMemory()
      modifies this`superbuf, this`curBlockElements, this`lastSuperBlock, this`relpos
      ensures Valid()
      ensures found ==> old(Remaining()) == [value] + Remaining() && Handed() && i == Taken() - 1
      ensures found ==> 0 <= i < readlen && Region()[readlen - 1 - i] == Record(value)
      ensures !found ==> old(Remaining()) == Remaining() == []
    {
      hide *;
      value, i := 0, 0;
      var next: Slot;
      while true
        invariant Valid() && InMemory() && Remaining() == old(Remaining())
        decreases ToScan()
      {
        var more;
        more, next, i := Advance();
        if !more {
          return false, 0, 0;
        }
        if next != Blank {
          return true, next.value, i;
        }
      }
    }

    /** Hands out the next record, going back. */
    method GetNext() returns (found: bool, value: int, i: int)
      requires Valid()
      modifies this`superbuf, this`curBlockElements, this`lastSuperBlock, this`relpos
      ensures Valid()
      ensures found ==> old(Remaining()) == [value] + Remaining() && Handed() && i == Taken() - 1
      ensures found ==> 0 <= i < readlen && Region()[readlen - 1 - i] == Record(value)
      ensures !found ==> old(Remaining()) == Remaining() == []
    {
      hide Compact, Reverse, Loaded, Base;
      BaseNext(-1, elements);
      value, i := 0, 0;
      if Base(lastSuperBlock, elements) + curBlockElements - 1 - relpos >= readlen {
        NothingLeft();
        found := false;
        return;
      }
      if lastSuperBlock == -1 {
        if readlen == 0 {
          NothingLeft();
          found := false;
          return;
        }
        Load(0);
      }
      found, value, i := FindNonblankElement();
    }

    lemma HandedIs()
      requires Handed()
      ensures InMemory()
    {
    }

    /** How many slots had been read before the marked record. */
    ghost function Mark(): int
      reads `markBlock, `markRelpos
    {
      Base(markBlock, elements) + Least(elements, readlen - Base(markBlock, elements)) - 1 - markRelpos
    }

    /** Marks the record handed out last. A mark that stands is not moved. */
    method SetRestartPos() returns (placed: bool)
      requires Valid() && Handed()
      modifies this`marked, this`markBlock, this`markRelpos
      ensures Valid() && marked && placed == !old(marked)
      ensures if placed then Mark() == Taken() - 1 else Mark() == old(Mark())
      ensures Remaining() == old(Remaining()) && Taken() == old(Taken())
    {
      if marked {
        return false;
      }
      markBlock, markRelpos, marked := lastSuperBlock, relpos + 1, true;
      return true;
    }

    /**
      Goes back to the mark. Within one superblock the mark stays set and the answer is no, though the move is made.
     */
    method MoveToRestartPos() returns (moved: bool)
      requires Valid()
      modifies this
      ensures Valid()
      ensures old(marked) ==> Taken() == old(Mark()) && 0 <= old(Mark()) < readlen
                              && Remaining() == Reverse(Compact(Region()[..readlen - old(Mark())]))
      ensures moved <==> old(marked) && old(markBlock) < old(lastSuperBlock)
      ensures marked <==> old(marked) && !moved
      ensures !old(marked) ==> Taken() == old(Taken())
    {
      hide Compact, Reverse, Base;
      if !marked {
        return false;
      }
      if markBlock >= lastSuperBlock {
        relpos := markRelpos;
        return false;
      }
      BaseBelow(markBlock, lastSuperBlock, elements);
      Load(markBlock);
      relpos := markRelpos;
      marked := false;
      return true;
    }
  }

  /** Reads a file to its end. */
  method ReadAll(file: seq<Slot>, size: nat) returns (out: seq<int>)
    requires size >= 1
    ensures out == Compact(file)
  {
    hide *;
    var reader := new BuffReader(file, 0, |file|, size);
    assert file[0..|file|] == file;
    out := [];
    while true
      invariant fresh(reader) && reader.Valid() && out + reader.Remaining() == Compact(file)
      decreases |reader.Remaining()|
    {
      var found, value, _ := reader.GetNext();
      if !found {
        break;
      }
      out := out + [value];
    }
  }

  /** Reads what a reader still has. */
  method Drain(reader: BuffReader) returns (out: seq<int>)
    requires reader.Valid()
    modifies reader`superbuf, reader`curBlockElements, reader`lastSuperBlock, reader`relpos
    ensures reader.Valid() && out == old(reader.Remaining())
  {
    hide *;
    out := [];
    while true
      invariant reader.Valid() && out + reader.Remaining() == old(reader.Remaining())
      decreases |reader.Remaining()|
    {
      var found, value, _ := reader.GetNext();
      if !found {
        break;
      }
      out := out + [value];
    }
  }

  lemma MarkedSuffix(file: seq<Slot>, i: nat, value: int, head: seq<int>, ahead: seq<int>)
    requires head + ahead == Compact(file) && head != [] && head[|head| - 1] == value
    requires i < |file| && file[i] == Record(value) && ahead == Compact(file[i + 1..])
    ensures Compact(file[i..]) == Compact(file)[|head| - 1..]
  {
    CompactStep(file, i);
  }

  /** Reads k records, marks, reads to the end and restarts: what comes then begins with the k-th record. */
  method ReadAndRestart(file: seq<Slot>, size: nat, k: nat) returns (out: seq<int>, again: seq<int>)
    requires size >= 1 && 1 <= k <= |Compact(file)|
    ensures out == Compact(file) && again == Compact(file)[k - 1..]
  {
    hide *;
    var reader := new BuffReader(file, 0, |file|, size);
    assert file[0..|file|] == file;
    reader.WholeFile();
    out := [];
    var i, value, found := 0, 0, false;
    while |out| < k
      invariant fresh(reader) && reader.Valid() && !reader.marked && reader.file == file && reader.start == 0
                && reader.readlen == |file|
      invariant |out| <= k && out + reader.Remaining() == Compact(file)
      invariant out != [] ==> out[|out| - 1] == value && reader.InMemory() && reader.relpos >= 1
                              && 0 <= i < |file| && i == reader.Position() - 1 && file[i] == Record(value)
    {
      found, value, i := reader.GetNext();
      out := out + [value];
    }
    reader.Ahead();
    MarkedSuffix(file, i, value, out, reader.Remaining());
    var placed := reader.SetRestartPos();
    var rest := Drain(reader);
    out := out + rest;
    var moved := reader.MoveToRestartPos();
    again := Drain(reader);
  }

  /** Reads a file back to its beginning. */
  method ReadAllBack(file: seq<Slot>, size: nat) returns (out: seq<int>)
    requires size >= 1
    ensures out == Reverse(Compact(file))
  {
    hide *;
    var reader := new BuffBackReader(file, |file|, |file|, size);
    assert file[0..|file|] == file;
    out := [];
    while true
      invariant fresh(reader) && reader.Valid() && out + reader.Remaining() == Reverse(Compact(file))
      decreases |reader.Remaining()|
    {
      var found, value, _ := reader.GetNext();
      if !found {
        break;
      }
      out := out + [value];
    }
  }

  /** Reads what a reader going back still has. */
  method DrainBack(reader: BuffBackReader) returns (out: seq<int>)
    requires reader.Valid()
    modifies reader`superbuf, reader`curBlockElements, reader`lastSuperBlock, reader`relpos
    ensures reader.Valid() && out == old(reader.Remaining())
  {
    hide *;
    out := [];
    while true
      invariant reader.Valid() && out + reader.Remaining() == old(reader.Remaining())
      decreases |reader.Remaining()|
    {
      var found, value, _ := reader.GetNext();
      if !found {
        break;
      }
      out := out + [value];
    }
  }

  lemma TailOfJoin(head: seq<int>, behind: seq<int>)
    requires head != []
    ensures (head + behind)[|head| - 1..] == [head[|head| - 1]] + behind
  {
  }

  lemma MarkedPrefix(file: seq<Slot>, p: nat, value: int, head: seq<int>, behind: seq<int>)
    requires head + behind == Reverse(Compact(file)) && head != [] && head[|head| - 1] == value
    requires p < |file| && file[p] == Record(value) && behind == Reverse(Compact(file[..p]))
    ensures Reverse(Compact(file[..p + 1])) == Reverse(Compact(file))[|head| - 1..]
  {
    hide *;
    TailOfJoin(head, behind);
    ReverseStep(file, p + 1);
  }

  /**
    Reads k records going back, marks, reads to the beginning and restarts: what comes then begins with the k-th one.
   */
  method ReadBackAndRestart(file: seq<Slot>, size: nat, k: nat) returns (out: seq<int>, again: seq<int>)
    requires size >= 1 && 1 <= k <= |Reverse(Compact(file))|
    ensures out == Reverse(Compact(file)) && again == Reverse(Compact(file))[k - 1..]
  {
    hide *;
    var reader := new BuffBackReader(file, |file|, |file|, size);
    assert file[0..|file|] == file;
    reader.WholeFile();
    out := [];
    var i, value, found := 0, 0, false;
    while |out| < k
      invariant fresh(reader) && reader.Valid() && !reader.marked
      invariant reader.file == file && reader.end == reader.readlen == |file|
      invariant |out| <= k && out + reader.Remaining() == Reverse(Compact(file))
      invariant out != [] ==> out[|out| - 1] == value && reader.Handed() && 0 <= i < |file|
      invariant out != [] ==> i == reader.Taken() - 1 && file[|file| - 1 - i] == Record(value)
    {
      found, value, i := reader.GetNext();
      out := out + [value];
    }
    reader.HandedIs();
    reader.Behind();
    MarkedPrefix(file, |file| - 1 - i, value, out, reader.Remaining());
    var placed := reader.SetRestartPos();
    var rest := DrainBack(reader);
    out := out + rest;
    var moved := reader.MoveToRestartPos();
    again := DrainBack(reader);
  }

  /** Writes records at increasing positions, with one flush at the end. */
  method WriteAll(positions: seq<nat>, values: seq<int>, size: nat) returns (file: seq<Slot>)
    requires size >= 1 && |positions| == |values|
    requires forall i, j :: 0 <= i < j < |positions| ==> positions[i] < positions[j]
    ensures Compact(file) == values
    ensures forall i :: 0 <= i < |values| ==> positions[i] < |file| && file[positions[i]] == Record(values[i])
  {
    var writer := new BuffWriter(size);
    var i := 0;
    while i < |values|
      invariant 0 <= i <= |values| && fresh(writer) && writer.Valid() && !writer.flushed
      invariant writer.records == values[..i]
      invariant |writer.content| == if i == 0 then 0 else positions[i - 1] + 1
      invariant forall j :: 0 <= j < i ==>
                  positions[j] < |writer.content| && writer.content[positions[j]] == Record(values[j])
    {
      writer.Write(positions[i], values[i]);
      i := i + 1;
    }
    assert values[..i] == values;
    ghost var content := writer.content;
    writer.Flush();
    file := writer.file;
  }

  /** What was written comes back, forward and, reversed, backward, whatever the sizes of the buffers. */
  method WriteAndRead(positions: seq<nat>, values: seq<int>, writeSize: nat, readSize: nat)
    returns (forth: seq<int>, back: seq<int>)
    requires writeSize >= 1 && readSize >= 1 && |positions| == |values|
    requires forall i, j :: 0 <= i < j < |positions| ==> positions[i] < positions[j]
    ensures forth == values && back == Reverse(values)
  {
    var file := WriteAll(positions, values, writeSize);
    forth := ReadAll(file, readSize);
    back := ReadAllBack(file, readSize);
  }
}
