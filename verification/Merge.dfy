/** Merging a sorted buffer of records into the files of a composite file. */
module Merge {
  datatype Rec = Rec(key: int, value: int)

  /** The keys strictly increase. */
  ghost predicate Increasing(rs: seq<Rec>) {
    forall i, j :: 0 <= i < j < |rs| ==> rs[i].key < rs[j].key
  }

  ghost predicate HasKey(rs: seq<Rec>, k: int) {
    exists i :: 0 <= i < |rs| && rs[i].key == k
  }

  /** The first position whose key is not below k. */
  method LowerBound(m: seq<Rec>, k: int) returns (i: nat)
    requires Increasing(m)
    ensures i <= |m|
    ensures forall j :: 0 <= j < i ==> m[j].key < k
    ensures forall j :: i <= j < |m| ==> m[j].key >= k
  {
    i := 0;
    while i < |m| && m[i].key < k
      invariant i <= |m|
      invariant forall j :: 0 <= j < i ==> m[j].key < k
    {
      i := i + 1;
    }
  }

  /** The last position whose key is not above k, or the end of the buffer. */
  method PredOrEqual(m: seq<Rec>, k: int) returns (i: nat)
    requires Increasing(m)
    ensures i < |m| ==> m[i].key <= k && forall j :: i < j < |m| ==> m[j].key > k
    ensures i >= |m| ==> i == |m| && forall j :: 0 <= j < |m| ==> m[j].key > k
  {
    if |m| < 1 {
      return |m|;
    }
    var low := LowerBound(m, k);
    if low == |m| {
      return low - 1;
    }
    if m[low].key == k {
      return low;
    }
    if low == 0 {
      return |m|;
    }
    return low - 1;
  }

  /** The records from left to right of the buffer are to go to the given file. */
  datatype Segment = Segment(left: nat, right: nat, file: nat)

  /** The file has a key at or above k. */
  ghost predicate Takes(f: seq<Rec>, k: int) {
    f != [] && k <= f[|f| - 1].key
  }

  ghost predicate NoneTakes(files: seq<seq<Rec>>, n: nat, k: int)
    requires n <= |files|
  {
    forall f :: 0 <= f < n ==> !Takes(files[f], k)
  }

  /** The file a key belongs to: the first one that takes it, or the last file of all. */
  ghost predicate Routed(files: seq<seq<Rec>>, k: int, f: nat) {
    f < |files| && NoneTakes(files, f, k) && (Takes(files[f], k) || f == |files| - 1)
  }

  ghost predicate Inside(m: seq<Rec>, s: Segment) {
    s.left <= s.right < |m|
  }

  /** The records of the segment. */
  function Slice(m: seq<Rec>, s: Segment): seq<Rec>
    requires Inside(m, s)
  {
    m[s.left..s.right + 1]
  }

  ghost predicate InSegment(s: Segment, i: int) {
    s.left <= i <= s.right
  }

  ghost predicate SegmentOk(files: seq<seq<Rec>>, m: seq<Rec>, s: Segment) {
    Inside(m, s) && forall i: nat :: InSegment(s, i) ==> Routed(files, m[i].key, s.file)
  }

  /** The segment's keys are all at or below the greatest key of its file. */
  ghost predicate Within(files: seq<seq<Rec>>, m: seq<Rec>, s: Segment) {
    s.right < |m| && s.file < |files| && Takes(files[s.file], m[s.right].key)
  }

  ghost predicate Covered(vec: seq<Segment>, i: int) {
    exists v :: 0 <= v < |vec| && InSegment(vec[v], i)
  }

  /** How much of the buffer the first v segments have. */
  function Done(vec: seq<Segment>, v: nat): nat
    requires v <= |vec|
  {
    if v == 0 then 0 else vec[v - 1].right + 1
  }

  /** Segment v follows the one before it, has keys of one file that takes them all, and that file follows too. */
  ghost predicate Cut(files: seq<seq<Rec>>, m: seq<Rec>, vec: seq<Segment>, v: nat)
    requires v < |vec|
  {
    && SegmentOk(files, m, vec[v]) && Within(files, m, vec[v]) && vec[v].left == Done(vec, v)
    && (v > 0 ==> vec[v - 1].file < vec[v].file)
  }

  /** The last segment: once more the one before it, or all keys that no file takes, for the last file. */
  ghost predicate Closing(files: seq<seq<Rec>>, m: seq<Rec>, before: Segment, s: Segment) {
    && SegmentOk(files, m, s) && s.right == |m| - 1
    && (s == before
        || (s.left == before.right + 1 && s.file == |files| - 1
            && forall i :: s.left <= i < |m| ==> NoneTakes(files, |files|, m[i].key)))
  }

  /** Segments as they are computed for a buffer. */
  ghost predicate Segments(files: seq<seq<Rec>>, m: seq<Rec>, vec: seq<Segment>) {
    && (vec == [] <==> forall i :: 0 <= i < |m| ==> NoneTakes(files, |files|, m[i].key))
    && (vec != [] ==>
          && |vec| >= 2 && Closing(files, m, vec[|vec| - 2], vec[|vec| - 1])
          && forall v :: 0 <= v < |vec| - 1 ==> Cut(files, m, vec, v))
  }

  lemma Leftover(files: seq<seq<Rec>>, m: seq<Rec>, left: nat)
    requires left < |m| && |files| > 0
    requires forall j :: left <= j < |m| ==> NoneTakes(files, |files|, m[j].key)
    ensures SegmentOk(files, m, Segment(left, |m| - 1, |files| - 1))
  {
  }

  /** One more segment. */
  lemma CutMore(files: seq<seq<Rec>>, m: seq<Rec>, vec: seq<Segment>, s: Segment)
    requires forall v :: 0 <= v < |vec| ==> Cut(files, m, vec, v)
    requires SegmentOk(files, m, s) && Within(files, m, s) && s.left == Done(vec, |vec|)
    requires vec != [] ==> vec[|vec| - 1].file < s.file
    ensures forall v :: 0 <= v <= |vec| ==> Cut(files, m, vec + [s], v)
    ensures Done(vec + [s], |vec| + 1) == s.right + 1
  {
    forall v | 0 <= v <= |vec|
      ensures Cut(files, m, vec + [s], v)
    {
      if v < |vec| {
        assert Cut(files, m, vec, v);
      }
    }
  }

  lemma CutsStay(files: seq<seq<Rec>>, m: seq<Rec>, vec: seq<Segment>, s: Segment)
    requires forall v :: 0 <= v < |vec| ==> Cut(files, m, vec, v)
    ensures forall v :: 0 <= v < |vec| ==> Cut(files, m, vec + [s], v)
  {
    forall v | 0 <= v < |vec|
      ensures Cut(files, m, vec + [s], v)
    {
      assert Cut(files, m, vec, v);
    }
  }

  lemma Extend(vec: seq<Segment>, s: Segment, left: nat)
    requires s.left == left && forall j :: 0 <= j < left ==> Covered(vec, j)
    ensures forall j :: 0 <= j <= s.right ==> Covered(vec + [s], j)
  {
    var all := vec + [s];
    forall j | 0 <= j <= s.right
      ensures Covered(all, j)
    {
      if j < left {
        assert Covered(vec, j);
        var v :| 0 <= v < |vec| && InSegment(vec[v], j);
        assert InSegment(all[v], j);
      } else {
        assert InSegment(all[|vec|], j);
      }
    }
  }

  lemma Closes(files: seq<seq<Rec>>, m: seq<Rec>, vec: seq<Segment>, s: Segment)
    requires vec != [] && forall v :: 0 <= v < |vec| ==> Cut(files, m, vec, v)
    requires SegmentOk(files, m, s) && s.right == |m| - 1
    requires if s.left == Done(vec, |vec|)
             then s.file == |files| - 1 && forall i :: s.left <= i < |m| ==> NoneTakes(files, |files|, m[i].key)
             else s == vec[|vec| - 1]
    ensures Closing(files, m, vec[|vec| - 1], s)
    ensures !forall i :: 0 <= i < |m| ==> NoneTakes(files, |files|, m[i].key)
  {
    assert Cut(files, m, vec, 0);
    assert !NoneTakes(files, |files|, m[vec[0].right].key);
  }

  /**
    Cuts the buffer into segments, one for each file with keys to take; what lies beyond every file goes to the last
    one. A segment that reaches the end of the buffer is entered twice.
   */
  method ComputeMergeCost(files: seq<seq<Rec>>, m: seq<Rec>) returns (vec: seq<Segment>)
    requires Increasing(m)
    ensures Segments(files, m, vec)
    ensures vec != [] ==> forall i :: 0 <= i < |m| ==> Covered(vec, i)
  {
    hide Cut, Closing;
    vec := [];
    if |m| < 1 {
      return;
    }
    var left: nat, i: nat, lastPos: nat := 0, 0, 0;
    while i < |files|
      invariant 0 <= i <= |files| && left < |m| && lastPos == if i == 0 then 0 else i - 1
      invariant forall v :: 0 <= v < |vec| ==> Cut(files, m, vec, v)
      invariant left == Done(vec, |vec|) && (vec != [] ==> vec[|vec| - 1].file < i)
      invariant forall j :: 0 <= j < left ==> Covered(vec, j)
      invariant forall j :: left <= j < |m| ==> NoneTakes(files, i, m[j].key)
      invariant vec == [] <==> left == 0
    {
      lastPos := i;
      if files[i] != [] {
        var right := PredOrEqual(m, files[i][|files[i]| - 1].key);
        if right != |m| && !(m[right].key < m[left].key) {
          var s := Segment(left, right, i);
          Extend(vec, s, left);
          CutMore(files, m, vec, s);
          vec := vec + [s];
          if right + 1 == |m| {
            break;
          }
          left := right + 1;
        }
      }
      i := i + 1;
    }
    if |vec| > 0 {
      var s := Segment(left, |m| - 1, lastPos);
      if i == |files| {
        Leftover(files, m, left);
      }
      Extend(vec, s, left);
      CutsStay(files, m, vec, s);
      Closes(files, m, vec, s);
      vec := vec + [s];
    }
  }

  /** Two sorted runs of records as one; where both have a key, the record of mem stays. */
  ghost function Union(disk: seq<Rec>, mem: seq<Rec>): seq<Rec>
    decreases |disk| + |mem|
  {
    if disk == [] then mem
    else if mem == [] then disk
    else if disk[0].key > mem[0].key then [mem[0]] + Union(disk, mem[1..])
    else if disk[0].key == mem[0].key then [mem[0]] + Union(disk[1..], mem[1..])
    else [disk[0]] + Union(disk[1..], mem)
  }

  lemma Split(rs: seq<Rec>)
    requires rs != []
    ensures rs == [rs[0]] + rs[1..]
    ensures forall k :: HasKey(rs, k) <==> rs[0].key == k || HasKey(rs[1..], k)
  {
    forall k
      ensures HasKey(rs, k) <==> rs[0].key == k || HasKey(rs[1..], k)
    {
      if HasKey(rs[1..], k) {
        var i :| 0 <= i < |rs[1..]| && rs[1..][i].key == k;
        assert rs[i + 1].key == k;
      }
      if HasKey(rs, k) && rs[0].key != k {
        var i :| 0 <= i < |rs| && rs[i].key == k;
        assert rs[1..][i - 1].key == k;
      }
    }
  }

  /** The union has exactly the records of mem, and those of disk whose keys are not in mem. */
  lemma {:induction false} UnionIs(disk: seq<Rec>, mem: seq<Rec>, r: Rec)
    requires Increasing(disk) && Increasing(mem)
    ensures r in Union(disk, mem) <==> r in mem || (r in disk && !HasKey(mem, r.key))
    decreases |disk| + |mem|
  {
    if disk != [] && mem != [] {
      if disk[0].key > mem[0].key {
        UnionIs(disk, mem[1..], r);
        Split(mem);
      } else if disk[0].key == mem[0].key {
        UnionIs(disk[1..], mem[1..], r);
        Split(mem);
        Split(disk);
      } else {
        UnionIs(disk[1..], mem, r);
        Split(disk);
      }
    }
  }

  lemma UnionAbove(d: seq<Rec>, m: seq<Rec>, k: int)
    requires Increasing(d) && Increasing(m)
    requires (d != [] ==> d[0].key > k) && (m != [] ==> m[0].key > k)
    ensures forall j :: 0 <= j < |Union(d, m)| ==> Union(d, m)[j].key > k
  {
    forall r | r in Union(d, m)
      ensures r.key > k
    {
      UnionIs(d, m, r);
    }
  }

  lemma {:induction false} UnionIncreasing(disk: seq<Rec>, mem: seq<Rec>)
    requires Increasing(disk) && Increasing(mem)
    ensures Increasing(Union(disk, mem))
    decreases |disk| + |mem|
  {
    if disk != [] && mem != [] {
      var (d, m) := if disk[0].key > mem[0].key then (disk, mem[1..])
                    else if disk[0].key == mem[0].key then (disk[1..], mem[1..]) else (disk[1..], mem);
      UnionIncreasing(d, m);
      UnionAbove(d, m, Union(disk, mem)[0].key);
      assert Union(disk, mem)[1..] == Union(d, m);
    }
  }

  /**
    How a merge stands: dbuf is the record of the file that was read last, and more says that it is still to be
    written; the buffer is read up to iter, and mpair is its record that was compared last.
   */
  datatype Cursor = Cursor(pos: nat, more: bool, dbuf: Rec, iter: nat, mpair: Rec, out: seq<Rec>)

  /** Reads the next record of the file; at its end dbuf stays as it is. */
  function GetNext(disk: seq<Rec>, c: Cursor): Cursor
    requires c.pos <= |disk|
  {
    if c.pos < |disk| then c.(pos := c.pos + 1, more := true, dbuf := disk[c.pos]) else c.(more := false)
  }

  /** The records of the file that have not been written. */
  ghost function Rest(disk: seq<Rec>, c: Cursor): seq<Rec>
    requires c.pos <= |disk| && (c.more ==> c.pos >= 1)
  {
    disk[if c.more then c.pos - 1 else c.pos..]
  }

  ghost predicate Bounds(disk: seq<Rec>, m: seq<Rec>, s: Segment, c: Cursor) {
    && c.pos <= |disk| && s.left <= c.iter <= s.right + 1 <= |m|
    && (c.more ==> c.pos >= 1 && c.dbuf == disk[c.pos - 1])
    && (!c.more ==> c.pos == |disk|)
  }

  /** What the read buffer holds in front of what is left of a file: its first record, or the one read before. */
  ghost function Ahead(d: seq<Rec>, dbuf: Rec): Rec {
    if d == [] then dbuf else d[0]
  }

  /**
    What a merge writes when d is left of the file and s of the segment. When one of them ends, the record last read
    from the other's buffer is written unseen: after the segment's end one of the file, after the file's one of the
    segment.
   */
  ghost function Weave(d: seq<Rec>, s: seq<Rec>, dbuf: Rec, mpair: Rec): seq<Rec>
    decreases |d| + |s|
  {
    if s == [] then (if d == [] then [dbuf] else d)
    else if d == [] then [mpair] + s[1..]
    else if d[0].key > s[0].key then [s[0]] + Weave(d, s[1..], dbuf, s[0])
    else if d[0].key == s[0].key then [s[0]] + Weave(d[1..], s[1..], Ahead(d[1..], d[0]), s[0])
    else [d[0]] + Weave(d[1..], s, Ahead(d[1..], d[0]), s[0])
  }

  /** What is written, and what will be, is the whole merge. */
  ghost predicate Merging(disk: seq<Rec>, m: seq<Rec>, s: Segment, unset: Rec, c: Cursor) {
    && Bounds(disk, m, s, c)
    && c.out + Weave(Rest(disk, c), m[c.iter..s.right + 1], c.dbuf, c.mpair)
       == Weave(disk, m[s.left..s.right + 1], Ahead(disk, unset), unset)
  }

  lemma WeaveStep(d: seq<Rec>, s: seq<Rec>, dbuf: Rec, mpair: Rec, out: seq<Rec>)
    requires d != [] && s != []
    ensures out + Weave(d, s, dbuf, mpair) ==
              if d[0].key > s[0].key then out + [s[0]] + Weave(d, s[1..], dbuf, s[0])
              else if d[0].key == s[0].key then out + [s[0]] + Weave(d[1..], s[1..], Ahead(d[1..], d[0]), s[0])
              else out + [d[0]] + Weave(d[1..], s, Ahead(d[1..], d[0]), s[0])
  {
  }

  /** One record is written. */
  method MergeOne(disk: seq<Rec>, m: seq<Rec>, s: Segment, unset: Rec, c: Cursor) returns (c': Cursor)
    requires Merging(disk, m, s, unset, c) && c.more && c.iter <= s.right
    ensures Merging(disk, m, s, unset, c')
    ensures |disk| - c'.pos + s.right + 1 - c'.iter + (if c'.more then 1 else 0)
            < |disk| - c.pos + s.right + 1 - c.iter + 1
  {
    hide Weave;
    ghost var d, r := Rest(disk, c), m[c.iter..s.right + 1];
    WeaveStep(d, r, c.dbuf, c.mpair, c.out);
    assert d[0] == c.dbuf && r[0] == m[c.iter] && r[1..] == m[c.iter + 1..s.right + 1] && d[1..] == disk[c.pos..];
    var mpair := m[c.iter];
    c' := c.(mpair := mpair);
    if c.dbuf.key > mpair.key {
      c' := c'.(out := c.out + [mpair], iter := c.iter + 1);
    } else if c.dbuf.key == mpair.key {
      c' := GetNext(disk, c'.(out := c.out + [mpair], iter := c.iter + 1));
    } else {
      c' := GetNext(disk, c'.(out := c.out + [c.dbuf]));
    }
  }

  /** Writes what is in dbuf, and then what the file still has. */
  method DrainFile(disk: seq<Rec>, c0: Cursor) returns (out: seq<Rec>)
    requires c0.pos <= |disk|
    ensures out == c0.out + [c0.dbuf] + disk[c0.pos..]
  {
    var c := c0;
    out := c0.out + [c0.dbuf];
    c := GetNext(disk, c);
    while c.more
      invariant c.pos <= |disk| && c0.pos <= c.pos && (c.more ==> c.pos >= 1 && c.dbuf == disk[c.pos - 1])
      invariant out + Rest(disk, c) == c0.out + [c0.dbuf] + disk[c0.pos..]
      invariant !c.more ==> c.pos == |disk|
      decreases |disk| - c.pos, c.more
    {
      assert Rest(disk, c) == [c.dbuf] + disk[c.pos..];
      out := out + [c.dbuf];
      c := GetNext(disk, c);
    }
  }

  /** Writes what is in mpair, and then what the segment still has after the record at iter. */
  method DrainBuffer(m: seq<Rec>, s: Segment, c: Cursor) returns (out: seq<Rec>)
    requires c.iter <= s.right < |m|
    ensures out == c.out + [c.mpair] + m[c.iter + 1..s.right + 1]
  {
    out := c.out + [c.mpair];
    var iter := c.iter + 1;
    while iter != s.right + 1
      invariant c.iter + 1 <= iter <= s.right + 1
      invariant out + m[iter..s.right + 1] == c.out + [c.mpair] + m[c.iter + 1..s.right + 1]
    {
      assert m[iter..s.right + 1] == [m[iter]] + m[iter + 1..s.right + 1];
      out := out + [m[iter]];
      iter := iter + 1;
    }
  }

  lemma FileLast(disk: seq<Rec>, m: seq<Rec>, s: Segment, unset: Rec, c: Cursor)
    requires Merging(disk, m, s, unset, c) && c.iter == s.right + 1
    ensures c.out + [c.dbuf] + disk[c.pos..] == Weave(disk, m[s.left..s.right + 1], Ahead(disk, unset), unset)
  {
    assert m[c.iter..s.right + 1] == [];
    if c.more {
      assert Rest(disk, c) == [c.dbuf] + disk[c.pos..];
    } else {
      assert Rest(disk, c) == [] && disk[c.pos..] == [];
    }
  }

  lemma BufferLast(disk: seq<Rec>, m: seq<Rec>, s: Segment, unset: Rec, c: Cursor)
    requires Merging(disk, m, s, unset, c) && c.iter <= s.right && !c.more
    ensures c.out + [c.mpair] + m[c.iter + 1..s.right + 1]
            == Weave(disk, m[s.left..s.right + 1], Ahead(disk, unset), unset)
  {
    assert Rest(disk, c) == [] && m[c.iter..s.right + 1][1..] == m[c.iter + 1..s.right + 1];
  }

  /** The greatest key of a sorted file. */
  ghost function LastKey(disk: seq<Rec>): int
    requires disk != []
  {
    disk[|disk| - 1].key
  }

  /** The condition under which a merge is right: the file has a last key, and the segment does not have that key. */
  ghost predicate Mergeable(disk: seq<Rec>, seg: seq<Rec>) {
    disk != [] && !HasKey(seg, LastKey(disk))
  }

  /** Two sorted runs are woven into their union unless the second has the last key of the first. */
  lemma {:induction false} WeaveFits(d: seq<Rec>, s: seq<Rec>, dbuf: Rec, mpair: Rec)
    requires d != [] && !HasKey(s, LastKey(d))
    ensures Weave(d, s, dbuf, mpair) == Union(d, s)
    decreases |d| + |s|
  {
    if s != [] {
      Split(s);
      if d[0].key > s[0].key {
        WeaveFits(d, s[1..], dbuf, s[0]);
      } else if d[0].key == s[0].key {
        WeaveFits(d[1..], s[1..], Ahead(d[1..], d[0]), s[0]);
      } else if |d| == 1 {
        assert [s[0]] + s[1..] == s;
      } else {
        WeaveFits(d[1..], s, Ahead(d[1..], d[0]), s[0]);
      }
    }
  }

  /** What is written when the file's last key is at j in the segment, the union being u. */
  ghost predicate WovenAt(d: seq<Rec>, s: seq<Rec>, j: nat, u: seq<Rec>, out: seq<Rec>)
    requires d != [] && j < |s|
  {
    var n := |s| - 1 - j;
    && n < |u| && u[|u| - n - 1..] == s[j..]
    && out == if n == 0 then u + [d[|d| - 1]] else u[|u| - n := s[j]]
  }

  lemma WovenBehind(d: seq<Rec>, d': seq<Rec>, s: seq<Rec>, s': seq<Rec>, j: nat, j': nat, u: seq<Rec>, out: seq<Rec>,
                    x: Rec)
    requires d != [] && d' != [] && d[|d| - 1] == d'[|d'| - 1] && j < |s| && j' < |s'| && s[j..] == s'[j'..]
    requires WovenAt(d', s', j', u, out)
    ensures WovenAt(d, s, j, [x] + u, [x] + out)
  {
    var n := |s| - 1 - j;
    assert |s[j..]| == |s'[j'..]|;
    assert s[j] == s[j..][0] && s'[j'] == s'[j'..][0];
    assert ([x] + u)[|u| - n..] == u[|u| - n - 1..];
  }

  lemma UnionNone(d: seq<Rec>)
    ensures Union(d, []) == d && Union([], d) == d
  {
  }

  lemma WeaveLastOne(d: seq<Rec>, s: seq<Rec>, dbuf: Rec, mpair: Rec)
    requires |d| == 1 && s != [] && d[0].key == s[0].key
    ensures WovenAt(d, s, 0, Union(d, s), Weave(d, s, dbuf, mpair))
  {
    UnionNone(s[1..]);
    assert d[1..] == [] && [s[0]] + s[1..] == s;
    assert |s| > 1 ==> [s[0]] + ([s[0]] + s[1..][1..]) == s[1 := s[0]];
  }

  lemma {:induction false} WeaveAtLast(d: seq<Rec>, s: seq<Rec>, dbuf: Rec, mpair: Rec, j: nat)
    requires Increasing(d) && Increasing(s) && d != [] && j < |s| && s[j].key == LastKey(d)
    ensures WovenAt(d, s, j, Union(d, s), Weave(d, s, dbuf, mpair))
    decreases |d| + |s|
  {
    hide WovenAt;
    if d[0].key > s[0].key {
      WeaveAtLast(d, s[1..], dbuf, s[0], j - 1);
      WovenBehind(d, d, s, s[1..], j, j - 1, Union(d, s[1..]), Weave(d, s[1..], dbuf, s[0]), s[0]);
    } else if d[0].key == s[0].key {
      if |d| == 1 {
        assert j == 0;
        WeaveLastOne(d, s, dbuf, mpair);
      } else {
        var dbuf' := Ahead(d[1..], d[0]);
        WeaveAtLast(d[1..], s[1..], dbuf', s[0], j - 1);
        WovenBehind(d, d[1..], s, s[1..], j, j - 1, Union(d[1..], s[1..]), Weave(d[1..], s[1..], dbuf', s[0]), s[0]);
      }
    } else {
      assert j > 0 ==> s[j].key > s[0].key;
      var dbuf' := Ahead(d[1..], d[0]);
      WeaveAtLast(d[1..], s, dbuf', s[0], j);
      WovenBehind(d, d[1..], s, s, j, j, Union(d[1..], s), Weave(d[1..], s, dbuf', s[0]), d[0]);
    }
  }

  /**
    What a merge writes when it is not right. Into an empty file goes an unset record instead of the segment's first.
    If the segment has the file's last key, at j, then the file's last record comes once more behind the union when
    nothing of the segment follows j; otherwise the record at j comes once more, in place of the one after it.
   */
  ghost predicate Spoilt(disk: seq<Rec>, seg: seq<Rec>, unset: Rec, out: seq<Rec>) {
    if disk == [] || seg == [] then out == [unset] + (if seg == [] then [] else seg[1..])
    else exists j: nat :: j < |seg| && seg[j].key == LastKey(disk) && WovenAt(disk, seg, j, Union(disk, seg), out)
  }

  lemma NotTwice(s: seq<Rec>, j: nat)
    requires Increasing(s) && j + 1 < |s|
    ensures s[j] != s[j + 1]
  {
  }

  lemma WeaveEmpty(seg: seq<Rec>, unset: Rec)
    requires seg != [] && unset !in seg
    ensures Weave([], seg, unset, unset) == [unset] + seg[1..] != seg
  {
    assert ([unset] + seg[1..])[0] != seg[0];
  }

  /** A merge of sorted runs is right exactly under the condition, and what it is otherwise. */
  lemma WeaveIs(disk: seq<Rec>, seg: seq<Rec>, unset: Rec)
    requires Increasing(disk) && Increasing(seg) && seg != [] && unset !in seg
    ensures var out := Weave(disk, seg, Ahead(disk, unset), unset);
            && (out == Union(disk, seg) <==> Mergeable(disk, seg))
            && (!Mergeable(disk, seg) ==> Spoilt(disk, seg, unset, out))
  {
    hide Increasing, Union, Weave;
    var out := Weave(disk, seg, Ahead(disk, unset), unset);
    if disk == [] {
      UnionNone(seg);
      WeaveEmpty(seg, unset);
    } else if Mergeable(disk, seg) {
      WeaveFits(disk, seg, Ahead(disk, unset), unset);
    } else {
      var j: nat :| j < |seg| && seg[j].key == LastKey(disk);
      WeaveAtLast(disk, seg, Ahead(disk, unset), unset, j);
      var u, n := Union(disk, seg), |seg| - 1 - j;
      if n > 0 {
        NotTwice(seg, j);
        assert u[|u| - n - 1..][1] == seg[j..][1];
      }
    }
  }

  /**
    Merges a segment of the buffer into a file, whatever the file holds. If it is sorted, the result is the union of the
    two exactly when the file has a last key and the segment does not have that key.
   */
  method MergeSegment(disk: seq<Rec>, m: seq<Rec>, s: Segment, unset: Rec) returns (out: seq<Rec>)
    requires Increasing(m) && s.left <= s.right < |m| && unset !in m
    ensures out == Weave(disk, m[s.left..s.right + 1], Ahead(disk, unset), unset)
    ensures Increasing(disk) ==> (out == Union(disk, m[s.left..s.right + 1]) <==>
              Mergeable(disk, m[s.left..s.right + 1]))
    ensures Increasing(disk) && !Mergeable(disk, m[s.left..s.right + 1]) ==>
              Spoilt(disk, m[s.left..s.right + 1], unset, out)
  {
    hide Spoilt, Weave, Union;
    var c := GetNext(disk, Cursor(0, false, unset, s.left, unset, []));
    assert disk[0..] == disk;
    while c.iter != s.right + 1 && c.more
      invariant Merging(disk, m, s, unset, c)
      decreases |disk| - c.pos + s.right + 1 - c.iter + if c.more then 1 else 0
    {
      c := MergeOne(disk, m, s, unset, c);
    }
    if c.iter == s.right + 1 {
      out := DrainFile(disk, c);
      FileLast(disk, m, s, unset, c);
    } else {
      out := DrainBuffer(m, s, c);
      BufferLast(disk, m, s, unset, c);
    }
    if Increasing(disk) {
      WeaveIs(disk, m[s.left..s.right + 1], unset);
    }
  }

  lemma LosingWeave(disk: seq<Rec>, m: seq<Rec>, unset: Rec)
    requires disk == [Rec(1, 5)] && m == [Rec(1, 7), Rec(2, 8)]
    ensures Weave(disk, m, disk[0], unset) == [Rec(1, 7), Rec(1, 7)]
  {
    assert disk[1..] == [] && m[1..] == [Rec(2, 8)];
    assert Weave([], m[1..], disk[0], m[0]) == [m[0]];
  }

  /** A merge that writes key 1 twice and loses key 2: the file's last key is the segment's first. */
  method MergeLosesARecord() returns (out: seq<Rec>)
    ensures out == [Rec(1, 7), Rec(1, 7)]
  {
    hide Weave, Union, Spoilt;
    var disk, m := [Rec(1, 5)], [Rec(1, 7), Rec(2, 8)];
    out := MergeSegment(disk, m, Segment(0, 1, 0), Rec(0, 0));
    assert m[0..2] == m;
    LosingWeave(disk, m, Rec(0, 0));
  }

  /** The records of the buffer that belong to file f. */
  ghost function Share(files: seq<seq<Rec>>, m: seq<Rec>, f: nat): set<Rec> {
    set r | r in m && Routed(files, r.key, f)
  }

  /** The same in order. */
  ghost function Mine(files: seq<seq<Rec>>, m: seq<Rec>, f: nat): seq<Rec> {
    if m == [] then []
    else Mine(files, m[..|m| - 1], f) + if Routed(files, m[|m| - 1].key, f) then [m[|m| - 1]] else []
  }

  /** now is the file was, sorted, after the records of sent have come in. */
  ghost predicate TookIn(was: seq<Rec>, sent: set<Rec>, now: seq<Rec>) {
    && Increasing(now)
    && forall r :: r in now <==> r in sent || (r in was && forall x :: x in sent ==> x.key != r.key)
  }

  /** If any key belongs to file f, the file is not empty, and none of these keys is its last one. */
  ghost predicate SafeFor(files: seq<seq<Rec>>, m: seq<Rec>, f: nat)
    requires f < |files|
  {
    forall i :: 0 <= i < |m| && Routed(files, m[i].key, f) ==> files[f] != [] && m[i].key != LastKey(files[f])
  }

  /** So it is for every file. */
  ghost predicate Safe(files: seq<seq<Rec>>, m: seq<Rec>) {
    forall f: nat :: f < |files| ==> SafeFor(files, m, f)
  }

  ghost predicate AllIncreasing(files: seq<seq<Rec>>) {
    forall f :: 0 <= f < |files| ==> Increasing(files[f])
  }

  /** The old last record stands once more behind its successor at j, and what is sent after that one follows. */
  ghost predicate RepeatedAt(was: seq<Rec>, sent: seq<Rec>, j: nat, now: seq<Rec>)
    requires was != [] && j < |sent|
  {
    && sent[j].key == LastKey(was)
    && now == Union(was, sent[..j + 1]) + [was[|was| - 1]] + sent[j + 1..]
  }

  /**
    What becomes of a file when all its records of the buffer have come: the union of both, unless the file was empty
    or has its last key among them. In an empty file the first record is replaced by an unset one; in the other case
    the file's last record, which should have gone, stands once more behind the new one.
   */
  ghost predicate Became(was: seq<Rec>, sent: seq<Rec>, unset: Rec, now: seq<Rec>) {
    if sent == [] then now == was
    else if was == [] then now == [unset] + sent[1..]
    else if HasKey(sent, LastKey(was)) then exists j: nat :: j < |sent| && RepeatedAt(was, sent, j, now)
    else now == Union(was, sent)
  }

  lemma {:induction false} MineIs(files: seq<seq<Rec>>, m: seq<Rec>, f: nat)
    ensures forall r :: r in Mine(files, m, f) <==> r in Share(files, m, f)
    ensures Increasing(m) ==> Increasing(Mine(files, m, f))
  {
    if m != [] {
      var n := |m| - 1;
      MineIs(files, m[..n], f);
      assert m == m[..n] + [m[n]];
      if Increasing(m) {
        var before := Mine(files, m[..n], f);
        forall i | 0 <= i < |before|
          ensures before[i].key < m[n].key
        {
          assert before[i] in Share(files, m[..n], f);
        }
      }
    }
  }

  lemma RoutedOnce(files: seq<seq<Rec>>, k: int, f: nat, g: nat)
    requires Routed(files, k, f) && Routed(files, k, g)
    ensures f == g
  {
  }

  /** A stretch of the buffer that belongs to one file. */
  lemma {:induction false} MineSpan(files: seq<seq<Rec>>, m: seq<Rec>, a: nat, b: nat, g: nat, f: nat)
    requires a <= b <= |m| && forall i :: a <= i < b ==> Routed(files, m[i].key, g)
    ensures Mine(files, m[..b], f) == Mine(files, m[..a], f) + if f == g then m[a..b] else []
  {
    if a < b {
      MineSpan(files, m, a, b - 1, g, f);
      assert m[..b][..b - 1] == m[..b - 1] && m[..b][b - 1] == m[b - 1];
      if f == g {
        assert m[a..b] == m[a..b - 1] + [m[b - 1]];
      } else if Routed(files, m[b - 1].key, f) {
        RoutedOnce(files, m[b - 1].key, f, g);
      }
    }
  }

  /** The first segment that a file gets. */
  lemma FirstMerge(was: seq<Rec>, seg: seq<Rec>, unset: Rec)
    requires Increasing(was) && Increasing(seg) && seg != [] && was != [] && seg[|seg| - 1].key <= LastKey(was)
    ensures Became(was, seg, unset, Weave(was, seg, Ahead(was, unset), unset))
  {
    hide Union, Weave;
    if HasKey(seg, LastKey(was)) {
      var j := |seg| - 1;
      WeaveAtLast(was, seg, Ahead(was, unset), unset, j);
      assert seg[..j + 1] == seg && seg[j + 1..] == [];
      var out := Weave(was, seg, Ahead(was, unset), unset);
      assert out == Union(was, seg) + [was[|was| - 1]] + [];
      assert RepeatedAt(was, seg, j, out);
    } else {
      WeaveFits(was, seg, Ahead(was, unset), unset);
    }
  }

  /** The first record of a union, and what it is a union of from there on. */
  ghost function Picked(d: seq<Rec>, s: seq<Rec>): (Rec, seq<Rec>, seq<Rec>)
    requires d != [] && s != []
  {
    if d[0].key > s[0].key then (s[0], d, s[1..])
    else if d[0].key == s[0].key then (s[0], d[1..], s[1..]) else (d[0], d[1..], s)
  }

  lemma UnionPicks(d: seq<Rec>, s: seq<Rec>)
    requires d != [] && s != []
    ensures Union(d, s) == [Picked(d, s).0] + Union(Picked(d, s).1, Picked(d, s).2)
  {
  }

  lemma UnionPicksMore(d: seq<Rec>, s: seq<Rec>, t: seq<Rec>)
    requires d != [] && s != []
    ensures var (x, d', s') := Picked(d, s);
            && Union(d, s) + t == [x] + (Union(d', s') + t)
            && Union(d, s + t) == [x] + Union(d', s' + t)
  {
    hide Union;
    UnionPicks(d, s);
    UnionPicks(d, s + t);
    assert (s + t)[0] == s[0] && (s + t)[1..] == s[1..] + t;
  }

  lemma WeavePicks(d: seq<Rec>, s: seq<Rec>, e: seq<Rec>, dbuf: Rec, mpair: Rec)
    requires d != [] && s != [] && e != [] && e[0] == Picked(d, s).0
    ensures Weave(e, s, dbuf, mpair) == [e[0]] + Weave(e[1..], Picked(d, s).2, Ahead(e[1..], e[0]), s[0])
  {
  }

  lemma {:induction false} WeaveSame(s: seq<Rec>, t: seq<Rec>, dbuf: Rec, mpair: Rec)
    requires t != []
    ensures Weave(s + t, s, dbuf, mpair) == s + t
  {
    if s == [] {
      assert s + t == t;
    } else {
      var e := s + t;
      assert e[1..] == s[1..] + t;
      WeaveSame(s[1..], t, Ahead(e[1..], e[0]), s[0]);
      assert [s[0]] + (s[1..] + t) == e;
    }
  }

  lemma RestFits(d: seq<Rec>, s: seq<Rec>, t: seq<Rec>)
    requires Increasing(s) && d != [] && s != [] && (t != [] || s[|s| - 1].key < LastKey(d))
    ensures var (_, d', s') := Picked(d, s);
            Increasing(s') && (t != [] || (d' != [] && (s' != [] ==> s'[|s'| - 1].key < LastKey(d'))))
  {
  }

  /** A run that a file has taken in once leaves it as it is the second time, whatever stands behind. */
  lemma {:induction false} WeaveAgain(d: seq<Rec>, s: seq<Rec>, t: seq<Rec>, dbuf: Rec, mpair: Rec)
    requires Increasing(s)
    requires t != [] || (d != [] && (s != [] ==> s[|s| - 1].key < LastKey(d)))
    ensures Weave(Union(d, s) + t, s, dbuf, mpair) == Union(d, s) + t
    decreases |d| + |s|
  {
    if s == [] {
      UnionNone(d);
    } else if d == [] {
      UnionNone(s);
      WeaveSame(s, t, dbuf, mpair);
    } else {
      hide Union, Weave, Increasing;
      var (x, d', s') := Picked(d, s);
      var e := Union(d, s) + t;
      UnionPicksMore(d, s, t);
      assert e[0] == x && e[1..] == Union(d', s') + t;
      RestFits(d, s, t);
      WeaveAgain(d', s', t, Ahead(e[1..], e[0]), s[0]);
      WeavePicks(d, s, e, dbuf, mpair);
    }
  }

  /** The same segment once more changes nothing. */
  lemma SecondMerge(was: seq<Rec>, seg: seq<Rec>, unset: Rec, now: seq<Rec>)
    requires Increasing(was) && Increasing(seg) && seg != [] && was != [] && seg[|seg| - 1].key <= LastKey(was)
    requires Became(was, seg, unset, now)
    ensures Weave(now, seg, Ahead(now, unset), unset) == now
  {
    hide Union, Weave;
    if HasKey(seg, LastKey(was)) {
      var j: nat :| j < |seg| && RepeatedAt(was, seg, j, now);
      assert j == |seg| - 1;
      assert seg[..j + 1] == seg && seg[j + 1..] == [];
      WeaveAgain(was, seg, [was[|was| - 1]], Ahead(now, unset), unset);
      assert now == Union(was, seg) + [was[|was| - 1]];
    } else {
      WeaveAgain(was, seg, [], Ahead(now, unset), unset);
      assert now + [] == now;
    }
  }

  lemma WeaveBelow(d: seq<Rec>, s: seq<Rec>, dbuf: Rec, mpair: Rec)
    requires d != [] && s != [] && d[0].key < s[0].key
    ensures Weave(d, s, dbuf, mpair) == [d[0]] + Weave(d[1..], s, Ahead(d[1..], d[0]), s[0])
    ensures Weave([], s, dbuf, s[0]) == s
  {
    assert [s[0]] + s[1..] == s;
  }

  lemma {:induction false} WeaveBeyond(d: seq<Rec>, s: seq<Rec>, dbuf: Rec, mpair: Rec)
    requires d != [] && s != [] && forall i :: 0 <= i < |d| ==> d[i].key < s[0].key
    ensures Weave(d, s, dbuf, mpair) == d + s
  {
    hide Weave;
    WeaveBelow(d, s, dbuf, mpair);
    if |d| == 1 {
      WeaveBelow(d, s, d[0], mpair);
      assert d[1..] == [];
    } else {
      WeaveBeyond(d[1..], s, Ahead(d[1..], d[0]), s[0]);
      assert [d[0]] + (d[1..] + s) == d + s;
    }
  }

  lemma {:induction false} UnionAfter(d: seq<Rec>, t: seq<Rec>)
    requires t != [] && forall i :: 0 <= i < |d| ==> d[i].key < t[0].key
    ensures Union(d, t) == d + t
  {
    if d == [] {
      assert [] + t == t;
    } else {
      UnionAfter(d[1..], t);
      assert [d[0]] + (d[1..] + t) == d + t;
    }
  }

  lemma {:induction false} UnionBeyond(d: seq<Rec>, s: seq<Rec>, t: seq<Rec>)
    requires t != [] && forall i :: 0 <= i < |d| ==> d[i].key < t[0].key
    ensures Union(d, s + t) == Union(d, s) + t
    decreases |d| + |s|
  {
    hide Union;
    if d == [] {
      UnionNone(s);
      UnionNone(s + t);
    } else if s == [] {
      UnionNone(d);
      UnionAfter(d, t);
      assert [] + t == t;
    } else {
      var (x, d', s') := Picked(d, s);
      UnionPicksMore(d, s, t);
      UnionBeyond(d', s', t);
    }
  }

  lemma BecameFrom(was: seq<Rec>, sent: seq<Rec>, unset: Rec, now: seq<Rec>)
    requires Increasing(was) && Increasing(sent) && was != [] && Became(was, sent, unset, now)
    ensures now != [] && forall r :: r in now ==> r in was || r in sent
  {
    forall r | r in now
      ensures r in was || r in sent
    {
      UnionIs(was, sent, r);
      if sent != [] && HasKey(sent, LastKey(was)) {
        var j: nat :| j < |sent| && RepeatedAt(was, sent, j, now);
        UnionIs(was, sent[..j + 1], r);
      }
    }
    if sent != [] && !HasKey(sent, LastKey(was)) {
      UnionIs(was, sent, sent[0]);
    }
  }

  lemma LastIntoEmpty(rest: seq<Rec>, sent: seq<Rec>, unset: Rec, now: seq<Rec>)
    requires rest != [] && sent == [] && Became([], sent, unset, now)
    ensures Became([], sent + rest, unset, Weave(now, rest, Ahead(now, unset), unset))
  {
    assert sent + rest == rest;
  }

  lemma HasKeyMore(s: seq<Rec>, t: seq<Rec>, k: int)
    ensures HasKey(s + t, k) <==> HasKey(s, k) || HasKey(t, k)
  {
    if i :| 0 <= i < |s + t| && (s + t)[i].key == k {
      assert i < |s| ==> s[i].key == k;
      assert i >= |s| ==> t[i - |s|].key == k;
    }
    if i :| 0 <= i < |s| && s[i].key == k {
      assert (s + t)[i].key == k;
    }
    if i :| 0 <= i < |t| && t[i].key == k {
      assert (s + t)[|s| + i].key == k;
    }
  }

  lemma HasKeyNone(k: int)
    ensures !HasKey([], k)
  {
  }

  lemma BecameMore(was: seq<Rec>, sent: seq<Rec>, rest: seq<Rec>, unset: Rec, now: seq<Rec>)
    requires was != [] && rest != [] && Became(was, sent, unset, now) && !HasKey(rest, LastKey(was))
    requires forall r :: r in was ==> r.key < rest[0].key
    ensures Became(was, sent + rest, unset, now + rest)
  {
    hide Union, HasKey;
    HasKeyMore(sent, rest, LastKey(was));
    if sent == [] {
      HasKeyNone(LastKey(was));
      UnionBeyond(was, [], rest);
      UnionNone(was);
      assert sent + rest == rest == [] + rest;
    } else if HasKey(sent, LastKey(was)) {
      var j: nat :| j < |sent| && RepeatedAt(was, sent, j, now);
      assert (sent + rest)[..j + 1] == sent[..j + 1] && (sent + rest)[j + 1..] == sent[j + 1..] + rest;
      assert RepeatedAt(was, sent + rest, j, now + rest);
    } else {
      UnionBeyond(was, sent, rest);
    }
  }

  /** The keys that no file takes, merged into the last file behind its own. */
  lemma LastMerge(was: seq<Rec>, sent: seq<Rec>, rest: seq<Rec>, unset: Rec, now: seq<Rec>)
    requires Increasing(was) && Increasing(sent) && rest != [] && (was == [] ==> sent == [])
    requires Became(was, sent, unset, now)
    requires forall r :: r in was || r in sent ==> r.key < rest[0].key
    requires was != [] ==> !HasKey(rest, LastKey(was))
    ensures Became(was, sent + rest, unset, Weave(now, rest, Ahead(now, unset), unset))
  {
    hide Weave, Union, Increasing, Became;
    var out := Weave(now, rest, Ahead(now, unset), unset);
    if was == [] {
      LastIntoEmpty(rest, sent, unset, now);
    } else {
      BecameFrom(was, sent, unset, now);
      WeaveBeyond(now, rest, Ahead(now, unset), unset);
      BecameMore(was, sent, rest, unset, now);
    }
  }

  /** Every file has become what the first n records of the buffer make of it. */
  ghost predicate Standing(files: seq<seq<Rec>>, m: seq<Rec>, n: nat, unset: Rec, now: seq<seq<Rec>>) {
    && n <= |m| && |now| == |files|
    && forall f: nat :: f < |files| ==> Became(files[f], Mine(files, m[..n], f), unset, now[f])
  }

  /** No file from first on has got anything. */
  ghost predicate Fresh(files: seq<seq<Rec>>, m: seq<Rec>, n: nat, first: int) {
    n <= |m| && forall f: nat :: f >= first ==> Mine(files, m[..n], f) == []
  }

  lemma StandingStart(files: seq<seq<Rec>>, m: seq<Rec>, unset: Rec)
    ensures Standing(files, m, 0, unset, files) && Fresh(files, m, 0, 0)
  {
  }

  lemma SegmentMine(files: seq<seq<Rec>>, m: seq<Rec>, s: Segment, f: nat)
    requires SegmentOk(files, m, s)
    ensures Mine(files, m[..s.right + 1], f) ==
              if f == s.file then Mine(files, m[..s.left], f) + Slice(m, s) else Mine(files, m[..s.left], f)
  {
    assert Mine(files, m[..s.left], f) + [] == Mine(files, m[..s.left], f);
    forall i: nat | s.left <= i < s.right + 1
      ensures Routed(files, m[i].key, s.file)
    {
      assert InSegment(s, i);
    }
    MineSpan(files, m, s.left, s.right + 1, s.file, f);
  }

  lemma SliceIsMine(m: seq<Rec>, s: Segment)
    requires Increasing(m) && Inside(m, s)
    ensures Increasing(Slice(m, s)) && Slice(m, s) != [] && forall r :: r in Slice(m, s) ==> r in m
  {
  }

  lemma BecameNothing(was: seq<Rec>, unset: Rec, now: seq<Rec>)
    requires Became(was, [], unset, now)
    ensures now == was
  {
  }

  lemma FirstIn(files: seq<seq<Rec>>, m: seq<Rec>, s: Segment, unset: Rec, before: seq<Rec>)
    requires Increasing(m) && AllIncreasing(files) && SegmentOk(files, m, s) && Within(files, m, s)
    requires Became(files[s.file], [], unset, before)
    ensures Became(files[s.file], Slice(m, s), unset, Weave(before, Slice(m, s), Ahead(before, unset), unset))
  {
    hide Became, Weave;
    BecameNothing(files[s.file], unset, before);
    SliceIsMine(m, s);
    FirstMerge(files[s.file], Slice(m, s), unset);
  }

  /** A segment of keys that its file takes. */
  lemma StandingOn(files: seq<seq<Rec>>, m: seq<Rec>, s: Segment, unset: Rec, before: seq<seq<Rec>>,
                   now: seq<seq<Rec>>)
    requires Increasing(m) && AllIncreasing(files) && SegmentOk(files, m, s) && Within(files, m, s)
    requires Standing(files, m, s.left, unset, before) && Fresh(files, m, s.left, s.file)
    requires |now| == |files| && now == before[s.file := Weave(before[s.file], Slice(m, s),
                                                               Ahead(before[s.file], unset), unset)]
    ensures Standing(files, m, s.right + 1, unset, now) && Fresh(files, m, s.right + 1, s.file + 1)
  {
    hide Became, Weave, Mine, Routed, NoneTakes, Takes, Increasing;
    forall f: nat
      ensures f < |files| ==> Became(files[f], Mine(files, m[..s.right + 1], f), unset, now[f])
      ensures f >= s.file + 1 ==> Mine(files, m[..s.right + 1], f) == []
    {
      SegmentMine(files, m, s, f);
      if f == s.file {
        FirstIn(files, m, s, unset, before[f]);
        assert [] + Slice(m, s) == Slice(m, s);
      }
    }
  }

  lemma SecondIn(files: seq<seq<Rec>>, m: seq<Rec>, s: Segment, unset: Rec, before: seq<Rec>)
    requires Increasing(m) && AllIncreasing(files) && SegmentOk(files, m, s) && Within(files, m, s)
    requires Became(files[s.file], Slice(m, s), unset, before)
    ensures Weave(before, Slice(m, s), Ahead(before, unset), unset) == before
  {
    hide Became, Weave;
    SliceIsMine(m, s);
    SecondMerge(files[s.file], Slice(m, s), unset, before);
  }

  lemma AllBelow(m: seq<Rec>, s: Segment, was: seq<Rec>, sent: seq<Rec>)
    requires Increasing(m) && Inside(m, s) && Increasing(was) && (was != [] ==> LastKey(was) < m[s.left].key)
    requires forall r :: r in sent ==> r in m[..s.left]
    ensures forall r :: r in was || r in sent ==> r.key < Slice(m, s)[0].key
  {
  }

  lemma LastIn(files: seq<seq<Rec>>, m: seq<Rec>, s: Segment, unset: Rec, before: seq<Rec>)
    requires Increasing(m) && AllIncreasing(files) && SegmentOk(files, m, s) && s.file < |files|
    requires forall i :: s.left <= i < |m| ==> NoneTakes(files, |files|, m[i].key)
    requires Became(files[s.file], Mine(files, m[..s.left], s.file), unset, before)
    requires files[s.file] == [] ==> Mine(files, m[..s.left], s.file) == []
    ensures Became(files[s.file], Mine(files, m[..s.left], s.file) + Slice(m, s), unset,
                   Weave(before, Slice(m, s), Ahead(before, unset), unset))
  {
    hide Became, Weave, Mine;
    var was, sent, rest := files[s.file], Mine(files, m[..s.left], s.file), Slice(m, s);
    MineIs(files, m[..s.left], s.file);
    forall i | 0 <= i < |rest|
      ensures was != [] ==> LastKey(was) < rest[i].key
    {
      assert rest[i] == m[s.left + i] && NoneTakes(files, |files|, m[s.left + i].key);
    }
    SliceIsMine(m, s);
    AllBelow(m, s, was, sent);
    LastMerge(was, sent, rest, unset, before);
  }

  /** The last segment, if it is the one before it once more. */
  lemma StandingAgain(files: seq<seq<Rec>>, m: seq<Rec>, s: Segment, unset: Rec, before: seq<seq<Rec>>)
    requires Increasing(m) && AllIncreasing(files) && SegmentOk(files, m, s) && Within(files, m, s)
    requires Fresh(files, m, s.left, s.file) && Standing(files, m, s.right + 1, unset, before)
    ensures Weave(before[s.file], Slice(m, s), Ahead(before[s.file], unset), unset) == before[s.file]
  {
    hide Became, Weave, Mine, Routed, Takes, Increasing;
    SegmentMine(files, m, s, s.file);
    assert [] + Slice(m, s) == Slice(m, s);
    assert Became(files[s.file], Mine(files, m[..s.right + 1], s.file), unset, before[s.file]);
    SecondIn(files, m, s, unset, before[s.file]);
  }

  /** The last segment, if it has the keys that no file takes. */
  lemma StandingRest(files: seq<seq<Rec>>, m: seq<Rec>, s: Segment, unset: Rec, before: seq<seq<Rec>>,
                     now: seq<seq<Rec>>)
    requires Increasing(m) && AllIncreasing(files) && SegmentOk(files, m, s) && s.right == |m| - 1
    requires s.file < |files| && forall i :: s.left <= i < |m| ==> NoneTakes(files, |files|, m[i].key)
    requires Standing(files, m, s.left, unset, before)
    requires files[s.file] == [] ==> Mine(files, m[..s.left], s.file) == []
    requires |now| == |files| && now == before[s.file := Weave(before[s.file], Slice(m, s),
                                                               Ahead(before[s.file], unset), unset)]
    ensures Standing(files, m, |m|, unset, now)
  {
    hide Became, Weave, Mine, Routed, Takes, Increasing;
    forall f: nat | f < |files|
      ensures Became(files[f], Mine(files, m[..|m|], f), unset, now[f])
    {
      SegmentMine(files, m, s, f);
      if f == s.file {
        LastIn(files, m, s, unset, before[f]);
      }
    }
  }

  lemma NothingYet(files: seq<seq<Rec>>, m: seq<Rec>, p: Segment, f: nat)
    requires SegmentOk(files, m, p) && Within(files, m, p) && Fresh(files, m, p.left, p.file)
    requires f < |files| && p.file <= f && files[f] == []
    ensures Mine(files, m[..p.right + 1], f) == []
  {
    SegmentMine(files, m, p, f);
  }

  /** The last segment of all. */
  lemma StandingLast(files: seq<seq<Rec>>, m: seq<Rec>, p: Segment, s: Segment, unset: Rec, before: seq<seq<Rec>>,
                     now: seq<seq<Rec>>)
    requires Increasing(m) && AllIncreasing(files) && Closing(files, m, p, s) && SegmentOk(files, m, p)
             && Within(files, m, p)
    requires Fresh(files, m, p.left, p.file) && Standing(files, m, p.right + 1, unset, before)
    requires |now| == |before| == |files| && s.file < |files|
             && now == before[s.file := Weave(before[s.file], Slice(m, s), Ahead(before[s.file], unset), unset)]
    ensures Standing(files, m, |m|, unset, now)
  {
    hide Standing, Weave, Fresh, NoneTakes, Takes, Increasing, AllIncreasing, SegmentOk;
    if s == p {
      StandingAgain(files, m, s, unset, before);
      assert now == before;
    } else {
      if files[s.file] == [] {
        NothingYet(files, m, p, s.file);
      }
      StandingRest(files, m, s, unset, before, now);
    }
  }

  lemma SafeMeans(files: seq<seq<Rec>>, m: seq<Rec>, f: nat)
    requires f < |files|
    ensures SafeFor(files, m, f) <==>
              Mine(files, m, f) == [] || (files[f] != [] && !HasKey(Mine(files, m, f), LastKey(files[f])))
  {
    hide Routed;
    var sent := Mine(files, m, f);
    MineIs(files, m, f);
    if SafeFor(files, m, f) {
      forall i | 0 <= i < |sent|
        ensures files[f] != [] && sent[i].key != LastKey(files[f])
      {
        assert sent[i] in Share(files, m, f);
      }
    } else {
      var i :| 0 <= i < |m| && Routed(files, m[i].key, f) && (files[f] == [] || m[i].key == LastKey(files[f]));
      assert m[i] in Share(files, m, f);
    }
  }

  lemma FirstMissing(sent: seq<Rec>, unset: Rec)
    requires Increasing(sent) && sent != [] && unset !in sent
    ensures sent[0] !in [unset] + sent[1..]
  {
  }

  lemma TookInUnion(was: seq<Rec>, sent: seq<Rec>, share: set<Rec>)
    requires Increasing(was) && Increasing(sent) && forall r :: r in sent <==> r in share
    ensures TookIn(was, share, Union(was, sent))
  {
    UnionIncreasing(was, sent);
    forall r
      ensures r in Union(was, sent) <==> r in share || (r in was && forall x :: x in share ==> x.key != r.key)
    {
      UnionIs(was, sent, r);
    }
  }

  /** A file has taken in its share exactly if it was not empty, or nothing came, and its last key did not come. */
  lemma TookInIff(was: seq<Rec>, sent: seq<Rec>, share: set<Rec>, unset: Rec, now: seq<Rec>)
    requires Increasing(was) && Increasing(sent) && unset !in sent && forall r :: r in sent <==> r in share
    requires Became(was, sent, unset, now)
    ensures TookIn(was, share, now) <==> sent == [] || (was != [] && !HasKey(sent, LastKey(was)))
  {
    if sent == [] {
    } else if was == [] {
      FirstMissing(sent, unset);
      assert sent[0] in share;
    } else if HasKey(sent, LastKey(was)) {
      hide Union;
      var j: nat :| j < |sent| && RepeatedAt(was, sent, j, now);
      var u := Union(was, sent[..j + 1]);
      UnionIs(was, sent[..j + 1], sent[j]);
      assert sent[..j + 1][j] == sent[j];
      var i :| 0 <= i < |u| && u[i] == sent[j];
      assert now[i].key == now[|u|].key;
    } else {
      TookInUnion(was, sent, share);
    }
  }

  lemma StandingEnd(files: seq<seq<Rec>>, m: seq<Rec>, unset: Rec, now: seq<seq<Rec>>)
    requires Increasing(m) && AllIncreasing(files) && unset !in m && Standing(files, m, |m|, unset, now)
    ensures forall f: nat :: f < |files| ==> Became(files[f], Mine(files, m, f), unset, now[f])
    ensures forall f: nat :: f < |files| ==> (TookIn(files[f], Share(files, m, f), now[f]) <==> SafeFor(files, m, f))
  {
    hide Became, TookIn, SafeFor, Mine;
    assert m[..|m|] == m;
    forall f: nat | f < |files|
      ensures TookIn(files[f], Share(files, m, f), now[f]) <==> SafeFor(files, m, f)
    {
      MineIs(files, m, f);
      SafeMeans(files, m, f);
      TookInIff(files[f], Mine(files, m, f), Share(files, m, f), unset, now[f]);
    }
  }

  lemma SegmentReady(files: seq<seq<Rec>>, m: seq<Rec>, vec: seq<Segment>, i: nat)
    requires Segments(files, m, vec) && i < |vec|
    ensures vec[i].left <= vec[i].right < |m| && Inside(m, vec[i]) && vec[i].file < |files|
    ensures m[vec[i].left..vec[i].right + 1] == Slice(m, vec[i])
  {
    var s := vec[i];
    assert i < |vec| - 1 ==> Cut(files, m, vec, i);
    assert SegmentOk(files, m, s) && InSegment(s, s.left);
  }

  /** How much has been merged after i segments, and which files have got nothing so far. */
  ghost predicate MergedUpTo(files: seq<seq<Rec>>, m: seq<Rec>, vec: seq<Segment>, i: nat, unset: Rec,
                             now: seq<seq<Rec>>)
    requires Segments(files, m, vec) && i <= |vec|
  {
    if i == |vec| && i > 0 then Standing(files, m, |m|, unset, now)
    else
      && Standing(files, m, Done(vec, i), unset, now)
      && Fresh(files, m, Done(vec, i), if i == 0 then 0 else vec[i - 1].file + 1)
      && (i > 0 ==> Fresh(files, m, vec[i - 1].left, vec[i - 1].file))
  }

  lemma UpToStart(files: seq<seq<Rec>>, m: seq<Rec>, vec: seq<Segment>, unset: Rec)
    requires Segments(files, m, vec)
    ensures MergedUpTo(files, m, vec, 0, unset, files)
  {
    hide Segments;
    StandingStart(files, m, unset);
  }

  lemma UpToEnd(files: seq<seq<Rec>>, m: seq<Rec>, vec: seq<Segment>, unset: Rec, now: seq<seq<Rec>>)
    requires Segments(files, m, vec) && vec != [] && MergedUpTo(files, m, vec, |vec|, unset, now)
    ensures Standing(files, m, |m|, unset, now)
  {
  }

  lemma FreshFrom(files: seq<seq<Rec>>, m: seq<Rec>, n: nat, first: int, later: int)
    requires Fresh(files, m, n, first) && first <= later
    ensures Fresh(files, m, n, later)
  {
  }

  lemma OneMore(files: seq<seq<Rec>>, m: seq<Rec>, vec: seq<Segment>, i: nat, unset: Rec, before: seq<seq<Rec>>,
                now: seq<seq<Rec>>)
    requires Increasing(m) && AllIncreasing(files) && Segments(files, m, vec) && i < |vec|
    requires Inside(m, vec[i]) && vec[i].file < |files|
    requires MergedUpTo(files, m, vec, i, unset, before) && |before| == |files|
    requires now == before[vec[i].file := Weave(before[vec[i].file], Slice(m, vec[i]),
                                                Ahead(before[vec[i].file], unset), unset)]
    ensures MergedUpTo(files, m, vec, i + 1, unset, now)
  {
    hide Standing, Fresh, SegmentOk, Within, Weave, NoneTakes, AllIncreasing, Increasing;
    var s := vec[i];
    if i < |vec| - 1 {
      assert Cut(files, m, vec, i);
      FreshFrom(files, m, s.left, if i == 0 then 0 else vec[i - 1].file + 1, s.file);
      StandingOn(files, m, s, unset, before, now);
    } else {
      assert Cut(files, m, vec, i - 1);
      StandingLast(files, m, vec[i - 1], s, unset, before, now);
    }
  }

  /**
    Merges the segments into their files, or makes the whole buffer a new file if there are none. What becomes of each
    file depends on nothing but the file and the records that belong to it.
   */
  method MergeBufferToFile(files: seq<seq<Rec>>, m: seq<Rec>, vec: seq<Segment>, unset: Rec)
    returns (now: seq<seq<Rec>>)
    requires Increasing(m) && AllIncreasing(files) && Segments(files, m, vec) && unset !in m
    ensures vec == [] ==> now == files + [m]
    ensures vec != [] ==> |now| == |files|
    ensures vec != [] ==> forall f: nat :: f < |files| ==> Became(files[f], Mine(files, m, f), unset, now[f])
    ensures vec != [] ==>
              forall f: nat :: f < |files| ==> (TookIn(files[f], Share(files, m, f), now[f]) <==> SafeFor(files, m, f))
  {
    hide *;
    UpToStart(files, m, vec, unset);
    now := files;
    var i := 0;
    while i < |vec|
      invariant 0 <= i <= |vec| && |now| == |files| && (i == 0 ==> now == files)
      invariant MergedUpTo(files, m, vec, i, unset, now)
    {
      SegmentReady(files, m, vec, i);
      ghost var before := now;
      var merged := MergeSegment(now[vec[i].file], m, vec[i], unset);
      now := now[vec[i].file := merged];
      OneMore(files, m, vec, i, unset, before, now);
      i := i + 1;
    }
    if 0 == |vec| {
      now := now + [m];
    } else {
      UpToEnd(files, m, vec, unset, now);
      StandingEnd(files, m, unset, now);
    }
  }

  /** The files' key ranges are disjoint and ascend. */
  ghost predicate Ascending(files: seq<seq<Rec>>) {
    && AllIncreasing(files)
    && forall f, g, x, y :: 0 <= f < g < |files| && x in files[f] && y in files[g] ==> x.key < y.key
  }

  /** After a merge the key ranges are still disjoint and ascend. */
  lemma MergeKeepsOrder(files: seq<seq<Rec>>, m: seq<Rec>, now: seq<seq<Rec>>)
    requires Ascending(files) && Safe(files, m) && |now| == |files|
    requires forall f :: 0 <= f < |files| ==> TookIn(files[f], Share(files, m, f), now[f])
    ensures Ascending(now)
  {
    forall f, g, x, y | 0 <= f < g < |files| && x in now[f] && y in now[g]
      ensures x.key < y.key
    {
      assert SafeFor(files, m, f);
      assert x in files[f] || x in Share(files, m, f);
      assert y in files[g] || y in Share(files, m, g);
    }
  }

  /** So they are when the buffer, all of whose keys lie beyond the files, becomes a new file. */
  lemma NewFileKeepsOrder(files: seq<seq<Rec>>, m: seq<Rec>)
    requires Ascending(files) && Increasing(m) && forall i :: 0 <= i < |m| ==> NoneTakes(files, |files|, m[i].key)
    ensures Ascending(files + [m])
  {
    forall f, x, y | 0 <= f < |files| && x in files[f] && y in m
      ensures x.key < y.key
    {
      var i :| 0 <= i < |m| && m[i] == y;
      assert NoneTakes(files, |files|, m[i].key);
    }
  }

  /** The file a key belongs to. */
  ghost function Home(files: seq<seq<Rec>>, k: int, i: nat): (f: nat)
    requires i < |files| && NoneTakes(files, i, k)
    ensures Routed(files, k, f)
    decreases |files| - i
  {
    if Takes(files[i], k) || i == |files| - 1 then i else Home(files, k, i + 1)
  }

  lemma StoredAtHome(files: seq<seq<Rec>>, r: Rec, f: nat, home: nat)
    requires Ascending(files) && f < |files| && r in files[f] && Routed(files, r.key, home)
    ensures f == home
  {
    var i :| 0 <= i < |files[f]| && files[f][i] == r;
    assert Takes(files[f], r.key);
    forall g | 0 <= g < f
      ensures !Takes(files[g], r.key)
    {
      if files[g] != [] {
        assert files[g][|files[g]| - 1] in files[g];
      }
    }
  }

  /** No record is lost in a merge: the files hold the buffer's records, and their old ones under all other keys. */
  lemma MergeKeepsRecords(files: seq<seq<Rec>>, m: seq<Rec>, now: seq<seq<Rec>>, r: Rec)
    requires Ascending(files) && Increasing(m) && |files| > 0 && |now| == |files|
    requires forall f :: 0 <= f < |files| ==> TookIn(files[f], Share(files, m, f), now[f])
    ensures (exists f :: 0 <= f < |now| && r in now[f]) <==>
            r in m || ((exists f :: 0 <= f < |files| && r in files[f]) && !HasKey(m, r.key))
  {
    var home := Home(files, r.key, 0);
    forall f | 0 <= f < |files| && f != home && r in files[f]
      ensures false
    {
      StoredAtHome(files, r, f, home);
    }
    if r in m {
      assert r in Share(files, m, home) && r in now[home];
    }
    if f :| 0 <= f < |files| && r in files[f] && !HasKey(m, r.key) {
      forall x | x in Share(files, m, f)
        ensures x.key != r.key
      {
      }
      assert r in now[f];
    }
    if f :| 0 <= f < |now| && r in now[f] && r !in m {
      assert r in files[f] && f == home;
      forall i | 0 <= i < |m|
        ensures m[i].key != r.key
      {
        assert m[i] in Share(files, m, home) <==> Routed(files, m[i].key, home);
      }
    }
  }

  lemma WrongUnion(d: seq<Rec>, r: Rec)
    requires |d| == 2 && d[0].key < r.key <= d[1].key
    ensures Union(d, [r]) == if r.key == d[1].key then [d[0], r] else [d[0], r, d[1]]
  {
    var e := d[1..];
    assert Union(d, [r]) == [d[0]] + Union(e, [r]);
    assert [r][1..] == [] && e[1..] == [] && e == [d[1]];
    UnionNone(e);
  }

  lemma MineOne(files: seq<seq<Rec>>, r: Rec, f: nat)
    ensures Mine(files, [r], f) == if Routed(files, r.key, f) then [r] else []
  {
    assert [r][..0] == [];
  }

  lemma WrongParts(files: seq<seq<Rec>>, m: seq<Rec>)
    requires files == [[Rec(1, 5), Rec(3, 5)], [Rec(10, 5), Rec(20, 5)]] && m == [Rec(3, 7), Rec(11, 7)]
    ensures Routed(files, 3, 0) && !Routed(files, 3, 1) && Routed(files, 11, 1) && !Routed(files, 11, 0)
    ensures Mine(files, m, 0) == [m[0]] && Mine(files, m, 1) == [m[1]]
    ensures Union(files[0], [m[0]]) == [Rec(1, 5), Rec(3, 7)]
    ensures Union(files[1], [m[1]]) == [Rec(10, 5), Rec(11, 7), Rec(20, 5)]
  {
    assert Takes(files[0], 3) && !Takes(files[0], 11) && Takes(files[1], 11);
    assert Routed(files, 3, 0) && Routed(files, 11, 1);
    assert m[..1] == [m[0]];
    MineOne(files, m[0], 0);
    MineOne(files, m[0], 1);
    WrongUnion(files[0], m[0]);
    WrongUnion(files[1], m[1]);
  }

  lemma WrongBecame(was: seq<Rec>, r: Rec, unset: Rec, now: seq<Rec>)
    requires was != [] && Became(was, [r], unset, now)
    ensures now == if r.key == LastKey(was) then Union(was, [r]) + [was[|was| - 1]] else Union(was, [r])
  {
    assert [r][0] == r && [r][..1] == [r] && [r][1..] == [];
  }

  lemma SomeTakes(files: seq<seq<Rec>>, m: seq<Rec>, vec: seq<Segment>)
    requires Segments(files, m, vec) && |files| == 2 && |m| == 2 && Takes(files[0], m[0].key)
    ensures vec != []
  {
    assert !NoneTakes(files, |files|, m[0].key);
  }

  /**
    A buffer whose merge goes wrong in one file and right in the other: its first key is the last one of the first
    file, whose old record stays behind the new one.
   */
  method BufferGoesWrong() returns (now: seq<seq<Rec>>)
    ensures now == [[Rec(1, 5), Rec(3, 7), Rec(3, 5)], [Rec(10, 5), Rec(11, 7), Rec(20, 5)]]
  {
    hide Routed, Union, Segments, TookIn, Mine, NoneTakes;
    var files, m := [[Rec(1, 5), Rec(3, 5)], [Rec(10, 5), Rec(20, 5)]], [Rec(3, 7), Rec(11, 7)];
    WrongParts(files, m);
    var vec := ComputeMergeCost(files, m);
    SomeTakes(files, m, vec);
    now := MergeBufferToFile(files, m, vec, Rec(0, 0));
    WrongBecame(files[0], m[0], Rec(0, 0), now[0]);
    WrongBecame(files[1], m[1], Rec(0, 0), now[1]);
    assert now[0] == [Rec(1, 5), Rec(3, 7)] + [Rec(3, 5)] == [Rec(1, 5), Rec(3, 7), Rec(3, 5)];
    assert now[1] == [Rec(10, 5), Rec(11, 7), Rec(20, 5)];
    assert now == [now[0], now[1]];
  }
}
