/** A file made of smaller files laid end to end, found by their offsets or by their least keys. */
module CompFile {
  datatype Entry<V> = Entry(key: int, value: V)

  /** What an ordered array of pairs with distinct keys holds. */
  ghost predicate InOrder<V>(m: seq<Entry<V>>) {
    forall i, j :: 0 <= i < j < |m| ==> m[i].key < m[j].key
  }

  /** The last entry whose key is not above k, or -1. */
  method PredOrEqual<V>(m: seq<Entry<V>>, k: int) returns (i: int)
    requires InOrder(m)
    ensures -1 <= i < |m|
    ensures i >= 0 ==> m[i].key <= k
    ensures forall j :: i < j < |m| ==> m[j].key > k
  {
    i := |m| - 1;
    while i >= 0 && m[i].key > k
      invariant -1 <= i < |m|
      invariant forall j :: i < j < |m| ==> m[j].key > k
    {
      i := i - 1;
    }
  }

  function Between<V>(m: seq<Entry<V>>, e: Entry<V>, at: nat): seq<Entry<V>>
    requires at <= |m|
  {
    seq(|m| + 1, j requires 0 <= j <= |m| => if j < at then m[j] else if j == at then e else m[j - 1])
  }

  lemma PutBetween<V>(m: seq<Entry<V>>, e: Entry<V>, at: nat)
    requires InOrder(m) && at <= |m| && (at > 0 ==> m[at - 1].key < e.key)
    requires forall j :: at <= j < |m| ==> m[j].key > e.key
    ensures InOrder(Between(m, e, at))
    ensures at == |m| ==> Between(m, e, at) == m + [e]
  {
  }

  /** Puts an entry in its place. A key that is there already keeps its entry. */
  method Put<V>(m: seq<Entry<V>>, e: Entry<V>) returns (m': seq<Entry<V>>)
    requires InOrder(m)
    ensures InOrder(m')
    ensures m != [] && m[|m| - 1].key == e.key ==> m' == m
    ensures (m == [] || m[|m| - 1].key < e.key) ==> m' == m + [e]
  {
    var i := PredOrEqual(m, e.key);
    assert m != [] && m[|m| - 1].key < e.key ==> i == |m| - 1 by {
      assert i < |m| - 1 ==> m[|m| - 1].key > e.key;
    }
    hide InOrder, Between;
    if i >= 0 && m[i].key == e.key {
      return m;
    }
    m' := Between(m, e, i + 1);
    PutBetween(m, e, i + 1);
  }

  /** All bytes of the files, in order. */
  ghost function Joined<T>(files: seq<seq<T>>): seq<T> {
    if files == [] then [] else Joined(files[..|files| - 1]) + files[|files| - 1]
  }

  function Files<T>(m: seq<Entry<seq<T>>>): seq<seq<T>> {
    seq(|m|, i requires 0 <= i < |m| => m[i].value)
  }

  /** Each file begins where the ones before it end. */
  ghost predicate Placed<T>(m: seq<Entry<seq<T>>>) {
    forall i :: 0 <= i < |m| ==> m[i].key == |Joined(Files(m)[..i])|
  }

  /** No file but the last is empty. */
  ghost predicate NoneEmptyBeforeLast<T>(files: seq<seq<T>>) {
    forall i :: 0 <= i < |files| - 1 ==> files[i] != []
  }

  /** Up to n elements of s from offset on. */
  function Window<T>(s: seq<T>, offset: int, n: int): (r: seq<T>)
    requires 0 <= offset && 0 <= n
    ensures |r| <= n
  {
    if offset >= |s| then [] else if offset + n <= |s| then s[offset..offset + n] else s[offset..]
  }

  /** What stays when files take their offsets anew: of two files with one offset, the later one is dropped. */
  ghost function Refreshed<T>(files: seq<seq<T>>): seq<Entry<seq<T>>> {
    if files == [] then []
    else
      var n := |files| - 1;
      Refreshed(files[..n]) + if n == 0 || files[n - 1] != [] then [Entry(|Joined(files[..n])|, files[n])] else []
  }

  lemma NothingInOrder<V>()
    ensures var none: seq<Entry<V>> := []; InOrder(none)
  {
  }

  lemma JoinedLast<T>(files: seq<seq<T>>, n: nat)
    requires 0 < n <= |files|
    ensures Joined(files[..n]) == Joined(files[..n - 1]) + files[n - 1]
  {
    assert files[..n][..n - 1] == files[..n - 1];
  }

  lemma AppendInOrder<V>(m: seq<Entry<V>>, e: Entry<V>)
    requires InOrder(m)
    ensures m == [] || m[|m| - 1].key < e.key ==> InOrder(m + [e])
    ensures m + [] == m
  {
  }

  lemma {:induction false} RefreshedOffsets<T>(files: seq<seq<T>>)
    ensures |Refreshed(files)| <= |files| && InOrder(Refreshed(files))
    ensures files != [] ==>
              && Refreshed(files) != []
              && Refreshed(files)[|Refreshed(files)| - 1].key == |Joined(files[..|files| - 1])|
  {
    hide Joined, InOrder;
    if files == [] {
      NothingInOrder<seq<T>>();
    } else {
      var n := |files| - 1;
      RefreshedOffsets(files[..n]);
      if n > 0 {
        JoinedLast(files, n);
        assert files[..n][..n - 1] == files[..n - 1] && files[..n][n - 1] == files[n - 1];
      }
      AppendInOrder(Refreshed(files[..n]), Entry(|Joined(files[..n])|, files[n]));
    }
  }

  lemma JoinedNone<T>(files: seq<seq<T>>)
    ensures Joined(files[..0]) == []
  {
  }

  lemma NoneEmptyOne<T>(files: seq<seq<T>>, n: nat)
    requires |files| == n + 1
    ensures NoneEmptyBeforeLast(files) <==> NoneEmptyBeforeLast(files[..n]) && (n == 0 || files[n - 1] != [])
  {
  }

  lemma RefreshedOne<T>(files: seq<seq<T>>, n: nat)
    requires |files| == n + 1
    ensures Refreshed(files)
            == Refreshed(files[..n]) + if n == 0 || files[n - 1] != [] then [Entry(|Joined(files[..n])|, files[n])]
              else []
  {
  }

  lemma FilesLength<T>(m: seq<Entry<seq<T>>>)
    ensures |Files(m)| == |m|
  {
  }

  lemma PlacedOne<T>(before: seq<Entry<seq<T>>>, files: seq<seq<T>>, n: nat)
    requires |files| == n + 1 && Files(before) == files[..n] && Placed(before)
    ensures var m := before + [Entry(|Joined(files[..n])|, files[n])]; Files(m) == files && Placed(m)
  {
    hide Joined;
    var m := before + [Entry(|Joined(files[..n])|, files[n])];
    assert |before| == |Files(before)| == n;
    assert Files(m) == Files(before) + [files[n]];
    assert files == files[..n] + [files[n]];
    forall i | 0 <= i < |m|
      ensures m[i].key == |Joined(Files(m)[..i])|
    {
      if i < n {
        assert m[i] == before[i] && Files(before)[..i] == Files(m)[..i];
      }
    }
  }

  lemma FilesStayOne<T>(files: seq<seq<T>>, n: nat)
    requires |files| == n + 1 && |Refreshed(files[..n])| <= n
    requires Files(Refreshed(files[..n])) == files[..n] <==> NoneEmptyBeforeLast(files[..n])
    requires |Refreshed(files[..n])| == n <==> NoneEmptyBeforeLast(files[..n])
    requires NoneEmptyBeforeLast(files[..n]) ==> Placed(Refreshed(files[..n]))
    ensures Files(Refreshed(files)) == files <==> NoneEmptyBeforeLast(files)
    ensures |Refreshed(files)| == |files| <==> NoneEmptyBeforeLast(files)
    ensures NoneEmptyBeforeLast(files) ==> Placed(Refreshed(files))
  {
    hide *;
    NoneEmptyOne(files, n);
    RefreshedOne(files, n);
    FilesLength(Refreshed(files));
    if NoneEmptyBeforeLast(files) {
      PlacedOne(Refreshed(files[..n]), files, n);
    } else {
      assert |Refreshed(files)| < |files|;
    }
  }

  /** Every file stays, at the offset where the ones before it end, exactly when none but the last is empty. */
  lemma {:induction false} AllFilesStay<T>(files: seq<seq<T>>)
    ensures Files(Refreshed(files)) == files <==> NoneEmptyBeforeLast(files)
    ensures |Refreshed(files)| == |files| <==> NoneEmptyBeforeLast(files)
    ensures NoneEmptyBeforeLast(files) ==> Placed(Refreshed(files))
  {
    if files != [] {
      var n := |files| - 1;
      AllFilesStay(files[..n]);
      RefreshedOffsets(files[..n]);
      FilesStayOne(files, n);
    }
  }

  /** A file that is put behind an empty one is dropped when the offsets are taken anew. */
  lemma BehindEmpty<T>(files: seq<seq<T>>, f: seq<T>)
    requires files != [] && files[|files| - 1] == []
    ensures Refreshed(files + [f]) == Refreshed(files)
  {
    hide Joined;
    var all, n := files + [f], |files|;
    assert all[..n] == files && all[n - 1] == files[n - 1] == [];
    assert Refreshed(all) == Refreshed(files) + [];
  }

  /** So a file of one record is, behind an empty one. */
  lemma DroppedFile()
    ensures Files(Refreshed([[], [7]])) == [[]]
  {
    var none: seq<int> := [];
    BehindEmpty([none], [7]);
    assert [none] + [[7]] == [none, [7]];
    assert [none][..0] == [];
    assert Refreshed([none]) == [] + [Entry(0, none)];
  }

  /** The least keys of the files ascend. */
  ghost predicate KeysAscend<T>(files: seq<seq<T>>, minKey: seq<T> -> int) {
    forall i, j :: 0 <= i < j < |files| ==> minKey(files[i]) < minKey(files[j])
  }

  /** The key map leads from each file's least key to its offset. */
  ghost predicate KeysPlaced<T>(m: seq<Entry<seq<T>>>, keys: seq<Entry<int>>, minKey: seq<T> -> int) {
    |keys| == |m| && forall i :: 0 <= i < |m| ==> keys[i] == Entry(minKey(m[i].value), m[i].key)
  }

  /** The key map once the files before i have been entered. */
  ghost predicate KeysOf<T>(files: seq<seq<T>>, i: nat, keys: seq<Entry<int>>, minKey: seq<T> -> int)
    requires i <= |files|
  {
    |keys| == i && forall j :: 0 <= j < i ==> keys[j] == Entry(minKey(files[j]), |Joined(files[..j])|)
  }

  lemma MapsStart<T>(files: seq<seq<T>>, minKey: seq<T> -> int)
    ensures Refreshed(files[..0]) == [] && InOrder(Refreshed(files[..0])) && KeysOf(files, 0, [], minKey)
    ensures var none: seq<Entry<int>> := []; InOrder(none)
  {
  }

  lemma KeysNext<T>(files: seq<seq<T>>, i: nat, keys: seq<Entry<int>>, minKey: seq<T> -> int)
    requires i < |files|
    ensures KeysAscend(files, minKey) && KeysOf(files, i, keys, minKey) ==>
              && (keys == [] || keys[|keys| - 1].key < minKey(files[i]))
              && KeysOf(files, i + 1, keys + [Entry(minKey(files[i]), |Joined(files[..i])|)], minKey)
  {
  }

  lemma MapsEnd<T>(files: seq<seq<T>>, keys: seq<Entry<int>>, minKey: seq<T> -> int)
    ensures files[..|files|] == files
    ensures NoneEmptyBeforeLast(files) && KeysOf(files, |files|, keys, minKey) ==>
              KeysPlaced(Refreshed(files), keys, minKey)
  {
    AllFilesStay(files);
    var m := Refreshed(files);
    assert forall i :: 0 <= i < |m| ==> Files(m)[i] == m[i].value;
  }

  lemma RefreshedNext<T>(files: seq<seq<T>>, i: nat)
    requires i < |files|
    ensures Refreshed(files[..i + 1])
            == Refreshed(files[..i]) + if i == 0 || files[i - 1] != [] then [Entry(|Joined(files[..i])|, files[i])]
              else []
    ensures InOrder(Refreshed(files[..i]))
    ensures i > 0 ==>
              var m := Refreshed(files[..i]);
              && m != [] && m[|m| - 1].key <= |Joined(files[..i])|
              && (m[|m| - 1].key == |Joined(files[..i])| <==> files[i - 1] == [])
  {
    assert files[..i + 1][..i] == files[..i];
    RefreshedOffsets(files[..i]);
    if i > 0 {
      assert files[..i][..i - 1] == files[..i - 1];
      assert files[..i][i - 1] == files[i - 1];
    }
  }

  /** buf has been read, and the next byte, if any, is at local in file i. */
  ghost predicate Reading<T>(m: seq<Entry<seq<T>>>, i: nat, offset: nat, local: nat, buf: seq<T>)
    requires i <= |m|
  {
    var all := Joined(Files(m));
    && buf == Window(all, offset, |buf|)
    && offset + |buf| == local + (if i < |m| then m[i].key else |all|)
    && (i < |m| - 1 ==> local < |m[i].value|)
    && (i == |m| ==> local == 0)
  }

  lemma FirstAtZero<T>(m: seq<Entry<seq<T>>>)
    requires Placed(m)
    ensures m != [] ==> m[0].key == 0
  {
  }

  /** A file's bytes are the bytes of the whole from its offset on. */
  lemma {:induction false} JoinedSlice<T>(files: seq<seq<T>>, i: nat)
    requires i < |files|
    ensures var lo := |Joined(files[..i])|;
            lo + |files[i]| <= |Joined(files)| && Joined(files)[lo..lo + |files[i]|] == files[i]
  {
    var n := |files| - 1;
    if i < n {
      JoinedSlice(files[..n], i);
      assert files[..n][..i] == files[..i];
    }
  }

  lemma JoinedAt<T>(m: seq<Entry<seq<T>>>, i: nat)
    requires Placed(m) && i < |m|
    ensures var all := Joined(Files(m)); var lo := m[i].key;
            && 0 <= lo <= lo + |m[i].value| <= |all| && all[lo..lo + |m[i].value|] == m[i].value
            && lo + |m[i].value| == if i + 1 < |m| then m[i + 1].key else |all|
  {
    var files := Files(m);
    JoinedSlice(files, i);
    assert files[..i + 1][..i] == files[..i];
    assert files[..|m|] == files;
  }

  lemma ReadStarts<T>(m: seq<Entry<seq<T>>>, i: nat, offset: nat)
    requires Placed(m) && i < |m| && m[i].key <= offset && (i + 1 < |m| ==> offset < m[i + 1].key)
    ensures Reading(m, i, offset, offset - m[i].key, [])
  {
    JoinedAt(m, i);
  }

  lemma WindowInside<T>(all: seq<T>, lo: nat, value: seq<T>, local: nat, n: nat)
    requires lo + |value| <= |all| && all[lo..lo + |value|] == value && local < |value|
    ensures var part := Window(value, local, n);
            part == Window(all, lo + local, |part|) && (|part| < n ==> local + |part| == |value|)
  {
    var part := Window(value, local, n);
    forall j | 0 <= j < |value|
      ensures value[j] == all[lo + j]
    {
      assert all[lo..lo + |value|][j] == value[j];
    }
    if local + n <= |value| {
      assert part == value[local..local + n] == all[lo + local..lo + local + n];
    } else {
      assert part == value[local..|value|] == all[lo + local..lo + |value|];
    }
    assert part == all[lo + local..lo + local + |part|];
  }

  lemma WindowJoins<T>(all: seq<T>, offset: nat, a: nat, b: nat)
    requires offset + a < |all|
    ensures Window(all, offset, a) + Window(all, offset + a, b) == Window(all, offset, a + b)
  {
  }

  lemma WindowGrows<T>(m: seq<Entry<seq<T>>>, i: nat, offset: nat, done: nat, local: nat, remaining: nat)
    requires Placed(m) && i < |m| && offset + done == local + m[i].key && local < |m[i].value|
    ensures var all := Joined(Files(m)); var part := Window(m[i].value, local, remaining);
            && offset + done <= |all|
            && Window(all, offset, done) + part == Window(all, offset, done + |part|)
            && (|part| < remaining ==> local + |part| == |m[i].value|)
  {
    hide *;
    JoinedAt(m, i);
    var all, lo, value := Joined(Files(m)), m[i].key, m[i].value;
    WindowInside(all, lo, value, local, remaining);
    WindowJoins(all, offset, done, |Window(value, local, remaining)|);
  }

  lemma ReadOn<T>(m: seq<Entry<seq<T>>>, i: nat, offset: nat, local: nat, buf: seq<T>, remaining: nat)
    requires InOrder(m) && Placed(m) && i < |m| && Reading(m, i, offset, local, buf)
    ensures var part := Window(m[i].value, local, remaining);
            && (part == [] || |part| == remaining ==> buf + part == Window(Joined(Files(m)), offset, |buf| + remaining))
            && (part != [] && |part| < remaining ==> Reading(m, i + 1, offset, 0, buf + part))
  {
    JoinedAt(m, i);
    var part := Window(m[i].value, local, remaining);
    assert buf + [] == buf;
    if local < |m[i].value| {
      WindowGrows(m, i, offset, |buf|, local, remaining);
      if i + 1 < |m| {
        JoinedAt(m, i + 1);
        assert i + 2 < |m| ==> m[i + 1].key < m[i + 2].key;
      }
    }
  }

  lemma ReadEnds<T>(m: seq<Entry<seq<T>>>, i: nat, offset: nat, local: nat, buf: seq<T>, remaining: nat)
    requires i == |m| && Reading(m, i, offset, local, buf)
    ensures buf == Window(Joined(Files(m)), offset, |buf| + remaining)
  {
  }

  class CompFile<T> {
    var offsetMap: seq<Entry<seq<T>>>
    var keyMap: seq<Entry<int>>
    var length: int

    const minKey: seq<T> -> int

    constructor (leastKey: seq<T> -> int)
      ensures offsetMap == [] && keyMap == [] && length == 0
    {
      offsetMap, keyMap, length, minKey := [], [], 0, leastKey;
    }

    /** Lays the files end to end. */
    method Offsets() returns (vec: seq<Entry<seq<T>>>, total: int)
      ensures total == |Joined(Files(offsetMap))| && |vec| == |offsetMap|
      ensures forall j :: 0 <= j < |vec| ==> vec[j] == Entry(|Joined(Files(offsetMap)[..j])|, Files(offsetMap)[j])
    {
      hide Joined;
      ghost var files := Files(offsetMap);
      JoinedNone(files);
      var i := 0;
      vec, total := [], 0;
      while i < |offsetMap|
        invariant 0 <= i <= |offsetMap| && total == |Joined(files[..i])| && |vec| == i
        invariant forall j :: 0 <= j < i ==> vec[j] == Entry(|Joined(files[..j])|, files[j])
      {
        vec := vec + [Entry(total, offsetMap[i].value)];
        JoinedLast(files, i + 1);
        total := total + |offsetMap[i].value|;
        i := i + 1;
      }
      assert files[..i] == files;
    }

    /** Enters every file in fresh maps. */
    method RebuildMaps(vec: seq<Entry<seq<T>>>, ghost files: seq<seq<T>>)
      requires |vec| == |files| && forall j :: 0 <= j < |vec| ==> vec[j] == Entry(|Joined(files[..j])|, files[j])
      modifies this`offsetMap, this`keyMap
      ensures offsetMap == Refreshed(files) && InOrder(offsetMap) && InOrder(keyMap)
      ensures NoneEmptyBeforeLast(files) && KeysAscend(files, minKey) ==> KeysPlaced(offsetMap, keyMap, minKey)
    {
      hide *;
      MapsStart(files, minKey);
      offsetMap, keyMap := [], [];
      var i := 0;
      while i < |vec|
        invariant 0 <= i <= |vec| && InOrder(offsetMap) && InOrder(keyMap)
        invariant offsetMap == Refreshed(files[..i]) && (KeysAscend(files, minKey) ==> KeysOf(files, i, keyMap, minKey))
      {
        RefreshedNext(files, i);
        KeysNext(files, i, keyMap, minKey);
        offsetMap := Put(offsetMap, vec[i]);
        keyMap := Put(keyMap, Entry(minKey(vec[i].value), vec[i].key));
        i := i + 1;
      }
      MapsEnd(files, keyMap, minKey);
    }

    /** Gives every file its offset anew, and builds both maps from nothing. */
    method RefreshAllOffsets()
      requires InOrder(offsetMap)
      modifies this
      ensures offsetMap == Refreshed(old(Files(offsetMap))) && InOrder(offsetMap) && InOrder(keyMap)
      ensures length == |Joined(old(Files(offsetMap)))|
      ensures NoneEmptyBeforeLast(old(Files(offsetMap))) && KeysAscend(old(Files(offsetMap)), minKey) ==>
                KeysPlaced(offsetMap, keyMap, minKey)
    {
      ghost var files := Files(offsetMap);
      var vec, total := Offsets();
      length := total;
      RebuildMaps(vec, files);
    }

    /** The file that holds a position, and the file's own offset. */
    method GetOffset(pos: int) returns (found: bool, partOffset: int, idx: int)
      requires InOrder(offsetMap)
      ensures found <==> offsetMap != [] && offsetMap[0].key <= pos
      ensures found ==> 0 <= idx < |offsetMap| && partOffset == offsetMap[idx].key <= pos
                        && (idx + 1 < |offsetMap| ==> pos < offsetMap[idx + 1].key)
    {
      idx := PredOrEqual(offsetMap, pos);
      if idx < 0 {
        return false, 0, idx;
      }
      return true, offsetMap[idx].key, idx;
    }

    /** Reads across file borders: the slice of all bytes, cut off at their end. */
    method Pread(len: nat, offset: int) returns (rc: int, buf: seq<T>)
      requires InOrder(offsetMap) && Placed(offsetMap)
      ensures offset < 0 || offsetMap == [] ==> rc == -1
      ensures offset >= 0 && offsetMap != [] ==> rc == |buf| && buf == Window(Joined(Files(offsetMap)), offset, len)
    {
      hide *;
      FirstAtZero(offsetMap);
      buf := [];
      var found, partOffset, i := GetOffset(offset);
      if !found {
        return -1, [];
      }
      var remaining, localOffset := len, offset - partOffset;
      ReadStarts(offsetMap, i, offset);
      while i < |offsetMap|
        invariant 0 <= i <= |offsetMap| && 0 <= localOffset && remaining == len - |buf| >= 0
        invariant Reading(offsetMap, i, offset, localOffset, buf)
      {
        var part := Window(offsetMap[i].value, localOffset, remaining);
        ReadOn(offsetMap, i, offset, localOffset, buf, remaining);
        if |part| <= 0 {
          break;
        }
        buf := buf + part;
        if |buf| == len {
          break;
        }
        remaining := remaining - |part|;
        localOffset := 0;
        i := i + 1;
      }
      if i == |offsetMap| {
        ReadEnds(offsetMap, i, offset, localOffset, buf, remaining);
      }
      rc := |buf|;
    }

    /** The file whose key range a key falls into. */
    method GetSimpFile(key: int) returns (found: bool, idx: int)
      requires InOrder(offsetMap) && InOrder(keyMap) && KeysPlaced(offsetMap, keyMap, minKey)
      ensures found <==> offsetMap != [] && minKey(offsetMap[0].value) <= key
      ensures found ==> 0 <= idx < |offsetMap| && minKey(offsetMap[idx].value) <= key
                        && (idx + 1 < |offsetMap| ==> key < minKey(offsetMap[idx + 1].value))
    {
      var t := PredOrEqual(keyMap, key);
      if t < 0 {
        return false, t;
      }
      idx := PredOrEqual(offsetMap, keyMap[t].value);
      found := idx >= 0;
    }
  }
}
