/** Merging a buffer into a composite file, and finding a key in it afterwards. */
module FileLookup {
  import opened Merge
  import C = CompFile

  /** The least key of a sorted file. */
  function FirstKey(f: seq<Rec>): int {
    if f == [] then 0 else f[0].key
  }

  /** No file is empty. */
  ghost predicate Stocked(files: seq<seq<Rec>>) {
    forall f :: 0 <= f < |files| ==> files[f] != []
  }

  ghost predicate Holds(files: seq<seq<Rec>>, r: Rec) {
    exists f :: 0 <= f < |files| && r in files[f]
  }

  lemma KeptStocked(was: seq<Rec>, sent: set<Rec>, now: seq<Rec>)
    requires TookIn(was, sent, now) && was != []
    ensures now != []
  {
    if forall x :: x in sent ==> x.key != was[0].key {
      assert was[0] in now;
    } else {
      var x :| x in sent && x.key == was[0].key;
      assert x in now;
    }
  }

  lemma AllKeptStocked(files: seq<seq<Rec>>, m: seq<Rec>, now: seq<seq<Rec>>)
    requires Stocked(files) && |now| == |files|
    requires forall f :: 0 <= f < |files| ==> TookIn(files[f], Share(files, m, f), now[f])
    ensures Stocked(now)
  {
    forall f | 0 <= f < |now|
      ensures now[f] != []
    {
      KeptStocked(files[f], Share(files, m, f), now[f]);
    }
  }

  lemma FirstKeysAscend(files: seq<seq<Rec>>, minKey: seq<Rec> -> int)
    requires Ascending(files) && Stocked(files) && forall f :: minKey(f) == FirstKey(f)
    ensures C.KeysAscend(files, minKey)
  {
    forall i, j | 0 <= i < j < |files|
      ensures minKey(files[i]) < minKey(files[j])
    {
      assert files[i][0] in files[i] && files[j][0] in files[j];
    }
  }

  lemma NotElsewhere(files: seq<seq<Rec>>, key: int, f: nat, i: nat, idx: nat)
    requires Ascending(files) && Stocked(files) && f < |files| && i < |files[f]| && files[f][i].key == key
    requires idx < |files| && FirstKey(files[idx]) <= key
    requires idx + 1 < |files| ==> key < FirstKey(files[idx + 1])
    ensures f == idx
  {
    assert files[f][i] in files[f] && files[idx][0] in files[idx];
    if idx + 1 < |files| {
      assert files[idx + 1][0] in files[idx + 1];
    }
  }

  /** Between its own least key and the next file's, a key is in that file or in none. */
  lemma InOneFile(files: seq<seq<Rec>>, key: int, found: bool, idx: int)
    requires Ascending(files) && Stocked(files)
    requires found <==> files != [] && FirstKey(files[0]) <= key
    requires found ==> 0 <= idx < |files| && FirstKey(files[idx]) <= key
    requires found && idx + 1 < |files| ==> key < FirstKey(files[idx + 1])
    ensures (exists f :: 0 <= f < |files| && HasKey(files[f], key)) <==> found && HasKey(files[idx], key)
  {
    forall f | 0 <= f < |files| && HasKey(files[f], key)
      ensures found && f == idx
    {
      var i :| 0 <= i < |files[f]| && files[f][i].key == key;
      assert files[f][i] in files[f] && files[f][0] in files[f] && files[0][0] in files[0];
      if found {
        NotElsewhere(files, key, f, i, idx);
      }
    }
  }

  lemma NewFileHolds(files: seq<seq<Rec>>, m: seq<Rec>, r: Rec)
    requires AllIncreasing(files) && forall i :: 0 <= i < |m| ==> NoneTakes(files, |files|, m[i].key)
    ensures Holds(files + [m], r) <==> r in m || (Holds(files, r) && !HasKey(m, r.key))
  {
    var now := files + [m];
    assert now[|files|] == m;
    if f :| 0 <= f < |files| && r in files[f] {
      assert now[f] == files[f];
      forall i | 0 <= i < |m|
        ensures m[i].key != r.key
      {
        var j :| 0 <= j < |files[f]| && files[f][j] == r;
        assert !Takes(files[f], m[i].key);
      }
    }
  }

  /** A merge that goes right leaves the files in order, none of them empty, with the records of both. */
  lemma MergedWell(files: seq<seq<Rec>>, m: seq<Rec>, now: seq<seq<Rec>>)
    requires Ascending(files) && Stocked(files) && Increasing(m) && m != [] && Safe(files, m)
    requires if |now| == |files| + 1
             then now == files + [m] && forall i :: 0 <= i < |m| ==> NoneTakes(files, |files|, m[i].key)
             else |files| > 0 && |now| == |files|
                  && forall f :: 0 <= f < |files| ==> TookIn(files[f], Share(files, m, f), now[f])
    ensures Ascending(now) && Stocked(now)
    ensures forall r :: Holds(now, r) <==> r in m || (Holds(files, r) && !HasKey(m, r.key))
  {
    if |now| == |files| {
      MergeKeepsOrder(files, m, now);
      AllKeptStocked(files, m, now);
      forall r
        ensures Holds(now, r) <==> r in m || (Holds(files, r) && !HasKey(m, r.key))
      {
        MergeKeepsRecords(files, m, now, r);
      }
    } else {
      NewFileKeepsOrder(files, m);
      forall r
        ensures Holds(now, r) <==> r in m || (Holds(files, r) && !HasKey(m, r.key))
      {
        NewFileHolds(files, m, r);
      }
    }
  }

  /** What a composite file has between merges: every file at its offset, in order of keys, none empty. */
  ghost predicate Settled(comp: C.CompFile<Rec>)
    reads comp
  {
    && C.InOrder(comp.offsetMap) && C.Placed(comp.offsetMap)
    && comp.length == |C.Joined(C.Files(comp.offsetMap))|
    && Ascending(C.Files(comp.offsetMap)) && Stocked(C.Files(comp.offsetMap))
    && forall f :: comp.minKey(f) == FirstKey(f)
  }

  lemma BehindAll(map0: seq<C.Entry<seq<Rec>>>, length: int, m: seq<Rec>)
    requires C.InOrder(map0) && C.Placed(map0) && length == |C.Joined(C.Files(map0))| && Stocked(C.Files(map0))
    ensures C.InOrder(map0 + [C.Entry(length, m)])
    ensures C.Files(map0 + [C.Entry(length, m)]) == C.Files(map0) + [m]
  {
    var files, n := C.Files(map0), |map0| - 1;
    if map0 != [] {
      C.JoinedLast(files, |map0|);
      assert files[..|map0|] == files && files[n] == map0[n].value;
    }
    C.AppendInOrder(map0, C.Entry(length, m));
  }

  lemma Replaced(map0: seq<C.Entry<seq<Rec>>>, now: seq<seq<Rec>>, map1: seq<C.Entry<seq<Rec>>>)
    requires C.InOrder(map0) && |map1| == |map0| == |now|
    requires forall i :: 0 <= i < |now| ==> map1[i] == C.Entry(map0[i].key, now[i])
    ensures C.InOrder(map1) && C.Files(map1) == now
  {
  }

  lemma SettledParts(comp: C.CompFile<Rec>)
    requires Settled(comp)
    ensures AllIncreasing(C.Files(comp.offsetMap))
  {
  }

  lemma AllTookIn(files: seq<seq<Rec>>, m: seq<Rec>, now: seq<seq<Rec>>)
    requires Safe(files, m) && |now| == |files|
    requires forall f: nat :: f < |files| ==> (TookIn(files[f], Share(files, m, f), now[f]) <==> SafeFor(files, m, f))
    ensures forall f :: 0 <= f < |files| ==> TookIn(files[f], Share(files, m, f), now[f])
  {
  }

  /** Merges a buffer into a composite file: its segments into the files in place, or all of it into a new file. */
  method MergeInto(comp: C.CompFile<Rec>, m: seq<Rec>, unset: Rec)
    requires Settled(comp) && Increasing(m) && m != [] && unset !in m && Safe(C.Files(comp.offsetMap), m)
    modifies comp
    ensures Settled(comp) && C.InOrder(comp.keyMap) && C.KeysPlaced(comp.offsetMap, comp.keyMap, comp.minKey)
    ensures forall r :: Holds(C.Files(comp.offsetMap), r) <==>
              r in m || (old(Holds(C.Files(comp.offsetMap), r)) && !HasKey(m, r.key))
  {
    hide Safe, Routed, Share, TookIn, Ascending, Increasing, HasKey, Holds, C.Joined, C.InOrder, C.Placed, C.KeysPlaced;
    ghost var files, map0 := C.Files(comp.offsetMap), comp.offsetMap;
    SettledParts(comp);
    var contents := C.Files(comp.offsetMap);
    var vec := ComputeMergeCost(contents, m);
    var now := MergeBufferToFile(contents, m, vec, unset);
    if vec != [] {
      AllTookIn(files, m, now);
    }
    MergedWell(files, m, now);
    if |vec| == 0 {
      BehindAll(map0, comp.length, m);
      comp.offsetMap := comp.offsetMap + [C.Entry(comp.length, m)];
    } else {
      comp.offsetMap := seq(|now|, i requires 0 <= i < |now| && |now| == |comp.offsetMap|
                                     reads comp => C.Entry(comp.offsetMap[i].key, now[i]));
      Replaced(map0, now, comp.offsetMap);
    }
    assert C.Files(comp.offsetMap) == now;
    FirstKeysAscend(now, comp.minKey);
    C.AllFilesStay(now);
    comp.RefreshAllOffsets();
  }

  lemma FilesAreThere(comp: C.CompFile<Rec>)
    requires Settled(comp)
    ensures Ascending(C.Files(comp.offsetMap)) && Stocked(C.Files(comp.offsetMap)) && C.InOrder(comp.offsetMap)
    ensures |C.Files(comp.offsetMap)| == |comp.offsetMap|
    ensures forall i :: 0 <= i < |comp.offsetMap| ==>
              && C.Files(comp.offsetMap)[i] == comp.offsetMap[i].value
              && comp.minKey(comp.offsetMap[i].value) == FirstKey(C.Files(comp.offsetMap)[i])
  {
  }

  /** After a merge a key is found exactly if it is in one of the files, and then in the one it leads to. */
  method MergeThenFind(comp: C.CompFile<Rec>, m: seq<Rec>, unset: Rec, key: int) returns (found: bool, idx: int)
    requires Settled(comp) && Increasing(m) && m != [] && unset !in m && Safe(C.Files(comp.offsetMap), m)
    modifies comp
    ensures var now := C.Files(comp.offsetMap);
            && (forall r :: Holds(now, r) <==> r in m || (old(Holds(C.Files(comp.offsetMap), r)) && !HasKey(m, r.key)))
            && (found ==> 0 <= idx < |now|)
            && ((exists f :: 0 <= f < |now| && HasKey(now[f], key)) <==> found && HasKey(now[idx], key))
  {
    hide *;
    MergeInto(comp, m, unset);
    FilesAreThere(comp);
    found, idx := comp.GetSimpFile(key);
    InOneFile(C.Files(comp.offsetMap), key, found, idx);
  }
}
