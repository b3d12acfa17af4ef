/** The open-addressed hash table that maps a key to its slot in the sorted array, with linear probing. */
module ProbeTable {
  import opened Gapped

  const EMPTY: int := NULLKEY

  /** Reduces a key's hash code to a cell of a table of the given length. */
  type HashKey = (int, int) -> int

  ghost predicate InRange(h: HashKey) {
    forall k, n :: n > 0 ==> 0 <= h(k, n) < n
  }

  function Next(c: int, n: int): int {
    if c + 1 >= n then 0 else c + 1
  }

  function Prev(c: int, n: int): int {
    if c - 1 < 0 then n - 1 else c - 1
  }

  /** Probing from h passes x before it reaches c. */
  ghost predicate OnPath(h: int, x: int, c: int) {
    if h <= c then h <= x < c else x >= h || x < c
  }

  ghost predicate PathFull(table: seq<int>, h: int, c: int) {
    forall x :: 0 <= x < |table| && OnPath(h, x, c) ==> table[x] != EMPTY
  }

  ghost predicate Reachable(h: HashKey, ks: seq<int>, table: seq<int>, c: int)
    requires 0 <= c < |table| && |table| == |ks| && 0 <= table[c] < |ks|
  {
    PathFull(table, h(ks[table[c]], |table|), c)
  }

  /** Cells hold distinct used slots, and each is reached by probing from its key's home. */
  ghost predicate CellsOk(h: HashKey, ks: seq<int>, table: seq<int>) {
    && |table| == |ks| > 0
    && (forall c :: 0 <= c < |table| && table[c] != EMPTY ==> 0 <= table[c] < |ks| && ks[table[c]] != NULLKEY)
    && (forall c, d :: 0 <= c < d < |table| && table[c] != EMPTY ==> table[c] != table[d])
    && (forall c :: 0 <= c < |table| && table[c] != EMPTY ==> Reachable(h, ks, table, c))
  }

  ghost predicate HasCell(table: seq<int>, s: int) {
    exists c :: 0 <= c < |table| && table[c] == s
  }

  /** The table holds every used slot exactly once, where probing finds it. */
  ghost predicate TableOk(h: HashKey, ks: seq<int>, table: seq<int>) {
    && CellsOk(h, ks, table)
    && (forall s :: 0 <= s < |ks| && ks[s] != NULLKEY ==> HasCell(table, s))
    && Used(table) == Used(ks)
  }

  lemma PathExtends(table: seq<int>, h: int, c: int)
    requires 0 <= h < |table| && 0 <= c < |table| && PathFull(table, h, c) && table[c] != EMPTY
    requires exists z :: 0 <= z < |table| && table[z] == EMPTY
    ensures PathFull(table, h, Next(c, |table|)) && Next(c, |table|) != h
  {
  }

  lemma CellsAfterInsert(h: HashKey, ks: seq<int>, table: seq<int>, pos: nat, key: int, c: nat)
    requires CellsOk(h, ks, table) && InRange(h)
    requires pos < |ks| && ks[pos] == NULLKEY && key != NULLKEY
    requires c < |table| && table[c] == EMPTY && PathFull(table, h(key, |table|), c)
    ensures CellsOk(h, ks[pos := key], table[c := pos])
  {
    var ks', table' := ks[pos := key], table[c := pos];
    forall d | 0 <= d < |table'| && table'[d] != EMPTY
      ensures Reachable(h, ks', table', d)
    {
      if d != c {
        assert Reachable(h, ks, table, d);
      }
    }
  }

  lemma InsertKeeps(h: HashKey, ks: seq<int>, table: seq<int>, pos: nat, key: int, c: nat)
    requires TableOk(h, ks, table) && InRange(h)
    requires pos < |ks| && ks[pos] == NULLKEY && key != NULLKEY
    requires c < |table| && table[c] == EMPTY && PathFull(table, h(key, |table|), c)
    ensures TableOk(h, ks[pos := key], table[c := pos])
  {
    var ks', table' := ks[pos := key], table[c := pos];
    UsedUpdate(ks, pos, key);
    UsedUpdate(table, c, pos);
    CellsAfterInsert(h, ks, table, pos, key, c);
    forall s | 0 <= s < |ks'| && ks'[s] != NULLKEY
      ensures HasCell(table', s)
    {
      if s == pos {
        assert table'[c] == s;
      } else {
        assert HasCell(table, s);
        var d :| 0 <= d < |table| && table[d] == s;
        assert table'[d] == s;
      }
    }
  }

  lemma CellsAfterMove(h: HashKey, ks: seq<int>, table: seq<int>, src: nat, dst: nat, c: nat)
    requires CellsOk(h, ks, table)
    requires src < |ks| && dst < |ks| && ks[src] != NULLKEY && ks[dst] == NULLKEY
    requires c < |table| && table[c] == src
    ensures CellsOk(h, ks[dst := ks[src]][src := NULLKEY], table[c := dst])
  {
    var ks', table' := ks[dst := ks[src]][src := NULLKEY], table[c := dst];
    assert forall d :: 0 <= d < |table| && table[d] != EMPTY && d != c ==> table[d] != src && table[d] != dst;
    assert forall d :: 0 <= d < |table| && table[d] != EMPTY ==> table'[d] != EMPTY && ks'[table'[d]] == ks[table[d]];
    forall d | 0 <= d < |table'| && table'[d] != EMPTY
      ensures Reachable(h, ks', table', d)
    {
      assert Reachable(h, ks, table, d);
    }
  }

  /** A key changes slot: its cell is rewritten in place. */
  lemma MoveKeeps(h: HashKey, ks: seq<int>, table: seq<int>, src: nat, dst: nat, c: nat)
    requires TableOk(h, ks, table)
    requires src < |ks| && dst < |ks| && ks[src] != NULLKEY && ks[dst] == NULLKEY
    requires c < |table| && table[c] == src
    ensures TableOk(h, ks[dst := ks[src]][src := NULLKEY], table[c := dst])
  {
    var ks', table' := ks[dst := ks[src]][src := NULLKEY], table[c := dst];
    UsedUpdate(ks, dst, ks[src]);
    UsedUpdate(ks[dst := ks[src]], src, NULLKEY);
    UsedUpdate(table, c, dst);
    CellsAfterMove(h, ks, table, src, dst, c);
    forall s | 0 <= s < |ks'| && ks'[s] != NULLKEY
      ensures HasCell(table', s)
    {
      if s == dst {
        assert table'[c] == s;
      } else {
        assert HasCell(table, s);
        var d :| 0 <= d < |table| && table[d] == s;
        assert table'[d] == s;
      }
    }
  }

  /** The run of non-empty cells from start forward to end, which may wrap past the last cell. */
  datatype Cluster = Cluster(start: int, end: int, n: int) {
    ghost predicate Has(x: int) {
      if start <= end then start <= x <= end else (start <= x < n || 0 <= x <= end)
    }

    function Rank(x: int): int {
      if x >= start then x else x + n
    }

    ghost predicate Valid(table: seq<int>) {
      && n == |table|
      && 0 <= start < n && 0 <= end < n
      && Next(end, n) != start
      && (forall x :: Has(x) ==> table[x] != EMPTY)
      && table[Prev(start, n)] == EMPTY && table[Next(end, n)] == EMPTY
    }
  }

  /** Whether the cell birth comes no later than the cell box in the order of the cluster. */
  function AboveQ(start: int, end: int, birth: int, box: int, n: int): bool {
    if start < end then birth <= box
    else
      (if 0 <= birth <= end then birth + n else birth) <= (if 0 <= box <= end then box + n else box)
  }

  lemma AboveQIsOrder(cl: Cluster, table: seq<int>, birth: int, box: int)
    requires cl.Valid(table) && cl.start != cl.end && cl.Has(birth) && cl.Has(box)
    ensures AboveQ(cl.start, cl.end, birth, box, cl.n) <==> cl.Rank(birth) <= cl.Rank(box)
  {
  }

  /** Probing from one cell of a cluster to a later one stays inside, between the two. */
  lemma PathInside(cl: Cluster, table: seq<int>, a: int, x: int, c: int)
    requires cl.Valid(table) && cl.Has(a) && cl.Has(c) && cl.Rank(a) <= cl.Rank(c)
    requires 0 <= x < cl.n && OnPath(a, x, c)
    ensures cl.Has(x) && cl.Rank(a) <= cl.Rank(x) < cl.Rank(c)
  {
  }

  /** A full path that ends in the cluster began in it, no later. */
  lemma HomeInside(cl: Cluster, table: seq<int>, a: int, c: int)
    requires cl.Valid(table) && cl.Has(c) && 0 <= a < cl.n && PathFull(table, a, c)
    ensures cl.Has(a) && cl.Rank(a) <= cl.Rank(c)
  {
    var gate := Prev(cl.start, cl.n);
    assert !OnPath(a, gate, c);
  }

  /** A full path that ends outside the cluster never enters it. */
  lemma PathOutside(cl: Cluster, table: seq<int>, a: int, x: int, c: int)
    requires cl.Valid(table) && 0 <= c < cl.n && !cl.Has(c) && table[c] != EMPTY && 0 <= a < cl.n
             && PathFull(table, a, c)
    requires 0 <= x < cl.n && OnPath(a, x, c)
    ensures !cl.Has(x)
  {
    var gate := Next(cl.end, cl.n);
    assert !OnPath(a, gate, c);
  }

  ghost predicate Slots(ks: seq<int>, table: seq<int>) {
    && (forall c :: 0 <= c < |table| && table[c] != EMPTY ==> 0 <= table[c] < |ks| && ks[table[c]] != NULLKEY)
    && (forall c, d :: 0 <= c < d < |table| && table[c] != EMPTY ==> table[c] != table[d])
  }

  ghost predicate AllHeld(ks: seq<int>, table: seq<int>) {
    forall s :: 0 <= s < |ks| && ks[s] != NULLKEY ==> HasCell(table, s)
  }

  /** Cells hold distinct used slots, each used slot has a cell: all of TableOk but reachability. */
  ghost predicate Entries(ks: seq<int>, table: seq<int>) {
    && |table| == |ks| > 0 && Used(table) == Used(ks)
    && Slots(ks, table) && AllHeld(ks, table)
  }

  ghost function HomeOf(h: HashKey, ks: seq<int>, table: seq<int>, c: int): int
    requires 0 <= c < |table| && 0 <= table[c] < |ks|
  {
    h(ks[table[c]], |table|)
  }

  /** How a cell of the cluster stands once the scan, with its empty cell box, has come as far as hc. */
  ghost predicate CellScanned(h: HashKey, ks: seq<int>, table: seq<int>, cl: Cluster, box: int, hc: int, c: int)
    requires 0 <= c < |table| && 0 <= table[c] < |ks|
  {
    var a := HomeOf(h, ks, table, c);
    && cl.Has(a) && cl.Rank(a) <= cl.Rank(c)
    && (cl.Rank(c) <= cl.Rank(hc) ==> !(cl.Rank(a) <= cl.Rank(box) < cl.Rank(c)))
  }

  /** The cluster during a deletion that has scanned it up to hc; box is its one empty cell. */
  ghost predicate Scanned(h: HashKey, ks: seq<int>, table: seq<int>, cl: Cluster, box: int, hc: int) {
    && |table| == |ks| == cl.n
    && 0 <= cl.start < cl.n && 0 <= cl.end < cl.n && Next(cl.end, cl.n) != cl.start
    && (forall c :: 0 <= c < |table| && table[c] != EMPTY ==> 0 <= table[c] < |ks|)
    && cl.Has(box) && cl.Has(hc) && cl.Rank(box) <= cl.Rank(hc)
    && table[box] == EMPTY
    && (forall c :: 0 <= c < |table| && cl.Has(c) && c != box ==>
      table[c] != EMPTY && CellScanned(h, ks, table, cl, box, hc, c))
  }

  /** The state of a deletion: its cluster is scanned up to hc, every other cell is as it was. */
  ghost predicate Shifting(h: HashKey, ks: seq<int>, was: seq<int>, table: seq<int>, cl: Cluster, box: int, hc: int) {
    && Entries(ks, table) && |was| == |table| && cl.Valid(was)
    && (forall c :: 0 <= c < |table| && !cl.Has(c) ==> table[c] == was[c])
    && Scanned(h, ks, table, cl, box, hc)
  }

  lemma SlotsRemoved(ks: seq<int>, table: seq<int>, hc: nat)
    requires Slots(ks, table) && hc < |table| && table[hc] != EMPTY
    ensures 0 <= table[hc] < |ks| && Slots(ks[table[hc] := NULLKEY], table[hc := EMPTY])
  {
  }

  lemma AllHeldRemoved(ks: seq<int>, table: seq<int>, hc: nat)
    requires AllHeld(ks, table) && hc < |table| && 0 <= table[hc] < |ks|
    ensures AllHeld(ks[table[hc] := NULLKEY], table[hc := EMPTY])
  {
    var ks', table' := ks[table[hc] := NULLKEY], table[hc := EMPTY];
    forall s | 0 <= s < |ks'| && ks'[s] != NULLKEY
      ensures HasCell(table', s)
    {
      assert HasCell(table, s);
      var d :| 0 <= d < |table| && table[d] == s;
      assert table'[d] == s;
    }
  }

  lemma InUse(ks: seq<int>, table: seq<int>, hc: nat)
    requires Slots(ks, table) && hc < |table| && table[hc] != EMPTY
    ensures 0 <= table[hc] < |ks| && ks[table[hc]] != NULLKEY
  {
  }

  lemma EntriesRemoved(ks: seq<int>, table: seq<int>, hc: nat)
    requires Entries(ks, table) && hc < |table| && table[hc] != EMPTY
    ensures 0 <= table[hc] < |ks| && Entries(ks[table[hc] := NULLKEY], table[hc := EMPTY])
  {
    hide Slots, AllHeld, Used;
    SlotsRemoved(ks, table, hc);
    AllHeldRemoved(ks, table, hc);
    InUse(ks, table, hc);
    UsedUpdate(ks, table[hc], NULLKEY);
    UsedUpdate(table, hc, EMPTY);
  }

  lemma ScanStarts(h: HashKey, ks: seq<int>, table: seq<int>, cl: Cluster, hc: nat)
    requires CellsOk(h, ks, table) && InRange(h) && cl.Valid(table) && cl.Has(hc)
    ensures Scanned(h, ks[table[hc] := NULLKEY], table[hc := EMPTY], cl, hc, hc)
  {
    var ks', table' := ks[table[hc] := NULLKEY], table[hc := EMPTY];
    forall c | 0 <= c < |table| && cl.Has(c) && c != hc
      ensures table'[c] != EMPTY && CellScanned(h, ks', table', cl, hc, hc, c)
    {
      assert Reachable(h, ks, table, c);
      HomeInside(cl, table, HomeOf(h, ks, table, c), c);
    }
  }

  lemma SlotsMoved(ks: seq<int>, table: seq<int>, box: nat, c: nat)
    requires Slots(ks, table) && box < |table| && c < |table| && table[box] == EMPTY && table[c] != EMPTY
    ensures Slots(ks, table[box := table[c]][c := EMPTY])
  {
  }

  lemma AllHeldMoved(ks: seq<int>, table: seq<int>, box: nat, c: nat)
    requires AllHeld(ks, table) && box < |table| && c < |table| && table[box] == EMPTY && table[c] != EMPTY
    ensures AllHeld(ks, table[box := table[c]][c := EMPTY])
  {
    var table' := table[box := table[c]][c := EMPTY];
    forall s | 0 <= s < |ks| && ks[s] != NULLKEY
      ensures HasCell(table', s)
    {
      assert HasCell(table, s);
      var d :| 0 <= d < |table| && table[d] == s;
      assert table'[if d == c then box else d] == s;
    }
  }

  lemma EntriesMoved(ks: seq<int>, table: seq<int>, box: nat, c: nat)
    requires Entries(ks, table) && box < |table| && c < |table| && table[box] == EMPTY && table[c] != EMPTY
    ensures Entries(ks, table[box := table[c]][c := EMPTY])
  {
    var t := table[box := table[c]];
    UsedUpdate(table, box, table[c]);
    UsedUpdate(t, c, EMPTY);
    SlotsMoved(ks, table, box, c);
    AllHeldMoved(ks, table, box, c);
  }

  lemma ScanSkips(h: HashKey, ks: seq<int>, table: seq<int>, cl: Cluster, box: nat, hc: nat, c: nat)
    requires Scanned(h, ks, table, cl, box, hc)
    requires cl.Has(c) && cl.Rank(c) == cl.Rank(hc) + 1 && table[c] != EMPTY
    requires HomeOf(h, ks, table, c) == c || cl.Rank(HomeOf(h, ks, table, c)) > cl.Rank(box)
    ensures Scanned(h, ks, table, cl, box, c)
  {
    forall d | 0 <= d < |table| && cl.Has(d) && d != box
      ensures table[d] != EMPTY && CellScanned(h, ks, table, cl, box, c, d)
    {
      assert CellScanned(h, ks, table, cl, box, hc, d);
      assert cl.Rank(d) == cl.Rank(c) ==> d == c;
    }
  }

  lemma MovedInRange(ks: seq<int>, table: seq<int>, box: nat, c: nat)
    requires forall d :: 0 <= d < |table| && table[d] != EMPTY ==> 0 <= table[d] < |ks|
    requires box < |table| && c < |table| && table[c] != EMPTY
    ensures var table' := table[box := table[c]][c := EMPTY];
            forall d :: 0 <= d < |table'| && table'[d] != EMPTY ==> 0 <= table'[d] < |ks|
  {
  }

  lemma CellMoves(h: HashKey, ks: seq<int>, table: seq<int>, table': seq<int>, cl: Cluster, box: nat, hc: nat, c: nat,
                  e: nat, d: nat)
    requires |table| == |table'| && e < |table| && d < |table|
    requires 0 <= table[e] < |ks| && table'[d] == table[e]
    requires CellScanned(h, ks, table, cl, box, hc, e)
    requires cl.Rank(box) <= cl.Rank(hc) && cl.Rank(c) == cl.Rank(hc) + 1
    requires if d == box then e == c && cl.Rank(HomeOf(h, ks, table, e)) <= cl.Rank(box) else e == d
    ensures CellScanned(h, ks, table', cl, c, c, d)
  {
  }

  lemma ScanMoves(h: HashKey, ks: seq<int>, table: seq<int>, cl: Cluster, box: nat, hc: nat, c: nat)
    requires Scanned(h, ks, table, cl, box, hc)
    requires cl.Has(c) && cl.Rank(c) == cl.Rank(hc) + 1 && table[c] != EMPTY
    requires cl.Rank(HomeOf(h, ks, table, c)) <= cl.Rank(box)
    ensures Scanned(h, ks, table[box := table[c]][c := EMPTY], cl, c, c)
  {
    hide CellScanned, HomeOf, AllHeld, Slots;
    var table' := table[box := table[c]][c := EMPTY];
    MovedInRange(ks, table, box, c);
    forall d | 0 <= d < |table'| && cl.Has(d) && d != c
      ensures table'[d] != EMPTY && CellScanned(h, ks, table', cl, c, c, d)
    {
      var e := if d == box then c else d;
      assert table'[d] == table[e] && CellScanned(h, ks, table, cl, box, hc, e);
      CellMoves(h, ks, table, table', cl, box, hc, c, e, d);
    }
  }

  /** One round of the scan: the cell after hc is moved into the box exactly when its path crosses the box. */
  lemma ScanRound(h: HashKey, ks: seq<int>, table: seq<int>, cl: Cluster, box: nat, hc: nat, c: nat)
    requires Scanned(h, ks, table, cl, box, hc)
    requires c == Next(hc, cl.n) && cl.Has(c) && table[c] != EMPTY
    ensures cl.Rank(c) == cl.Rank(hc) + 1 && cl.start != cl.end && cl.Has(HomeOf(h, ks, table, c))
    ensures if HomeOf(h, ks, table, c) != c && cl.Rank(HomeOf(h, ks, table, c)) <= cl.Rank(box)
            then Scanned(h, ks, table[box := table[c]][c := EMPTY], cl, c, c)
            else Scanned(h, ks, table, cl, box, c)
  {
    assert cl.Rank(c) == cl.Rank(hc) + 1;
    assert CellScanned(h, ks, table, cl, box, hc, c);
    if HomeOf(h, ks, table, c) != c && cl.Rank(HomeOf(h, ks, table, c)) <= cl.Rank(box) {
      ScanMoves(h, ks, table, cl, box, hc, c);
    } else {
      ScanSkips(h, ks, table, cl, box, hc, c);
    }
  }

  lemma ReachedInside(h: HashKey, ks: seq<int>, was: seq<int>, table: seq<int>, cl: Cluster, box: nat, hc: nat, c: nat)
    requires cl.Valid(was) && |was| == |table| && Scanned(h, ks, table, cl, box, hc) && InRange(h)
    requires table[Next(hc, cl.n)] == EMPTY && c < |table| && cl.Has(c) && table[c] != EMPTY
    ensures Reachable(h, ks, table, c)
  {
    var a := HomeOf(h, ks, table, c);
    assert CellScanned(h, ks, table, cl, box, hc, c);
    forall x | 0 <= x < |table| && OnPath(a, x, c)
      ensures table[x] != EMPTY
    {
      PathInside(cl, was, a, x, c);
    }
  }

  lemma ReachedOutside(h: HashKey, ks: seq<int>, was: seq<int>, table: seq<int>, cl: Cluster, ks0: seq<int>, c: nat)
    requires cl.Valid(was) && |was| == |table| == |ks| == |ks0| && InRange(h)
    requires c < |table| && !cl.Has(c) && table[c] == was[c] != EMPTY && 0 <= was[c] < |ks| && ks[was[c]] == ks0[was[c]]
    requires forall d :: 0 <= d < |table| && !cl.Has(d) ==> table[d] == was[d]
    requires Reachable(h, ks0, was, c)
    ensures Reachable(h, ks, table, c)
  {
    var a := HomeOf(h, ks, table, c);
    forall x | 0 <= x < |table| && OnPath(a, x, c)
      ensures table[x] != EMPTY
    {
      PathOutside(cl, was, a, x, c);
    }
  }

  lemma ShiftReaches(h: HashKey, ks: seq<int>, was: seq<int>, table: seq<int>, cl: Cluster, box: nat, hc: nat,
                     ks0: seq<int>)
    requires Shifting(h, ks, was, table, cl, box, hc) && InRange(h)
    requires table[Next(hc, cl.n)] == EMPTY
    requires CellsOk(h, ks0, was) && |ks0| == |ks|
    requires forall c :: 0 <= c < |was| && !cl.Has(c) && was[c] != EMPTY ==> ks[was[c]] == ks0[was[c]]
    ensures |table| == |ks| && forall c :: 0 <= c < |table| && table[c] != EMPTY ==> 0 <= table[c] < |ks|
    ensures forall c :: 0 <= c < |table| && table[c] != EMPTY ==> Reachable(h, ks, table, c)
  {
    hide Reachable, PathFull, AllHeld, Used, CellScanned, Cluster.Valid;
    forall c | 0 <= c < |table| && table[c] != EMPTY
      ensures Reachable(h, ks, table, c)
    {
      if cl.Has(c) {
        ReachedInside(h, ks, was, table, cl, box, hc, c);
      } else {
        assert Reachable(h, ks0, was, c);
        ReachedOutside(h, ks, was, table, cl, ks0, c);
      }
    }
  }

  /** When the whole cluster has been scanned, probing finds every key again. */
  lemma ShiftEnds(h: HashKey, ks: seq<int>, was: seq<int>, table: seq<int>, cl: Cluster, box: nat, hc: nat,
                  ks0: seq<int>)
    requires Shifting(h, ks, was, table, cl, box, hc) && InRange(h)
    requires table[Next(hc, cl.n)] == EMPTY
    requires CellsOk(h, ks0, was) && |ks0| == |ks|
    requires forall c :: 0 <= c < |was| && !cl.Has(c) && was[c] != EMPTY ==> ks[was[c]] == ks0[was[c]]
    ensures TableOk(h, ks, table)
  {
    hide Reachable, Scanned, Cluster.Valid, InRange, HasCell, Used;
    ShiftReaches(h, ks, was, table, cl, box, hc, ks0);
  }

  ghost predicate HasEmpty(table: seq<int>) {
    exists z :: 0 <= z < |table| && table[z] == EMPTY
  }

  /** The array holds the key of every slot that ks uses. */
  ghost predicate Agrees(arr: seq<Pair>, ks: seq<int>) {
    |arr| == |ks| && forall s :: 0 <= s < |ks| && ks[s] != NULLKEY ==> arr[s].key == ks[s]
  }

  /** A free slot of the array leaves a free cell in the table. */
  lemma TableHasEmpty(h: HashKey, ks: seq<int>, table: seq<int>, z: nat)
    requires TableOk(h, ks, table) && z < |ks| && ks[z] == NULLKEY
    ensures HasEmpty(table)
  {
    UsedUpdate(ks, z, 0);
    var c := FreeSlot(table);
  }

  function Ahead(c: int, z: int, n: int): int {
    if c <= z then z - c else z - c + n
  }

  /** The first empty cell after hc. */
  method ProbeLocation(hc: nat, table: array<int>) returns (c: nat)
    requires hc < table.Length && table[hc] != EMPTY && HasEmpty(table[..])
    ensures c < table.Length && table[c] == EMPTY && PathFull(table[..], hc, c)
  {
    ghost var z :| 0 <= z < table.Length && table[..][z] == EMPTY;
    PathExtends(table[..], hc, hc);
    c := Next(hc, table.Length);
    while table[c] != EMPTY
      invariant c < table.Length && PathFull(table[..], hc, c)
      decreases Ahead(c, z, table.Length)
    {
      PathExtends(table[..], hc, c);
      c := Next(c, table.Length);
    }
  }

  ghost predicate ProbedInVain(table: seq<int>, ks: seq<int>, hc: int, c: int, search: int) {
    && (forall x :: 0 <= x < |table| && table[x] != EMPTY ==> 0 <= table[x] < |ks|)
    && forall x :: 0 <= x < |table| && OnPath(hc, x, c) ==> table[x] != EMPTY && ks[table[x]] != search
  }

  lemma ProbeOn(table: seq<int>, ks: seq<int>, hc: int, c: int, search: int)
    requires 0 <= hc < |table| && 0 <= c < |table| && HasEmpty(table)
    requires ProbedInVain(table, ks, hc, c, search) && table[c] != EMPTY && ks[table[c]] != search
    ensures ProbedInVain(table, ks, hc, Next(c, |table|), search)
    ensures forall z :: 0 <= z < |table| && table[z] == EMPTY ==>
              Ahead(Next(c, |table|), z, |table|) < Ahead(c, z, |table|)
  {
  }

  /** A search that reaches an empty cell without a match has covered every cell the key could be in. */
  lemma AbsentAfterProbe(h: HashKey, ks: seq<int>, table: seq<int>, search: int, c: int)
    requires TableOk(h, ks, table) && InRange(h) && search != NULLKEY
    requires 0 <= c < |table| && table[c] == EMPTY
    requires ProbedInVain(table, ks, h(search, |table|), c, search)
    ensures search !in ks
  {
    forall s | 0 <= s < |ks|
      ensures ks[s] != search
    {
      if ks[s] != NULLKEY {
        assert HasCell(table, s);
        var d :| 0 <= d < |table| && table[d] == s;
        assert Reachable(h, ks, table, d);
      }
    }
  }

  lemma ProbeStarts(h: HashKey, ks: seq<int>, table: seq<int>, hc: nat, search: int)
    requires TableOk(h, ks, table) && HasEmpty(table) && hc < |table| && table[hc] != EMPTY && ks[table[hc]] != search
    ensures |table| == |ks| && ProbedInVain(table, ks, hc, Next(hc, |table|), search)
    ensures exists z :: 0 <= z < |table| && table[z] == EMPTY
  {
    PathExtends(table, hc, hc);
  }

  lemma ProbedCell(table: seq<int>, ks: seq<int>, arr: seq<Pair>, hc: int, c: int, search: int)
    requires ProbedInVain(table, ks, hc, c, search) && 0 <= c < |table| && table[c] != EMPTY && Agrees(arr, ks)
    requires forall d :: 0 <= d < |table| && table[d] != EMPTY ==> 0 <= table[d] < |ks| && ks[table[d]] != NULLKEY
    ensures 0 <= table[c] < |ks| == |arr| && arr[table[c]].key == ks[table[c]]
  {
  }

  lemma EntriesInUse(h: HashKey, ks: seq<int>, table: seq<int>)
    requires TableOk(h, ks, table)
    ensures forall d :: 0 <= d < |table| && table[d] != EMPTY ==> 0 <= table[d] < |ks| && ks[table[d]] != NULLKEY
  {
  }

  lemma AheadSome(c: int, z: int, n: int)
    requires 0 <= c < n && 0 <= z < n
    ensures Ahead(c, z, n) >= 0
  {
  }

  /** The cell after hc that holds the key, or -1. */
  method FindProbedLocation(search: int, hc: nat, arr: array<Pair>, table: array<int>, ghost h: HashKey,
                            ghost ks: seq<int>)
    returns (c: int)
    requires search != NULLKEY && InRange(h) && TableOk(h, ks, table[..]) && Agrees(arr[..], ks) && HasEmpty(table[..])
    requires hc == h(search, table.Length) && hc < table.Length && table[hc] != EMPTY && ks[table[hc]] != search
    ensures c >= 0 ==> c < table.Length && table[c] != EMPTY && ks[table[c]] == search
    ensures c < 0 ==> c == -1 && search !in ks
  {
    hide TableOk, ProbedInVain, InRange, HasEmpty, Agrees, Ahead;
    ghost var t := table[..];
    ProbeStarts(h, ks, t, hc, search);
    EntriesInUse(h, ks, t);
    ghost var z :| 0 <= z < |t| && t[z] == EMPTY;
    c := Next(hc, table.Length);
    while true
      invariant 0 <= c < |t| && t == table[..]
      invariant ProbedInVain(t, ks, hc, c, search)
      decreases Ahead(c, z, |t|)
    {
      if table[c] == EMPTY {
        AbsentAfterProbe(h, ks, t, search, c);
        return -1;
      }
      ProbedCell(t, ks, arr[..], hc, c, search);
      if search == arr[table[c]].key {
        return;
      }
      ProbeOn(t, ks, hc, c, search);
      AheadSome(Next(c, table.Length), z, table.Length);
      c := Next(c, table.Length);
    }
  }

  /** Records that key is stored at pos. */
  method InsertHash(h: HashKey, key: int, pos: nat, table: array<int>, ghost ks: seq<int>)
    requires InRange(h) && TableOk(h, ks, table[..]) && HasEmpty(table[..])
    requires key != NULLKEY && pos < |ks| && ks[pos] == NULLKEY
    modifies table
    ensures TableOk(h, ks[pos := key], table[..])
  {
    var hc := h(key, table.Length);
    if table[hc] != EMPTY {
      hc := ProbeLocation(hc, table);
    }
    InsertKeeps(h, ks, table[..], pos, key, hc);
    ghost var was := table[..];
    table[hc] := pos;
    assert table[..] == was[hc := pos];
  }

  lemma HomeUsed(h: HashKey, ks: seq<int>, table: seq<int>, s: int)
    requires TableOk(h, ks, table) && InRange(h) && 0 <= s < |ks| && ks[s] != NULLKEY
    ensures table[h(ks[s], |table|)] != EMPTY
  {
    assert HasCell(table, s);
    var d :| 0 <= d < |table| && table[d] == s;
    assert Reachable(h, ks, table, d);
    assert d != h(ks[s], |table|) ==> OnPath(h(ks[s], |table|), h(ks[s], |table|), d);
  }

  /** Redirects the entry of a key that moves from oldpos to the free slot newpos. */
  method UpdateHash(h: HashKey, key: int, oldpos: nat, newpos: nat, arr: array<Pair>, table: array<int>,
                    ghost ks: seq<int>)
    requires InRange(h) && TableOk(h, ks, table[..]) && HasEmpty(table[..]) && Agrees(arr[..], ks)
    requires oldpos < |ks| && newpos < |ks| && ks[oldpos] == key != NULLKEY && ks[newpos] == NULLKEY
    requires forall s :: 0 <= s < |ks| && ks[s] == key ==> s == oldpos
    modifies table
    ensures TableOk(h, ks[newpos := key][oldpos := NULLKEY], table[..])
  {
    var hc: int := h(key, table.Length);
    HomeUsed(h, ks, table[..], oldpos);
    if table[hc] != EMPTY && oldpos != table[hc] {
      hc := FindProbedLocation(key, hc, arr, table, h, ks);
    }
    MoveKeeps(h, ks, table[..], oldpos, newpos, hc);
    ghost var was := table[..];
    table[hc] := newpos;
    assert table[..] == was[hc := newpos];
  }

  lemma ClusterIsRun(table: seq<int>, hc: int, start: int, end: int)
    requires 0 <= hc < |table| && 0 <= start < |table| && 0 <= end < |table| && table[hc] != EMPTY
    requires PathFull(table, start, hc) && table[Prev(start, |table|)] == EMPTY
    requires PathFull(table, hc, Next(end, |table|)) && table[Next(end, |table|)] == EMPTY && table[end] != EMPTY
    ensures var cl := Cluster(start, end, |table|); cl.Valid(table) && cl.Has(hc)
  {
  }

  method FindStart(hc: nat, table: array<int>) returns (start: nat)
    requires hc < table.Length && table[hc] != EMPTY && HasEmpty(table[..])
    ensures start < table.Length && PathFull(table[..], start, hc) && table[Prev(start, table.Length)] == EMPTY
  {
    ghost var z :| 0 <= z < table.Length && table[..][z] == EMPTY;
    var i: int := hc;
    while true
      invariant 0 <= i < table.Length && table[i] != EMPTY && PathFull(table[..], i, hc)
      decreases Ahead(z, i, table.Length)
    {
      i := Prev(i, table.Length);
      if table[i] == EMPTY {
        start := Next(i, table.Length);
        break;
      }
    }
  }

  method FindEnd(hc: nat, table: array<int>) returns (end: nat)
    requires hc < table.Length && table[hc] != EMPTY && HasEmpty(table[..])
    ensures end < table.Length && table[end] != EMPTY
    ensures PathFull(table[..], hc, Next(end, table.Length)) && table[Next(end, table.Length)] == EMPTY
  {
    ghost var z :| 0 <= z < table.Length && table[..][z] == EMPTY;
    var i: int := hc;
    while true
      invariant 0 <= i < table.Length && table[i] != EMPTY && PathFull(table[..], hc, i)
      decreases Ahead(i, z, table.Length)
    {
      PathExtends(table[..], hc, i);
      i := Next(i, table.Length);
      if table[i] == EMPTY {
        end := Prev(i, table.Length);
        break;
      }
    }
  }

  /** The cluster around the used cell hc: backward to the first empty cell, then forward to the next. */
  method FindCluster(hc: nat, table: array<int>) returns (start: nat, end: nat)
    requires hc < table.Length && table[hc] != EMPTY && HasEmpty(table[..])
    ensures start < table.Length && end < table.Length
    ensures var cl := Cluster(start, end, table.Length); cl.Valid(table[..]) && cl.Has(hc)
  {
    start := FindStart(hc, table);
    end := FindEnd(hc, table);
    ClusterIsRun(table[..], hc, start, end);
  }

  /** What is left of the scan after hc. */
  function ToScan(cl: Cluster, hc: int): int {
    cl.Rank(cl.end) - cl.Rank(hc)
  }

  /** A deletion in progress, with what it started from. */
  ghost predicate Deleting(h: HashKey, ks: seq<int>, table: seq<int>, cl: Cluster, box: int, hc: int, ks0: seq<int>,
                           was: seq<int>) {
    && Shifting(h, ks, was, table, cl, box, hc)
    && CellsOk(h, ks0, was) && |ks0| == |ks|
    && forall c :: 0 <= c < |was| && !cl.Has(c) && was[c] != EMPTY ==> ks[was[c]] == ks0[was[c]]
  }

  lemma TableEntries(h: HashKey, ks: seq<int>, table: seq<int>)
    requires TableOk(h, ks, table)
    ensures Entries(ks, table) && CellsOk(h, ks, table)
  {
  }

  /** No other cell's key is touched when the slot of one cell is emptied. */
  lemma KeysElsewhere(h: HashKey, ks: seq<int>, table: seq<int>, hc: nat)
    requires CellsOk(h, ks, table) && hc < |table| && table[hc] != EMPTY
    ensures 0 <= table[hc] < |ks|
    ensures forall c :: 0 <= c < |table| && c != hc && table[c] != EMPTY ==>
              0 <= table[c] < |ks| && ks[table[hc] := NULLKEY][table[c]] == ks[table[c]]
  {
  }

  lemma StillIn(cl: Cluster, table: seq<int>, hc: nat)
    requires cl.Valid(table) && cl.Has(hc)
    ensures hc < |table| && table[hc] != EMPTY
  {
  }

  lemma DeletionStarts(h: HashKey, ks0: seq<int>, table: seq<int>, cl: Cluster, hc: nat)
    requires TableOk(h, ks0, table) && InRange(h) && cl.Valid(table) && cl.Has(hc)
    ensures Deleting(h, ks0[table[hc] := NULLKEY], table[hc := EMPTY], cl, hc, hc, ks0, table)
  {
    hide Scanned, Entries, InRange, Cluster.Valid, HasCell, Used, Reachable;
    StillIn(cl, table, hc);
    TableEntries(h, ks0, table);
    ScanStarts(h, ks0, table, cl, hc);
    EntriesRemoved(ks0, table, hc);
    KeysElsewhere(h, ks0, table, hc);
  }

  lemma NextInside(cl: Cluster, before: int, c: int)
    requires 0 <= cl.start < cl.n && 0 <= cl.end < cl.n && Next(cl.end, cl.n) != cl.start
    requires cl.Has(before) && c == Next(before, cl.n)
    ensures !cl.Has(Next(cl.end, cl.n))
    ensures c != Next(cl.end, cl.n) ==> cl.Has(c) && ToScan(cl, before) > ToScan(cl, c) >= 0
  {
  }

  /** The scan is still inside the cluster while it meets used cells. */
  lemma InCluster(was: seq<int>, table: seq<int>, cl: Cluster, before: int, c: int)
    requires cl.Valid(was) && |was| == |table| && cl.Has(before) && c == Next(before, cl.n) && table[c] != EMPTY
    requires forall d :: 0 <= d < |table| && !cl.Has(d) ==> table[d] == was[d]
    ensures cl.Has(c) && ToScan(cl, before) > ToScan(cl, c) >= 0
  {
    NextInside(cl, before, c);
  }

  lemma DeletionSkips(h: HashKey, ks: seq<int>, table: seq<int>, cl: Cluster, box: nat, hc: nat, ks0: seq<int>,
                      was: seq<int>, c: nat)
    requires Deleting(h, ks, table, cl, box, hc, ks0, was) && Scanned(h, ks, table, cl, box, c)
    ensures Deleting(h, ks, table, cl, box, c, ks0, was)
  {
  }

  lemma DeletionMoves(h: HashKey, ks: seq<int>, table: seq<int>, cl: Cluster, box: nat, hc: nat, ks0: seq<int>,
                      was: seq<int>, c: nat)
    requires Deleting(h, ks, table, cl, box, hc, ks0, was) && 0 <= box < |table| && cl.Has(c) && c < |table|
             && table[c] != EMPTY
    requires Scanned(h, ks, table[box := table[c]][c := EMPTY], cl, c, c)
    ensures Deleting(h, ks, table[box := table[c]][c := EMPTY], cl, c, c, ks0, was)
  {
    hide Entries, Cluster.Valid, CellsOk;
    EntriesMoved(ks, table, box, c);
  }

  /** What one round of a deletion finds in the cell after hc, and what it leaves. */
  lemma DeletionRound(h: HashKey, ks: seq<int>, table: seq<int>, cl: Cluster, box: nat, hc: nat, ks0: seq<int>,
                      was: seq<int>, c: nat)
    requires Deleting(h, ks, table, cl, box, hc, ks0, was) && InRange(h) && c == Next(hc, cl.n)
    requires box < |table| == |ks| && c < |table| == cl.n && table[c] != EMPTY
    ensures 0 <= table[c] < |ks| && ks[table[c]] != NULLKEY && ToScan(cl, hc) > ToScan(cl, c) >= 0
    ensures var a := h(ks[table[c]], |table|);
            if a != c && AboveQ(cl.start, cl.end, a, box, cl.n)
            then Deleting(h, ks, table[box := table[c]][c := EMPTY], cl, c, c, ks0, was)
            else Deleting(h, ks, table, cl, box, c, ks0, was)
  {
    InCluster(was, table, cl, hc, c);
    ScanRound(h, ks, table, cl, box, hc, c);
    var a := HomeOf(h, ks, table, c);
    AboveQIsOrder(cl, was, a, box);
    if a != c && cl.Rank(a) <= cl.Rank(box) {
      DeletionMoves(h, ks, table, cl, box, hc, ks0, was, c);
    } else {
      DeletionSkips(h, ks, table, cl, box, hc, ks0, was, c);
    }
  }

  lemma NextInTable(c: int, n: int)
    requires 0 <= c < n
    ensures 0 <= Next(c, n) < n
  {
  }

  lemma DeletionSizes(h: HashKey, ks: seq<int>, table: seq<int>, cl: Cluster, box: int, hc: int, ks0: seq<int>,
                      was: seq<int>)
    requires Deleting(h, ks, table, cl, box, hc, ks0, was)
    ensures |table| == |ks| == cl.n
  {
  }

  lemma AgreesAt(arr: seq<Pair>, ks: seq<int>, s: int)
    requires Agrees(arr, ks) && 0 <= s < |ks| && ks[s] != NULLKEY
    ensures |arr| == |ks| && arr[s].key == ks[s]
  {
  }

  lemma DeletionEnds(h: HashKey, ks: seq<int>, table: seq<int>, cl: Cluster, box: nat, hc: nat, ks0: seq<int>,
                     was: seq<int>, c: nat)
    requires Deleting(h, ks, table, cl, box, hc, ks0, was) && InRange(h) && cl.n == |table|
    requires c == Next(hc, cl.n) && c < |table| && table[c] == EMPTY
    ensures TableOk(h, ks, table)
  {
    hide CellsOk, TableOk, Shifting;
    ShiftEnds(h, ks, was, table, cl, box, hc, ks0);
  }

  /**
    One round of a deletion: steps to the next cell, and moves it back into the emptied one if its key's path crosses
    that. It is over when it meets an empty cell.
   */
  method RehashNext(h: HashKey, hc0: nat, box0: nat, start: nat, end: nat, arr: array<Pair>, table: array<int>,
                    ghost ks: seq<int>, ghost ks0: seq<int>, ghost was: seq<int>)
    returns (over: bool, hc: nat, box: nat)
    requires InRange(h) && hc0 < table.Length && box0 < table.Length && Agrees(arr[..], ks)
    requires var cl := Cluster(start, end, table.Length); Deleting(h, ks, table[..], cl, box0, hc0, ks0, was)
    modifies table
    ensures hc < table.Length && box < table.Length
    ensures over ==> TableOk(h, ks, table[..])
    ensures var cl := Cluster(start, end, table.Length);
            !over ==> Deleting(h, ks, table[..], cl, box, hc, ks0, was) && ToScan(cl, hc0) > ToScan(cl, hc) >= 0
  {
    hide *;
    ghost var now, cl := table[..], Cluster(start, end, table.Length);
    NextInTable(hc0, table.Length);
    DeletionSizes(h, ks, now, cl, box0, hc0, ks0, was);
    over, hc, box := false, Next(hc0, table.Length), box0;
    var idx := table[hc];
    assert idx == now[hc];
    if idx == EMPTY {
      DeletionEnds(h, ks, now, cl, box, hc0, ks0, was, hc);
      return true, hc, box;
    }
    DeletionRound(h, ks, now, cl, box, hc0, ks0, was, hc);
    AgreesAt(arr[..], ks, idx);
    var birth := h(arr[idx].key, table.Length);
    if birth == hc {
      return;
    }
    if AboveQ(start, end, birth, box, table.Length) {
      table[box] := idx;
      table[hc] := EMPTY;
      assert table[..] == now[box := idx][hc := EMPTY];
      box := hc;
    }
  }

  /**
    Deletes the entry in cell hc, whose slot the array no longer uses. The cells after it are scanned in order, and each
    one whose key could no longer be reached is moved back into the cell that was emptied last.
   */
  method RehashCluster(h: HashKey, hc0: nat, arr: array<Pair>, table: array<int>, ghost ks0: seq<int>)
    requires InRange(h) && TableOk(h, ks0, table[..]) && HasEmpty(table[..])
    requires hc0 < table.Length && table[hc0] != EMPTY && Agrees(arr[..], ks0[table[hc0] := NULLKEY])
    modifies table
    ensures TableOk(h, ks0[old(table[hc0]) := NULLKEY], table[..])
  {
    hide *;
    ghost var was := table[..];
    EntriesInUse(h, ks0, was);
    var start, end := FindCluster(hc0, table);
    ghost var cl, ks := Cluster(start, end, table.Length), ks0[was[hc0] := NULLKEY];
    DeletionStarts(h, ks0, was, cl, hc0);
    var hc: nat, nullbox: nat, over := hc0, hc0, false;
    table[hc] := EMPTY;
    assert table[..] == was[hc := EMPTY];
    while !over
      invariant hc < table.Length && nullbox < table.Length
      invariant if over then TableOk(h, ks, table[..]) else Deleting(h, ks, table[..], cl, nullbox, hc, ks0, was)
      decreases !over, ToScan(cl, hc)
    {
      over, hc, nullbox := RehashNext(h, hc, nullbox, start, end, arr, table, ks, ks0, was);
    }
  }
}
