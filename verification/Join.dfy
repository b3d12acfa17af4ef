/** Joining the records of several hosts by key, each host's records being in order. */
module Join {
  import opened Merge

  /** What an unset record holds. */
  const UNSET := Rec(0, 0)

  /** What stands for a host between calls: its record is to be fetched, is at hand, or there is none. */
  const FETCH := 1
  const READY := 0
  const DONE := -1

  /** How many records no call has joined yet. */
  ghost function Left(hosts: seq<seq<Rec>>, starts: seq<nat>, n: nat): nat
    requires |starts| == |hosts| && n <= |hosts|
  {
    if n == 0 then 0
    else Left(hosts, starts, n - 1) + if starts[n - 1] <= |hosts[n - 1]| then |hosts[n - 1]| - starts[n - 1] else 0
  }

  ghost predicate Heads(hosts: seq<seq<Rec>>, starts: seq<nat>, i: nat, k: int)
    requires |starts| == |hosts| && i < |hosts|
  {
    starts[i] < |hosts[i]| && hosts[i][starts[i]].key == k
  }

  ghost function HeadOf(hosts: seq<seq<Rec>>, starts: seq<nat>, k: int, i: nat): seq<Rec>
    requires |starts| == |hosts| && i < |hosts|
  {
    if Heads(hosts, starts, i, k) then [hosts[i][starts[i]]] else []
  }

  /** The first records left of the hosts that have one of key k, in order of hosts. */
  ghost function Group(hosts: seq<seq<Rec>>, starts: seq<nat>, k: int, n: nat): seq<Rec>
    requires |starts| == |hosts| && n <= |hosts|
  {
    if n == 0 then []
    else Group(hosts, starts, k, n - 1) + HeadOf(hosts, starts, k, n - 1)
  }

  /** Where the hosts start once that group is taken. */
  ghost function After(hosts: seq<seq<Rec>>, starts: seq<nat>, k: int): (r: seq<nat>)
    requires |starts| == |hosts|
    ensures |r| == |hosts|
  {
    seq(|hosts|, i requires 0 <= i < |hosts| => if Heads(hosts, starts, i, k) then starts[i] + 1 else starts[i])
  }

  /** Taking a group leaves fewer records. */
  lemma {:induction false} FewerLeft(hosts: seq<seq<Rec>>, starts: seq<nat>, k: int, n: nat)
    requires |starts| == |hosts| && n <= |hosts|
    ensures Left(hosts, After(hosts, starts, k), n) <= Left(hosts, starts, n)
    ensures (exists i :: 0 <= i < n && Heads(hosts, starts, i, k)) ==>
              Left(hosts, After(hosts, starts, k), n) < Left(hosts, starts, n)
  {
    if n > 0 {
      FewerLeft(hosts, starts, k, n - 1);
    }
  }

  /** The records of a host that have key k, in order. */
  function WithKey(h: seq<Rec>, k: int): seq<Rec> {
    if h == [] then [] else WithKey(h[..|h| - 1], k) + if h[|h| - 1].key == k then [h[|h| - 1]] else []
  }

  /** The records of all hosts that have key k, in order of hosts. */
  function AllWithKey(hosts: seq<seq<Rec>>, k: int): seq<Rec> {
    if hosts == [] then [] else AllWithKey(hosts[..|hosts| - 1], k) + WithKey(hosts[|hosts| - 1], k)
  }

  lemma NotBefore(h: seq<Rec>, k: int)
    requires Increasing(h) && h != [] && h[|h| - 1].key == k
    ensures !HasKey(h[..|h| - 1], k)
  {
    var t := h[..|h| - 1];
    forall i | 0 <= i < |t|
      ensures t[i].key != k
    {
      assert t[i] == h[i];
    }
  }

  lemma {:induction false} WithKeyIs(h: seq<Rec>, k: int, p: nat)
    requires Increasing(h)
    ensures !HasKey(h, k) ==> WithKey(h, k) == []
    ensures p < |h| && h[p].key == k ==> WithKey(h, k) == [h[p]]
  {
    if h != [] {
      var t := h[..|h| - 1];
      WithKeyIs(t, k, p);
      if h[|h| - 1].key == k {
        NotBefore(h, k);
        WithKeyIs(t, k, 0);
      } else if HasKey(t, k) {
        var i :| 0 <= i < |t| && t[i].key == k;
        assert h[i].key == k;
      }
    }
  }

  /** Keys up to where the host starts are below k, the others are not. */
  ghost predicate Split(hosts: seq<seq<Rec>>, starts: seq<nat>, i: nat, k: int)
    requires |starts| == |hosts| && i < |hosts|
  {
    && starts[i] <= |hosts[i]|
    && (forall p :: 0 <= p < starts[i] ==> hosts[i][p].key < k)
    && (forall p :: starts[i] <= p < |hosts[i]| ==> hosts[i][p].key >= k)
  }

  /** Every host's keys strictly increase. */
  ghost predicate AllSorted(hosts: seq<seq<Rec>>) {
    forall i :: 0 <= i < |hosts| ==> Increasing(hosts[i])
  }

  lemma HeadIsAll(hosts: seq<seq<Rec>>, starts: seq<nat>, k: int, i: nat)
    requires |starts| == |hosts| && i < |hosts| && AllSorted(hosts) && Split(hosts, starts, i, k)
    ensures HeadOf(hosts, starts, k, i) == WithKey(hosts[i], k)
  {
    var h := hosts[i];
    assert Increasing(h);
    WithKeyIs(h, k, starts[i]);
    if !Heads(hosts, starts, i, k) {
      forall p | 0 <= p < |h|
        ensures h[p].key != k
      {
      }
    }
  }

  /** With all smaller keys taken, a group has every record of its key. */
  lemma {:induction false} GroupIsAll(hosts: seq<seq<Rec>>, starts: seq<nat>, k: int, n: nat)
    requires |starts| == |hosts| && n <= |hosts| && AllSorted(hosts) && forall i :: 0 <= i < n ==>
               Split(hosts, starts, i, k)
    ensures Group(hosts, starts, k, n) == AllWithKey(hosts[..n], k)
  {
    if n > 0 {
      GroupIsAll(hosts, starts, k, n - 1);
      assert hosts[..n][..n - 1] == hosts[..n - 1];
      HeadIsAll(hosts, starts, k, n - 1);
    }
  }

  /** k is the least key left. */
  ghost predicate LeastKey(hosts: seq<seq<Rec>>, starts: seq<nat>, k: int)
    requires |starts| == |hosts|
  {
    && (exists i :: 0 <= i < |hosts| && Heads(hosts, starts, i, k))
    && (forall i :: 0 <= i < |hosts| && starts[i] < |hosts[i]| ==> hosts[i][starts[i]].key >= k)
  }

  ghost predicate AllAbove(hosts: seq<seq<Rec>>, starts: seq<nat>, k: int)
    requires |starts| == |hosts|
  {
    forall i :: 0 <= i < |hosts| && starts[i] < |hosts[i]| ==> hosts[i][starts[i]].key > k
  }

  lemma AboveAfter(hosts: seq<seq<Rec>>, starts: seq<nat>, k: int)
    requires |starts| == |hosts| && AllSorted(hosts) && LeastKey(hosts, starts, k)
    ensures AllAbove(hosts, After(hosts, starts, k), k)
  {
    var after := After(hosts, starts, k);
    forall i | 0 <= i < |hosts| && after[i] < |hosts[i]|
      ensures hosts[i][after[i]].key > k
    {
      assert Increasing(hosts[i]);
    }
  }

  ghost predicate HostOk(host: seq<Rec>, off: nat, go: int, kv: Rec) {
    && off <= |host| && DONE <= go <= FETCH
    && (go == READY ==> off >= 1 && kv == host[off - 1])
    && (go == DONE ==> off == |host|)
  }

  /** The first record of each host that has not been joined. */
  ghost function StartsOf(memoff: seq<nat>, goNext: seq<int>): (r: seq<nat>)
    requires |goNext| == |memoff|
    ensures |r| == |memoff|
  {
    seq(|memoff|, i requires 0 <= i < |memoff| =>
      if goNext[i] == READY && memoff[i] >= 1 then memoff[i] - 1 else memoff[i])
  }

  /** A record at hand is the first that its host has left. */
  lemma HeadAtHand(host: seq<Rec>, off: nat, go: int, kv: Rec)
    requires HostOk(host, off, go, kv) && go != FETCH
    ensures go == READY ==> 1 <= off <= |host| && host[off - 1] == kv
    ensures go != READY ==> off == |host|
  {
  }

  lemma {:induction false} AllDone(go: seq<int>)
    ensures multiset(go)[DONE] == |go| ==> forall i :: 0 <= i < |go| ==> go[i] == DONE
    ensures multiset(go)[DONE] <= |go|
  {
    if go != [] {
      AllDone(go[1..]);
      assert go == [go[0]] + go[1..];
    }
  }

  lemma {:induction false} GroupSome(hosts: seq<seq<Rec>>, starts: seq<nat>, k: int, n: nat)
    requires |starts| == |hosts| && n <= |hosts| && exists i :: 0 <= i < n && Heads(hosts, starts, i, k)
    ensures Group(hosts, starts, k, n) != []
  {
    if !Heads(hosts, starts, n - 1, k) {
      GroupSome(hosts, starts, k, n - 1);
    }
  }

  class JoinReader {
    var memoff: seq<nat>
    var goNext: seq<int>
    var kv: seq<Rec>
    var endcnt: nat

    const hosts: seq<seq<Rec>>

    ghost predicate Valid()
      reads this
    {
      && |goNext| == |memoff| == |kv| == |hosts|
      && (forall i :: 0 <= i < |hosts| ==> HostOk(hosts[i], memoff[i], goNext[i], kv[i]))
      && endcnt == multiset(goNext)[DONE]
    }

    ghost function Starts(): (r: seq<nat>)
      reads this
      requires Valid()
      ensures |r| == |hosts|
    {
      StartsOf(memoff, goNext)
    }

    constructor (streams: seq<seq<Rec>>)
      ensures Valid() && hosts == streams && Starts() == seq(|streams|, _ => 0)
    {
      hosts := streams;
      memoff, goNext, kv, endcnt := seq(|streams|, _ => 0), seq(|streams|, _ => FETCH), seq(|streams|, _ => UNSET), 0;
    }

    /** Fetches the next record of a host, if it has one. */
    method GetNextDataOfHost(i: nat) returns (got: bool)
      requires Valid() && i < |hosts| && goNext[i] == FETCH
      modifies this`memoff, this`goNext, this`kv
      ensures |goNext| == |memoff| == |kv| == |hosts|
      ensures memoff == old(memoff)[i := memoff[i]] && kv == old(kv)[i := kv[i]]
      ensures goNext == old(goNext)[i := goNext[i]] && goNext[i] == (if got then READY else DONE)
      ensures HostOk(hosts[i], memoff[i], goNext[i], kv[i]) && StartsOf(memoff, goNext) == old(Starts())
    {
      if memoff[i] >= |hosts[i]| {
        goNext := goNext[i := DONE];
        return false;
      }
      kv := kv[i := hosts[i][memoff[i]]];
      memoff := memoff[i := memoff[i] + 1];
      goNext := goNext[i := READY];
      return true;
    }

    /** Brings one host's next record to hand. */
    method RefillHost(i: nat)
      requires Valid() && i < |hosts|
      modifies this
      ensures Valid() && Starts() == old(Starts()) && goNext == old(goNext)[i := goNext[i]] && goNext[i] != FETCH
    {
      if goNext[i] == FETCH {
        var got := GetNextDataOfHost(i);
        if !got {
          endcnt := endcnt + 1;
        }
      }
    }

    /** Brings every host's next record to hand, and finds the first host that has one. */
    method Refill() returns (minpos: int)
      requires Valid()
      modifies this
      ensures Valid() && Starts() == old(Starts())
      ensures forall i :: 0 <= i < |hosts| ==> goNext[i] != FETCH
      ensures -1 <= minpos < |hosts| && (minpos >= 0 ==> goNext[minpos] == READY)
      ensures minpos < 0 ==> forall i :: 0 <= i < |hosts| ==> goNext[i] == DONE
    {
      hide StartsOf;
      minpos := -1;
      var i := 0;
      while i < |hosts|
        invariant 0 <= i <= |hosts| && Valid() && Starts() == old(Starts())
        invariant forall j :: 0 <= j < i ==> goNext[j] != FETCH
        invariant -1 <= minpos < i && (minpos >= 0 ==> goNext[minpos] == READY)
        invariant minpos < 0 ==> forall j :: 0 <= j < i ==> goNext[j] == DONE
      {
        RefillHost(i);
        if goNext[i] == READY && minpos < 0 {
          minpos := i;
        }
        i := i + 1;
      }
    }

    /** The host whose record at hand has the least key. */
    method Least(start: nat) returns (minpos: nat)
      requires Valid() && start < |hosts| && goNext[start] == READY && forall i :: 0 <= i < |hosts| ==>
                 goNext[i] != FETCH
      ensures minpos < |hosts| && goNext[minpos] == READY
      ensures forall i :: 0 <= i < |hosts| && goNext[i] != DONE ==> kv[i].key >= kv[minpos].key
    {
      minpos := start;
      var i := 0;
      while i < |hosts|
        invariant 0 <= i <= |hosts| && minpos < |hosts| && goNext[minpos] == READY
        invariant forall j :: 0 <= j < i && goNext[j] != DONE ==> kv[j].key >= kv[minpos].key
      {
        if goNext[i] != DONE && kv[i].key < kv[minpos].key {
          minpos := i;
        }
        i := i + 1;
      }
    }

    /** The hosts before i have given up their record at hand if its key is key. */
    ghost predicate Taking(starts: seq<nat>, key: int, i: nat)
      reads this
      requires |starts| == |hosts|
    {
      && Valid() && i <= |hosts|
      && (forall j :: i <= j < |hosts| ==> goNext[j] != FETCH)
      && forall j :: 0 <= j < |hosts| ==> Starts()[j] == if j < i then After(hosts, starts, key)[j] else starts[j]
    }

    /** Takes the record at hand of one host if it has the least key. */
    method TakeFrom(i: nat, key: int, ghost starts: seq<nat>) returns (taken: seq<Rec>)
      requires |starts| == |hosts| && i < |hosts| && Taking(starts, key, i)
      modifies this`goNext
      ensures Taking(starts, key, i + 1)
      ensures taken == HeadOf(hosts, starts, key, i)
    {
      HeadAtHand(hosts[i], memoff[i], goNext[i], kv[i]);
      assert Starts()[i] == starts[i];
      ghost var was := Starts();
      if goNext[i] != DONE && kv[i].key == key {
        taken := [kv[i]];
        goNext := goNext[i := FETCH];
        assert Starts() == was[i := was[i] + 1];
      } else {
        taken := [];
      }
    }

    /** Takes the records at hand that have the least key. */
    method Take(key: int) returns (group: seq<Rec>)
      requires Valid() && forall i :: 0 <= i < |hosts| ==> goNext[i] != FETCH
      modifies this`goNext
      ensures Valid() && Starts() == After(hosts, old(Starts()), key)
      ensures group == Group(hosts, old(Starts()), key, |hosts|)
    {
      hide HeadOf, After, HostOk, StartsOf;
      group := [];
      ghost var starts := Starts();
      var i := 0;
      while i < |hosts|
        invariant 0 <= i <= |hosts| && Taking(starts, key, i)
        invariant group == Group(hosts, starts, key, i)
      {
        var taken := TakeFrom(i, key, starts);
        group := group + taken;
        i := i + 1;
      }
    }

    /** With nothing to fetch, a host is done exactly if nothing of it is left. */
    lemma AtHand()
      requires Valid() && forall i :: 0 <= i < |hosts| ==> goNext[i] != FETCH
      ensures forall i :: 0 <= i < |hosts| ==> (goNext[i] == DONE <==> Starts()[i] == |hosts[i]|)
    {
    }

    lemma LeastAtHand(minpos: nat)
      requires Valid() && (forall i :: 0 <= i < |hosts| ==> goNext[i] != FETCH) && minpos < |hosts|
               && goNext[minpos] == READY
      requires forall i :: 0 <= i < |hosts| && goNext[i] != DONE ==> kv[i].key >= kv[minpos].key
      ensures LeastKey(hosts, Starts(), kv[minpos].key)
    {
      assert Heads(hosts, Starts(), minpos, kv[minpos].key);
    }

    /** Joins once: hands out all records that have the least key left, or nothing when none is left. */
    method JoinReadNext() returns (group: seq<Rec>, ghost key: int)
      requires Valid()
      modifies this
      ensures Valid()
      ensures group == [] <==> forall i :: 0 <= i < |hosts| ==> old(Starts())[i] == |hosts[i]|
      ensures group == [] ==> Starts() == old(Starts())
      ensures group != [] ==> LeastKey(hosts, old(Starts()), key) && Starts() == After(hosts, old(Starts()), key)
                              && group == Group(hosts, old(Starts()), key, |hosts|)
    {
      hide Heads, Group, After;
      var minpos := Refill();
      key := 0;
      AllDone(goNext);
      AtHand();
      if endcnt == |hosts| || minpos < 0 {
        return [], key;
      }
      minpos := Least(minpos);
      var k := kv[minpos].key;
      key := k;
      LeastAtHand(minpos);
      group := Take(k);
      GroupSome(hosts, old(Starts()), k, |hosts|);
    }
  }

  /**
    What has been taken so far: of each host, the keys up to the last one handed out, and all of them are among keys.
   */
  ghost predicate Taken(hosts: seq<seq<Rec>>, starts: seq<nat>, keys: seq<int>) {
    && |starts| == |hosts|
    && (forall i :: 0 <= i < |hosts| ==> starts[i] <= |hosts[i]|)
    && (forall i, p :: 0 <= i < |hosts| && 0 <= p < starts[i] ==>
      hosts[i][p].key in keys && hosts[i][p].key <= keys[|keys| - 1])
    && (keys != [] ==> AllAbove(hosts, starts, keys[|keys| - 1]))
  }

  lemma TakenMore(hosts: seq<seq<Rec>>, starts: seq<nat>, keys: seq<int>, k: int)
    requires Taken(hosts, starts, keys) && AllSorted(hosts) && LeastKey(hosts, starts, k)
    ensures Taken(hosts, After(hosts, starts, k), keys + [k])
    ensures keys != [] ==> keys[|keys| - 1] < k
    ensures forall i :: 0 <= i < |hosts| ==> Split(hosts, starts, i, k)
  {
    AboveAfter(hosts, starts, k);
    var all := keys + [k];
    assert forall x :: x in keys ==> x in all;
    assert all[|keys|] == k;
    forall i | 0 <= i < |hosts|
      ensures Split(hosts, starts, i, k)
    {
      assert Increasing(hosts[i]);
    }
  }

  lemma TakenAll(hosts: seq<seq<Rec>>, starts: seq<nat>, keys: seq<int>)
    requires Taken(hosts, starts, keys) && forall i :: 0 <= i < |hosts| ==> starts[i] == |hosts[i]|
    ensures forall i, p :: 0 <= i < |hosts| && 0 <= p < |hosts[i]| ==> hosts[i][p].key in keys
  {
  }

  lemma TakenNone(hosts: seq<seq<Rec>>, starts: seq<nat>)
    requires starts == seq(|hosts|, _ => 0)
    ensures Taken(hosts, starts, [])
  {
  }

  ghost predicate Ascend(keys: seq<int>) {
    forall g, h :: 0 <= g < h < |keys| ==> keys[g] < keys[h]
  }

  lemma AscendMore(keys: seq<int>, k: int)
    requires Ascend(keys) && (keys != [] ==> keys[|keys| - 1] < k)
    ensures Ascend(keys + [k])
  {
  }

  /** The key of a group. */
  function KeyOf(group: seq<Rec>): int {
    if group == [] then 0 else group[0].key
  }

  ghost predicate GroupsAre(hosts: seq<seq<Rec>>, groups: seq<seq<Rec>>, keys: seq<int>) {
    |keys| == |groups| && forall g :: 0 <= g < |groups| ==>
      groups[g] != [] && groups[g] == AllWithKey(hosts, keys[g]) && KeyOf(groups[g]) == keys[g]
  }

  lemma {:induction false} WithKeyHas(h: seq<Rec>, k: int)
    ensures forall r :: r in WithKey(h, k) ==> r.key == k
    ensures forall p :: 0 <= p < |h| && h[p].key == k ==> h[p] in WithKey(h, k)
  {
    if h != [] {
      WithKeyHas(h[..|h| - 1], k);
    }
  }

  lemma {:induction false} AllWithKeyHas(hosts: seq<seq<Rec>>, k: int)
    ensures forall r :: r in AllWithKey(hosts, k) ==> r.key == k
    ensures forall i, p :: 0 <= i < |hosts| && 0 <= p < |hosts[i]| && hosts[i][p].key == k ==>
              hosts[i][p] in AllWithKey(hosts, k)
  {
    if hosts != [] {
      AllWithKeyHas(hosts[..|hosts| - 1], k);
      WithKeyHas(hosts[|hosts| - 1], k);
    }
  }

  lemma GroupsMore(hosts: seq<seq<Rec>>, groups: seq<seq<Rec>>, keys: seq<int>, group: seq<Rec>, k: int)
    requires GroupsAre(hosts, groups, keys) && group != [] && group == AllWithKey(hosts, k)
    ensures GroupsAre(hosts, groups + [group], keys + [k])
  {
    AllWithKeyHas(hosts, k);
    assert group[0] in group;
  }

  ghost predicate InSome(groups: seq<seq<Rec>>, r: Rec) {
    exists g :: 0 <= g < |groups| && r in groups[g]
  }

  /** Every record of every host is in a group. */
  ghost predicate AllJoined(hosts: seq<seq<Rec>>, groups: seq<seq<Rec>>) {
    forall i, p :: 0 <= i < |hosts| && 0 <= p < |hosts[i]| ==> InSome(groups, hosts[i][p])
  }

  lemma JoinedAll(hosts: seq<seq<Rec>>, groups: seq<seq<Rec>>, keys: seq<int>)
    requires GroupsAre(hosts, groups, keys) && Ascend(keys)
    requires forall i, p :: 0 <= i < |hosts| && 0 <= p < |hosts[i]| ==> hosts[i][p].key in keys
    ensures AllJoined(hosts, groups)
    ensures forall g :: 0 <= g < |groups| ==> groups[g] != [] && groups[g] == AllWithKey(hosts, KeyOf(groups[g]))
    ensures forall g, h :: 0 <= g < h < |groups| ==> KeyOf(groups[g]) < KeyOf(groups[h])
  {
    forall i, p | 0 <= i < |hosts| && 0 <= p < |hosts[i]|
      ensures InSome(groups, hosts[i][p])
    {
      var g :| 0 <= g < |keys| && keys[g] == hosts[i][p].key;
      AllWithKeyHas(hosts, keys[g]);
      assert hosts[i][p] in groups[g];
    }
  }

  lemma AscendNone(hosts: seq<seq<Rec>>)
    ensures Ascend([]) && GroupsAre(hosts, [], [])
  {
  }

  lemma SomeHeads(hosts: seq<seq<Rec>>, starts: seq<nat>, k: int)
    requires |starts| == |hosts| && LeastKey(hosts, starts, k)
    ensures exists i :: 0 <= i < |hosts| && Heads(hosts, starts, i, k)
  {
  }

  /**
    Joins hosts whose keys increase: the groups' keys increase, every record is in a group, and a group has all
    records of its key.
   */
  method JoinAll(hosts: seq<seq<Rec>>) returns (groups: seq<seq<Rec>>)
    requires AllSorted(hosts)
    ensures forall g, h :: 0 <= g < h < |groups| ==> KeyOf(groups[g]) < KeyOf(groups[h])
    ensures forall g :: 0 <= g < |groups| ==> groups[g] != [] && groups[g] == AllWithKey(hosts, KeyOf(groups[g]))
    ensures AllJoined(hosts, groups)
  {
    hide *;
    var reader := new JoinReader(hosts);
    ghost var keys := [];
    groups := [];
    TakenNone(hosts, reader.Starts());
    AscendNone(hosts);
    assert hosts[..|hosts|] == hosts;
    while true
      invariant fresh(reader) && reader.Valid() && reader.hosts == hosts
      invariant GroupsAre(hosts, groups, keys) && Ascend(keys) && Taken(hosts, reader.Starts(), keys)
      decreases Left(hosts, reader.Starts(), |hosts|)
    {
      ghost var starts := reader.Starts();
      ghost var key;
      var group;
      group, key := reader.JoinReadNext();
      if group == [] {
        TakenAll(hosts, starts, keys);
        JoinedAll(hosts, groups, keys);
        break;
      }
      SomeHeads(hosts, starts, key);
      FewerLeft(hosts, starts, key, |hosts|);
      TakenMore(hosts, starts, keys, key);
      GroupIsAll(hosts, starts, key, |hosts|);
      AscendMore(keys, key);
      GroupsMore(hosts, groups, keys, group, key);
      groups, keys := groups + [group], keys + [key];
    }
  }
}
