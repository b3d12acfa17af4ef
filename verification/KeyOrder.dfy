/** The order of record keys. */
module KeyOrder {
  type Byte = b: int | 0 <= b < 256

  /** The bytes of a key; a key without storage is the empty sequence. */
  type Key = seq<Byte>

  const STAR: Byte := 42

  predicate Blank(k: Key) {
    k == [] || k[0] == 0
  }

  predicate Starred(k: Key) {
    k != [] && k[0] == STAR
  }

  /** The first n bytes of two keys compared: -1, 0 or 1. */
  function Memcmp(a: Key, b: Key, n: nat): int
    requires n <= |a| && n <= |b|
  {
    if n == 0 then 0
    else if a[0] != b[0] then (if a[0] < b[0] then -1 else 1)
    else Memcmp(a[1..], b[1..], n - 1)
  }

  /** Keys that may be compared: equally long, unless one of them is blank. */
  ghost predicate Comparable(a: Key, b: Key) {
    Blank(a) || Blank(b) || |a| == |b|
  }

  function CompareKeys(a: Key, b: Key): int
    requires Comparable(a, b)
  {
    if Blank(a) then (if Blank(b) then 0 else -1)
    else if Blank(b) then 1
    else if a[0] == STAR && b[0] == STAR then 0
    else Memcmp(a, b, |a|)
  }

  lemma {:induction false} MemcmpTurned(a: Key, b: Key, n: nat)
    requires n <= |a| && n <= |b|
    ensures Memcmp(a, b, n) == -Memcmp(b, a, n)
    ensures Memcmp(a, b, n) == 0 <==> a[..n] == b[..n]
  {
    if n > 0 {
      MemcmpTurned(a[1..], b[1..], n - 1);
      assert a[..n] == [a[0]] + a[1..][..n - 1] && b[..n] == [b[0]] + b[1..][..n - 1];
    }
  }

  lemma {:induction false} MemcmpTransitive(a: Key, b: Key, c: Key, n: nat)
    requires n <= |a| && n <= |b| && n <= |c| && Memcmp(a, b, n) <= 0 && Memcmp(b, c, n) <= 0
    ensures Memcmp(a, c, n) <= 0
  {
    if n > 0 && a[0] == b[0] == c[0] {
      MemcmpTransitive(a[1..], b[1..], c[1..], n - 1);
    }
  }

  /** Either of two keys is at or below the other, and both only when they count as the same key. */
  lemma OrderIsTotal(a: Key, b: Key)
    requires Comparable(a, b)
    ensures CompareKeys(a, b) == -CompareKeys(b, a)
    ensures CompareKeys(a, b) == 0 <==> (Blank(a) && Blank(b)) || (Starred(a) && Starred(b)) || (!Blank(a) && a == b)
  {
    if !Blank(a) && !Blank(b) {
      MemcmpTurned(a, b, |a|);
      assert a[..|a|] == a && b[..|b|] == b;
    }
  }

  /** The first i bytes of two runs agree, and the ones after them do not. */
  ghost predicate DifferFirst(a: Key, b: Key, i: nat) {
    i < |a| && i < |b| && a[i] != b[i] && forall k :: 0 <= k < i ==> a[k] == b[k]
  }

  /** The first byte that differs decides, wherever it is. */
  lemma {:induction false} MemcmpDecides(a: Key, b: Key, n: nat, i: nat)
    requires n <= |a| && n <= |b| && i < n && DifferFirst(a, b, i)
    ensures Memcmp(a, b, n) == if a[i] < b[i] then -1 else 1
  {
    if i > 0 {
      MemcmpDecides(a[1..], b[1..], n - 1, i - 1);
    }
  }

  /** A key without bytes, or whose first byte is 0, is below every other key. */
  lemma BlankIsLeast(a: Key, b: Key)
    requires (a == [] || a[0] == 0) && b != [] && b[0] != 0
    ensures CompareKeys(a, b) == -1 && CompareKeys(b, a) == 1
  {
  }

  /** Two keys that begin with the byte 42 are equal, whatever else they hold. */
  lemma StarredAreEqual(a: Key, b: Key)
    requires |a| == |b| > 0 && a[0] == b[0] == 42
    ensures CompareKeys(a, b) == 0
  {
  }

  /** All other keys compare by the first byte at which they differ. */
  lemma OthersByBytes(a: Key, b: Key, i: nat)
    requires |a| == |b| > 0 && a[0] != 0 && b[0] != 0 && !(a[0] == 42 && b[0] == 42) && DifferFirst(a, b, i)
    ensures CompareKeys(a, b) == if a[i] < b[i] then -1 else 1
  {
    MemcmpDecides(a, b, |a|, i);
  }

  /** Keys of one length differ first somewhere unless they are the same. */
  lemma {:induction false} DifferSomewhere(a: Key, b: Key) returns (i: nat)
    requires |a| == |b| && a != b
    ensures DifferFirst(a, b, i)
  {
    i := 0;
    if a[0] == b[0] {
      assert a == [a[0]] + a[1..] && b == [b[0]] + b[1..];
      var j := DifferSomewhere(a[1..], b[1..]);
      i := j + 1;
      forall k | 0 <= k < i
        ensures a[k] == b[k]
      {
        assert k > 0 ==> a[k] == a[1..][k - 1] && b[k] == b[1..][k - 1];
      }
    }
  }

  /** One key is below another exactly if it alone is blank, or its byte is the lesser one where they first differ. */
  lemma OrderIs(a: Key, b: Key)
    requires Comparable(a, b)
    ensures CompareKeys(a, b) == -1 <==>
              || (Blank(a) && !Blank(b))
              || (!Blank(a) && !Blank(b) && !(Starred(a) && Starred(b))
                  && exists i: nat :: DifferFirst(a, b, i) && a[i] < b[i])
  {
    if !Blank(a) && !Blank(b) && !(Starred(a) && Starred(b)) {
      OrderIsTotal(a, b);
      if a != b {
        var i := DifferSomewhere(a, b);
        OthersByBytes(a, b, i);
      }
    }
  }

  lemma MemcmpOrder(a: Key, b: Key, c: Key)
    requires !Blank(a) && !Blank(b) && !Blank(c) && |a| == |b| == |c|
    requires CompareKeys(a, b) <= 0 && CompareKeys(b, c) <= 0 && !(Starred(a) && Starred(b) && Starred(c))
    ensures CompareKeys(a, c) <= 0
  {
    if !(Starred(a) && Starred(b)) && !(Starred(b) && Starred(c)) && !(Starred(a) && Starred(c)) {
      MemcmpTransitive(a, b, c, |a|);
    }
  }

  lemma ByFirst(a: Key, b: Key)
    requires !Blank(a) && !Blank(b) && |a| == |b| && a[0] != b[0]
    ensures Memcmp(a, b, |a|) == if a[0] < b[0] then -1 else 1
  {
    assert DifferFirst(a, b, 0);
    MemcmpDecides(a, b, |a|, 0);
  }

  lemma OrderIsTransitive(a: Key, b: Key, c: Key)
    requires Comparable(a, b) && Comparable(b, c) && Comparable(a, c)
    requires CompareKeys(a, b) <= 0 && CompareKeys(b, c) <= 0
    ensures CompareKeys(a, c) <= 0
    ensures CompareKeys(a, c) == 0 ==> CompareKeys(a, b) == 0 && CompareKeys(b, c) == 0
  {
    OrderIsTotal(a, b);
    OrderIsTotal(b, c);
    OrderIsTotal(a, c);
    if !Blank(a) && !Blank(b) && !Blank(c) {
      if a[0] != b[0] {
        ByFirst(a, b);
      }
      if b[0] != c[0] {
        ByFirst(b, c);
      }
      if a[0] != c[0] {
        ByFirst(a, c);
      }
      if !Starred(a) || !Starred(b) || !Starred(c) {
        MemcmpOrder(a, b, c);
      }
    }
  }
}
