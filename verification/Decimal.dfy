/** Integers printed in decimal, and read back as atoi and atoll do. */
module Decimal {
  predicate IsDigit(c: char) {
    '0' <= c <= '9'
  }

  ghost predicate Digits(s: string) {
    forall i :: 0 <= i < |s| ==> IsDigit(s[i])
  }

  function Digit(d: int): char
    requires 0 <= d < 10
  {
    '0' + d as char
  }

  /** %d of a number that is not negative. */
  function Print(n: nat): (s: string)
    ensures |s| >= 1
  {
    if n < 10 then [Digit(n)] else Print(n / 10) + [Digit(n % 10)]
  }

  /** %d. */
  function PrintSigned(z: int): string {
    if z < 0 then "-" + Print(-z) else Print(z)
  }

  /** %0*d of a number that is not negative. */
  function PrintPadded(n: nat, width: nat): (s: string)
    ensures |s| >= width
  {
    var s := Print(n);
    if |s| < width then seq(width - |s|, _ => '0') + s else s
  }

  /** The value of the digits at the start of s, appended to acc. */
  function Accumulate(s: string, acc: nat): nat {
    if s == [] || !IsDigit(s[0]) then acc
    else Accumulate(s[1..], 10 * acc + (s[0] - '0') as int)
  }

  function Atoi(s: string): int {
    if s == [] then 0
    else if s[0] == ' ' then Atoi(s[1..])
    else if s[0] == '-' then -(Accumulate(s[1..], 0) as int)
    else if s[0] == '+' then Accumulate(s[1..], 0)
    else Accumulate(s, 0)
  }

  function Power10(k: nat): nat {
    if k == 0 then 1 else 10 * Power10(k - 1)
  }

  lemma {:induction false} PrintDigits(n: nat)
    ensures Digits(Print(n))
  {
    if n >= 10 {
      PrintDigits(n / 10);
    }
  }

  lemma DivideTwice(n: nat, p: nat)
    requires p >= 1
    ensures n / 10 / p == n / (10 * p)
  {
    var q, r := n / 10 / p, n / 10 % p;
    assert n / 10 == q * p + r;
    var rest := 10 * r + n % 10;
    assert n == q * (10 * p) + rest;
    assert 0 <= rest < 10 * p;
    var e := n / (10 * p) - q;
    assert e * (10 * p) == rest - n % (10 * p);
    assert e >= 1 ==> e * (10 * p) >= 10 * p;
    assert e <= -1 ==> e * (10 * p) <= -1 * (10 * p);
  }

  lemma Power10Positive(k: nat)
    ensures Power10(k) >= 1
  {
  }

  /** The digit i places before the end stands for that power of ten, and no number but 0 begins with a zero. */
  lemma {:induction false} PrintPlace(n: nat, i: nat)
    requires i < |Print(n)|
    ensures Power10(i) >= 1 && Print(n)[|Print(n)| - 1 - i] == Digit(n / Power10(i) % 10)
    ensures n > 0 ==> Print(n)[0] != '0'
  {
    Power10Positive(i);
    if n >= 10 {
      if i == 0 {
        PrintPlace(n / 10, 0);
      } else {
        PrintPlace(n / 10, i - 1);
        DivideTwice(n, Power10(i - 1));
      }
    }
  }

  /** A number below 10^k prints in at most k digits. */
  lemma {:induction false} PrintLength(n: nat, k: nat)
    requires n < Power10(k) && k >= 1
    ensures |Print(n)| <= k
  {
    if n >= 10 {
      assert k >= 2;
      assert n / 10 < Power10(k - 1);
      PrintLength(n / 10, k - 1);
    }
  }

  /** Reading digits one at a time from the left adds the last one at the end. */
  lemma {:induction false} AccumulateSnoc(s: string, c: char, acc: nat)
    requires Digits(s) && IsDigit(c)
    ensures Accumulate(s + [c], acc) == 10 * Accumulate(s, acc) + (c - '0') as int
  {
    if s == [] {
      assert (s + [c])[1..] == [];
    } else {
      assert (s + [c])[1..] == s[1..] + [c];
      AccumulateSnoc(s[1..], c, 10 * acc + (s[0] - '0') as int);
    }
  }

  lemma {:induction false} AccumulatePrint(n: nat)
    ensures Accumulate(Print(n), 0) == n
  {
    if n < 10 {
      assert Print(n)[1..] == [];
    } else {
      PrintDigits(n / 10);
      AccumulatePrint(n / 10);
      AccumulateSnoc(Print(n / 10), Digit(n % 10), 0);
    }
  }

  lemma {:induction false} AccumulateZeros(k: nat, s: string)
    ensures Accumulate(seq(k, _ => '0') + s, 0) == Accumulate(s, 0)
  {
    var zs := seq(k, _ => '0');
    if k == 0 {
      assert zs + s == s;
    } else {
      assert (zs + s)[1..] == seq(k - 1, _ => '0') + s;
      AccumulateZeros(k - 1, s);
    }
  }

  lemma AtoiPrint(n: nat)
    ensures Atoi(Print(n)) == n
  {
    PrintDigits(n);
    AccumulatePrint(n);
  }

  lemma AtoiSigned(z: int)
    ensures Atoi(PrintSigned(z)) == z
  {
    if z < 0 {
      AccumulatePrint(-z);
      assert PrintSigned(z)[1..] == Print(-z);
    } else {
      AtoiPrint(z);
    }
  }

  lemma AtoiPadded(n: nat, width: nat)
    ensures Atoi(PrintPadded(n, width)) == n && Digits(PrintPadded(n, width))
  {
    PrintDigits(n);
    AccumulatePrint(n);
    if |Print(n)| < width {
      AccumulateZeros(width - |Print(n)|, Print(n));
    }
  }

  /** A sign and digits: no other character. */
  lemma SignedChars(z: int)
    ensures forall i :: 0 <= i < |PrintSigned(z)| ==> IsDigit(PrintSigned(z)[i]) || PrintSigned(z)[i] == '-'
    ensures -(Power10(10) as int) < z < Power10(10) ==> 1 <= |PrintSigned(z)| <= 11
  {
    var n: nat := if z < 0 then -z else z;
    PrintDigits(n);
    if n < Power10(10) {
      PrintLength(n, 10);
    }
  }
}
