// Numbers written as digits in a base, most significant digit first: what joining digit sequences
// does to the number, how the first digit decides between numbers of one length, and the short
// numbers of five bytes and eight base-32 digits written out. Used for identifiers.
module Numerals {
  function Power(base: nat, n: nat): nat {
    if n == 0 then 1 else Power(base, n - 1) * base
  }

  function Number(digits: seq<nat>, base: nat): nat {
    if digits == [] then 0
    else Number(digits[..|digits| - 1], base) * base + digits[|digits| - 1]
  }

  ghost predicate Below(digits: seq<nat>, base: nat) {
    forall i :: 0 <= i < |digits| ==> digits[i] < base
  }

  lemma {:induction false} PowerOfSum(base: nat, m: nat, n: nat)
    ensures Power(base, m + n) == Power(base, m) * Power(base, n)
  {
    if n > 0 {
      PowerOfSum(base, m, n - 1);
      assert Power(base, m) * Power(base, n - 1) * base == Power(base, m) * (Power(base, n - 1) * base);
    }
  }

  lemma {:induction false} NumberOfConcat(a: seq<nat>, b: seq<nat>, base: nat)
    ensures Number(a + b, base) == Number(a, base) * Power(base, |b|) + Number(b, base)
  {
    if b == [] {
      assert a + b == a;
    } else {
      var n := |b| - 1;
      assert (a + b)[..|a + b| - 1] == a + b[..n];
      NumberOfConcat(a, b[..n], base);
      Distribute(Number(a, base), Power(base, n), Number(b[..n], base), base);
    }
  }

  lemma Distribute(x: nat, p: nat, y: nat, base: nat)
    ensures (x * p + y) * base == x * (p * base) + y * base
  {
  }

  lemma {:induction false} NumberIsBelowPower(digits: seq<nat>, base: nat)
    requires Below(digits, base)
    ensures Number(digits, base) < Power(base, |digits|)
  {
    if digits != [] {
      var n := |digits| - 1;
      NumberIsBelowPower(digits[..n], base);
      OneBelow(Number(digits[..n], base), Power(base, n), digits[n], base);
    }
  }

  lemma OneBelow(x: nat, p: nat, d: nat, base: nat)
    requires x < p && d < base
    ensures x * base + d < p * base
  {
    assert (x + 1) * base <= p * base;
  }

  /** Of two numbers of equal length, the one with the smaller first digit is smaller. */
  lemma FirstDigitDecides(a: seq<nat>, b: seq<nat>, base: nat)
    requires |a| == |b| > 0 && Below(a, base) && Below(b, base)
    requires a[0] < b[0]
    ensures Number(a, base) < Number(b, base)
  {
    HeadFirst(a, base);
    HeadFirst(b, base);
    NumberIsBelowPower(a[1..], base);
    Steps(a[0], b[0], Power(base, |a| - 1));
  }

  lemma Steps(x: nat, y: nat, p: nat)
    requires x < y
    ensures x * p + p <= y * p
  {
    assert (x + 1) * p <= y * p;
  }

  lemma HeadFirst(a: seq<nat>, base: nat)
    requires a != []
    ensures Number(a, base) == a[0] * Power(base, |a| - 1) + Number(a[1..], base)
  {
    assert a == [a[0]] + a[1..];
    NumberOfConcat([a[0]], a[1..], base);
    assert Number([a[0]], base) == a[0] by {
      assert [a[0]][..0] == [];
    }
  }

  // ----- short numbers written out -----

  lemma OneMoreDigit(d: seq<nat>, k: nat, base: nat)
    requires k < |d|
    ensures Number(d[..0], base) == 0
    ensures Number(d[..k + 1], base) == Number(d[..k], base) * base + d[k]
  {
    assert d[..k + 1][..k] == d[..k];
  }

  lemma NumberOfTwo(d: seq<nat>, base: nat)
    requires |d| == 2
    ensures Number(d, base) == d[0] * base + d[1]
  {
    OneMoreDigit(d, 0, base);
    OneMoreDigit(d, 1, base);
    assert d[..2] == d;
  }

  lemma NumberOfFive(d: seq<nat>)
    requires |d| == 5
    ensures Number(d, 256) == d[0] * 0x1_0000_0000 + d[1] * 0x100_0000 + d[2] * 0x1_0000 + d[3] * 0x100 + d[4]
  {
    OneMoreDigit(d, 0, 256);
    OneMoreDigit(d, 1, 256);
    OneMoreDigit(d, 2, 256);
    OneMoreDigit(d, 3, 256);
    OneMoreDigit(d, 4, 256);
    assert d[..5] == d;
  }

  lemma NumberOfFour(d: seq<nat>)
    requires |d| >= 4
    ensures Number(d[..4], 32) == d[0] * 0x8000 + d[1] * 0x400 + d[2] * 0x20 + d[3]
  {
    OneMoreDigit(d, 0, 32);
    OneMoreDigit(d, 1, 32);
    OneMoreDigit(d, 2, 32);
    OneMoreDigit(d, 3, 32);
  }

  lemma NumberOfEight(d: seq<nat>)
    requires |d| == 8
    ensures Number(d, 32) == d[0] * 0x8_0000_0000 + d[1] * 0x4000_0000 + d[2] * 0x200_0000 + d[3] * 0x10_0000
                           + d[4] * 0x8000 + d[5] * 0x400 + d[6] * 0x20 + d[7]
  {
    NumberOfFour(d);
    OneMoreDigit(d, 4, 32);
    OneMoreDigit(d, 5, 32);
    OneMoreDigit(d, 6, 32);
    OneMoreDigit(d, 7, 32);
    assert d[..8] == d;
  }
}
