// Identifiers of 128 bits in base 32: 48 bits of time in milliseconds, then 80 random bits, written as 26
// characters of Crockford's alphabet. What a text stands for, how texts sort, and which texts are accepted.
module Ulid {
  import opened Numerals
  import opened TextOrder
  import opened UlidBits

  const ALPHABET := "0123456789ABCDEFGHJKMNPQRSTVWXYZ"
  const LENGTH := 26
  const NO_DIGIT := 255

  // ----- characters -----

  /** The digit a character of the alphabet stands for. */
  function Digit(c: char): nat {
    if '0' <= c <= '9' then c as nat - '0' as nat
    else if 'A' <= c <= 'H' then c as nat - 'A' as nat + 10
    else if 'J' <= c <= 'K' then c as nat - 'J' as nat + 18
    else if 'M' <= c <= 'N' then c as nat - 'M' as nat + 20
    else if 'P' <= c <= 'T' then c as nat - 'P' as nat + 22
    else if 'V' <= c <= 'Z' then c as nat - 'V' as nat + 27
    else NO_DIGIT
  }

  /** Small letters are read as capital ones. */
  function Decoded(c: char): nat {
    if 'a' <= c <= 'z' then Digit(c - 32 as char) else Digit(c)
  }

  function Symbol(d: bv8): char
    requires d < 32
  {
    assert d as int < 32;
    ALPHABET[d as int]
  }

  lemma AlphabetIsInOrder(d: nat)
    requires d < 32
    ensures Digit(ALPHABET[d]) == d
    ensures '0' <= ALPHABET[d] <= '9' || 'A' <= ALPHABET[d] <= 'Z'
  {
  }

  lemma OnlyItsOwnSymbol(c: char, d: nat)
    requires d < 32 && Digit(c) == d
    ensures c == ALPHABET[d]
  {
    AlphabetIsInOrder(d);
  }

  /** The decoding table, filled from the alphabet. */
  method BuildDecoding() returns (table: array<nat>)
    ensures table.Length == 256
    ensures forall c: char :: c as nat < 256 ==> table[c as nat] == Decoded(c)
  {
    table := new nat[256](_ => NO_DIGIT);
    for i := 0 to 32
      invariant forall c: char :: c as nat < 256 ==> table[c as nat] == if Decoded(c) < i then Decoded(c) else NO_DIGIT
    {
      var c := ALPHABET[i];
      AlphabetIsInOrder(i);
      table[c as nat] := i;
      if 'A' <= c <= 'Z' {
        table[c as nat + 32] := i;
      }
      forall other: char | other as nat < 256
        ensures Decoded(other) == i <==> other as nat == c as nat || ('A' <= c <= 'Z' && other as nat == c as nat + 32)
      {
        SameDigit(other, c);
      }
    }
  }

  lemma SameDigit(a: char, c: char)
    requires Digit(c) < 32
    ensures Decoded(a) == Digit(c) <==> a == c || ('A' <= c <= 'Z' && a as nat == c as nat + 32)
  {
    if Decoded(a) == Digit(c) {
      OnlyItsOwnSymbol(c, Digit(c));
      OnlyItsOwnSymbol(if 'a' <= a <= 'z' then a - 32 as char else a, Digit(c));
    }
  }

  // ----- what a text stands for -----

  function Images(f: char -> nat, s: string): (r: seq<nat>)
    ensures |r| == |s|
  {
    seq(|s|, i requires 0 <= i < |s| => f(s[i]))
  }

  lemma ImagesOfConcat(f: char -> nat, a: string, b: string)
    ensures Images(f, a + b) == Images(f, a) + Images(f, b)
  {
  }

  function DigitsOf(s: string): (r: seq<nat>)
    ensures |r| == |s|
  {
    Images(Decoded, s)
  }

  function ValueOf(s: string): nat {
    Number(DigitsOf(s), 32)
  }

  /** Only characters of the alphabet, in capitals. */
  ghost predicate Canonical(s: string) {
    forall i :: 0 <= i < |s| ==> Digit(s[i]) < 32
  }

  lemma CanonicalDigits(s: string)
    requires Canonical(s)
    ensures forall i :: 0 <= i < |s| ==> DigitsOf(s)[i] == Digit(s[i])
    ensures Below(DigitsOf(s), 32)
  {
    forall i | 0 <= i < |s|
      ensures Decoded(s[i]) == Digit(s[i])
    {
      assert Digit(s[i]) < 32;
    }
  }

  /** Texts of one length sort as the numbers they stand for. */
  lemma {:induction false} TextOrderIsNumberOrder(a: string, b: string)
    requires |a| == |b| && Canonical(a) && Canonical(b)
    ensures Less(a, b) <==> ValueOf(a) < ValueOf(b)
    ensures a == b <==> ValueOf(a) == ValueOf(b)
  {
    if a != [] {
      if a[0] == b[0] {
        TextOrderIsNumberOrder(a[1..], b[1..]);
        SameHead(a, b);
        assert a == [a[0]] + a[1..] && b == [b[0]] + b[1..];
      } else if a[0] < b[0] {
        SmallerHead(a, b);
      } else {
        SmallerHead(b, a);
      }
    }
  }

  lemma SameHead(a: string, b: string)
    requires |a| == |b| > 0 && a[0] == b[0]
    ensures ValueOf(a) - ValueOf(b) == ValueOf(a[1..]) - ValueOf(b[1..])
  {
    HeadFirst(DigitsOf(a), 32);
    HeadFirst(DigitsOf(b), 32);
    assert DigitsOf(a)[1..] == DigitsOf(a[1..]) && DigitsOf(b)[1..] == DigitsOf(b[1..]);
  }

  lemma SmallerHead(a: string, b: string)
    requires |a| == |b| > 0 && Canonical(a) && Canonical(b) && a[0] < b[0]
    ensures ValueOf(a) < ValueOf(b)
  {
    CanonicalDigits(a);
    CanonicalDigits(b);
    SymbolsAreInOrder(a[0], b[0]);
    FirstDigitDecides(DigitsOf(a), DigitsOf(b), 32);
  }

  lemma SymbolsAreInOrder(c: char, d: char)
    requires Digit(c) < 32 && Digit(d) < 32
    ensures c < d <==> Digit(c) < Digit(d)
  {
  }

  // ----- encoding -----

  function TimeDigits(b: Bytes): Bytes
    requires |b| == 16
  {
    [(b[0] & 224) >> 5, b[0] & 31] + Fives(b[1], b[2], b[3], b[4], b[5])
  }

  ghost predicate IsText(s: string, digits: Bytes) {
    |s| == |digits| && forall i :: 0 <= i < |s| ==> IsSymbol(s[i], digits[i])
  }

  ghost predicate IsSymbol(c: char, digit: bv8) {
    digit < 32 && c == Symbol(digit)
  }

  method EncodeTime(b: Bytes) returns (s: string)
    requires |b| == 16
    ensures IsText(s, TimeDigits(b))
  {
    var out := new char[10];

    out[0] := Symbol((b[0] & 224) >> 5);
    out[1] := Symbol(b[0] & 31);
    out[2] := Symbol((b[1] & 248) >> 3);
    out[3] := Symbol(((b[1] & 7) << 2) | ((b[2] & 192) >> 6));
    out[4] := Symbol((b[2] & 62) >> 1);
    out[5] := Symbol(((b[2] & 1) << 4) | ((b[3] & 240) >> 4));
    out[6] := Symbol(((b[3] & 15) << 1) | ((b[4] & 128) >> 7));
    out[7] := Symbol((b[4] & 124) >> 2);
    out[8] := Symbol(((b[4] & 3) << 3) | ((b[5] & 224) >> 5));
    out[9] := Symbol(b[5] & 31);

    s := out[..];
    Matches10(s, TimeDigits(b));
  }

  lemma Matches10(s: string, d: Bytes)
    requires |s| == 10 && |d| == 10
    requires IsSymbol(s[0], d[0]) && IsSymbol(s[1], d[1]) && IsSymbol(s[2], d[2]) && IsSymbol(s[3], d[3])
        && IsSymbol(s[4], d[4])
    requires IsSymbol(s[5], d[5]) && IsSymbol(s[6], d[6]) && IsSymbol(s[7], d[7]) && IsSymbol(s[8], d[8])
        && IsSymbol(s[9], d[9])
    ensures IsText(s, d)
  {
  }

  method EncodeFirstRandom(b: Bytes) returns (s: string)
    requires |b| == 16
    ensures IsText(s, Fives(b[6], b[7], b[8], b[9], b[10]))
  {
    var out := new char[8];

    out[0] := Symbol((b[6] & 248) >> 3);
    out[1] := Symbol(((b[6] & 7) << 2) | ((b[7] & 192) >> 6));
    out[2] := Symbol((b[7] & 62) >> 1);
    out[3] := Symbol(((b[7] & 1) << 4) | ((b[8] & 240) >> 4));
    out[4] := Symbol(((b[8] & 15) << 1) | ((b[9] & 128) >> 7));
    out[5] := Symbol((b[9] & 124) >> 2);
    out[6] := Symbol(((b[9] & 3) << 3) | ((b[10] & 224) >> 5));
    out[7] := Symbol(b[10] & 31);

    s := out[..];
    Matches8(s, Fives(b[6], b[7], b[8], b[9], b[10]));
  }

  method EncodeLastRandom(b: Bytes) returns (s: string)
    requires |b| == 16
    ensures IsText(s, Fives(b[11], b[12], b[13], b[14], b[15]))
  {
    var out := new char[8];

    out[0] := Symbol((b[11] & 248) >> 3);
    out[1] := Symbol(((b[11] & 7) << 2) | ((b[12] & 192) >> 6));
    out[2] := Symbol((b[12] & 62) >> 1);
    out[3] := Symbol(((b[12] & 1) << 4) | ((b[13] & 240) >> 4));
    out[4] := Symbol(((b[13] & 15) << 1) | ((b[14] & 128) >> 7));
    out[5] := Symbol((b[14] & 124) >> 2);
    out[6] := Symbol(((b[14] & 3) << 3) | ((b[15] & 224) >> 5));
    out[7] := Symbol(b[15] & 31);

    s := out[..];
    Matches8(s, Fives(b[11], b[12], b[13], b[14], b[15]));
  }

  lemma Matches8(s: string, d: Bytes)
    requires |s| == 8 && |d| == 8
    requires IsSymbol(s[0], d[0]) && IsSymbol(s[1], d[1]) && IsSymbol(s[2], d[2]) && IsSymbol(s[3], d[3])
    requires IsSymbol(s[4], d[4]) && IsSymbol(s[5], d[5]) && IsSymbol(s[6], d[6]) && IsSymbol(s[7], d[7])
    ensures IsText(s, d)
  {
  }

  /** Sixteen bytes become 26 capital characters that stand for the same number. */
  method Encode(b: Bytes) returns (s: string)
    requires |b| == 16
    ensures |s| == LENGTH && Canonical(s) && s[0] <= '7'
    ensures ValueOf(s) == Value(b)
    ensures ValueOf(s[..10]) == Value(b[..6])
  {
    var time := EncodeTime(b);
    var first := EncodeFirstRandom(b);
    var last := EncodeLastRandom(b);
    s := time + first + last;
    TimeKeepsTheNumber(b, time);
    TopSymbol(b[0], time, Fives(b[1], b[2], b[3], b[4], b[5]));
    FiveBytesKeepTheNumber(b[6], b[7], b[8], b[9], b[10], first);
    FiveBytesKeepTheNumber(b[11], b[12], b[13], b[14], b[15], last);
    assert b[6..11] == [b[6], b[7], b[8], b[9], b[10]] && b[11..16] == [b[11], b[12], b[13], b[14], b[15]];
    assert b == b[..6] + b[6..11] + b[11..16];
    PartsKeepTheNumber(b[..6], b[6..11], b[11..16], time, first, last);
    assert s[..10] == time;
  }

  lemma TextKeepsTheNumber(s: string, d: Bytes)
    requires IsText(s, d)
    ensures Canonical(s) && DigitsOf(s) == Ints(d)
  {
    forall i | 0 <= i < |s|
      ensures Digit(s[i]) == d[i] as nat < 32 && Decoded(s[i]) == d[i] as nat
    {
      assert IsSymbol(s[i], d[i]);
      assert d[i] as nat < 32;
      AlphabetIsInOrder(d[i] as nat);
    }
  }

  lemma FiveBytesKeepTheNumber(a: bv8, b: bv8, c: bv8, d: bv8, e: bv8, s: string)
    requires IsText(s, Fives(a, b, c, d, e))
    ensures Canonical(s) && ValueOf(s) == Value([a, b, c, d, e])
  {
    TextKeepsTheNumber(s, Fives(a, b, c, d, e));
    FivesKeepTheNumber(a, b, c, d, e);
  }

  lemma TimeKeepsTheNumber(b: Bytes, s: string)
    requires |b| == 16 && IsText(s, TimeDigits(b))
    ensures Canonical(s) && ValueOf(s) == Value(b[..6])
  {
    TextKeepsTheNumber(s, TimeDigits(b));
    SixBytesKeepTheNumber(b[0], b[1], b[2], b[3], b[4], b[5]);
    FirstSix(b);
  }

  lemma FirstSix(b: Bytes)
    requires |b| == 16
    ensures b[..6] == [b[0]] + [b[1], b[2], b[3], b[4], b[5]]
  {
  }

  lemma SixBytesKeepTheNumber(a: bv8, b: bv8, c: bv8, d: bv8, e: bv8, f: bv8)
    ensures Number(Ints([(a & 224) >> 5, a & 31] + Fives(b, c, d, e, f)), 32) == Value([a] + [b, c, d, e, f])
  {
    var top := [(a & 224) >> 5, a & 31];
    var rest := Fives(b, c, d, e, f);
    FivesKeepTheNumber(b, c, d, e, f);
    IntsOfConcat(top, rest);
    NumberOfConcat(Ints(top), Ints(rest), 32);
    TopByte(a);
    ValueOfConcat([a], [b, c, d, e, f]);
    PowersAgree();
  }

  lemma IntsOfConcat(a: Bytes, b: Bytes)
    ensures Ints(a + b) == Ints(a) + Ints(b)
  {
  }

  lemma TopByte(b: bv8)
    ensures Number(Ints([(b & 224) >> 5, b & 31]), 32) == b as nat == Value([b])
  {
    HighBits(b);
    LowBits(b);
    NumberOfTwo(Ints([(b & 224) >> 5, b & 31]), 32);
    var one := Ints([b]);
    OneMoreDigit(one, 0, 256);
    assert one[..1] == one;
  }

  lemma TopSymbol(b: bv8, s: string, rest: Bytes)
    requires IsText(s, [(b & 224) >> 5, b & 31] + rest)
    ensures s[0] <= '7'
  {
    HighBits(b);
    assert IsSymbol(s[0], (b & 224) >> 5);
  }

  lemma ValueOfConcat(a: Bytes, b: Bytes)
    ensures Value(a + b) == Value(a) * Power(256, |b|) + Value(b)
  {
    IntsOfConcat(a, b);
    NumberOfConcat(Ints(a), Ints(b), 256);
  }

  lemma ValueOfTextConcat(a: string, b: string)
    ensures ValueOf(a + b) == ValueOf(a) * Power(32, |b|) + ValueOf(b)
  {
    ImagesOfConcat(Decoded, a, b);
    NumberOfConcat(DigitsOf(a), DigitsOf(b), 32);
  }

  /** Five bytes hold as much as eight digits. */
  lemma PowersAgree()
    ensures Power(256, 5) == Power(32, 8) == 0x100_0000_0000
  {
    assert Power(32, 4) == 0x10_0000;
    PowerOfSum(32, 4, 4);
  }

  lemma PartsKeepTheNumber(a: Bytes, b: Bytes, c: Bytes, s: string, t: string, u: string)
    requires |b| == |c| == 5 && |t| == |u| == 8
    requires ValueOf(s) == Value(a) && ValueOf(t) == Value(b) && ValueOf(u) == Value(c)
    ensures ValueOf(s + t + u) == Value(a + b + c)
  {
    PowersAgree();
    ValueOfConcat(a, b);
    ValueOfConcat(a + b, c);
    ValueOfTextConcat(s, t);
    ValueOfTextConcat(s + t, u);
  }

  // ----- reading -----

  datatype Problem = None | WrongLength | NotInAlphabet(position: nat) | TimeOverflows

  function Capital(c: char): char {
    if 'a' <= c <= 'z' then c - 32 as char else c
  }

  ghost predicate WellFormed(s: string) {
    |s| == LENGTH && (forall i :: 0 <= i < |s| ==> Decoded(s[i]) != NO_DIGIT) && s[0] <= '7'
  }

  /** The first thing wrong with a text, if anything is. */
  ghost predicate IsProblemOf(problem: Problem, s: string) {
    match problem
    case None => WellFormed(s)
    case WrongLength => |s| != LENGTH
    case NotInAlphabet(k) =>
      |s| == LENGTH && k < LENGTH && Decoded(s[k]) == NO_DIGIT && forall i :: 0 <= i < k ==> Decoded(s[i]) != NO_DIGIT
    case TimeOverflows =>
      |s| == LENGTH && (forall i :: 0 <= i < |s| ==> Decoded(s[i]) != NO_DIGIT) && s[0] > '7'
  }

  method Validate(s: string) returns (problem: Problem)
    ensures IsProblemOf(problem, s)
    ensures problem == None <==> WellFormed(s)
  {
    if |s| != LENGTH {
      return WrongLength;
    }
    for i := 0 to |s|
      invariant forall j :: 0 <= j < i ==> Decoded(s[j]) != NO_DIGIT
    {
      if Decoded(s[i]) == NO_DIGIT {
        return NotInAlphabet(i);
      }
    }
    if s[0] > '7' {
      return TimeOverflows;
    }
    return None;
  }

  /** A text is accepted exactly when it stands, in either case, for a number of 128 bits. */
  lemma AcceptedMeansItFits(s: string)
    requires |s| == LENGTH && forall i :: 0 <= i < |s| ==> Decoded(s[i]) < 32
    ensures s[0] <= '7' <==> ValueOf(s) < 0x1_0000_0000_0000_0000_0000_0000_0000_0000
  {
    var digits := DigitsOf(s);
    HeadFirst(digits, 32);
    NumberIsBelowPower(digits[1..], 32);
    BitsBelowTheTop();
    FirstSymbol(s[0]);
  }

  lemma FirstSymbol(c: char)
    requires Decoded(c) < 32
    ensures c <= '7' <==> Decoded(c) <= 7
  {
  }

  lemma BitsBelowTheTop()
    ensures Power(32, 25) == 0x2000_0000_0000_0000_0000_0000_0000_0000
  {
    PowersAgree();
    PowerOfSum(32, 8, 8);
    PowerOfSum(32, 16, 8);
    assert Power(32, 1) == 32;
    PowerOfSum(32, 24, 1);
  }

  // ----- the order of identifiers of mixed case -----

  predicate IsSmall(c: char) {
    'a' <= c <= 'z'
  }

  /** The order of two texts is that of the numbers they stand for. */
  ghost predicate OrdersAgree(a: string, b: string) {
    (Less(a, b) <==> ValueOf(a) < ValueOf(b)) && (Less(b, a) <==> ValueOf(b) < ValueOf(a))
  }

  ghost predicate FirstDifference(a: string, b: string, k: nat) {
    |a| == |b| && k < |a| && a[..k] == b[..k] && a[k] != b[k]
  }

  lemma FirstDifferenceOrders(a: string, b: string, k: nat)
    requires FirstDifference(a, b, k)
    ensures Less(a, b) <==> a[k] < b[k]
    ensures Less(b, a) <==> b[k] < a[k]
  {
    LessIsTotal(a, b);
    if a[k] < b[k] {
      FirstDifferenceDecides(a, b, k);
    } else {
      FirstDifferenceDecides(b, a, k);
    }
  }

  /** A common start does not matter for the order of the numbers. */
  lemma CommonStart(p: string, a: string, b: string)
    requires |a| == |b|
    ensures ValueOf(p + a) < ValueOf(p + b) <==> ValueOf(a) < ValueOf(b)
  {
    ValueOfTextConcat(p, a);
    ValueOfTextConcat(p, b);
  }

  lemma ReadableDigits(s: string, k: nat)
    requires WellFormed(s) && k <= |s|
    ensures Below(DigitsOf(s[k..]), 32)
  {
    forall i | 0 <= i < |s[k..]|
      ensures Decoded(s[k..][i]) < 32
    {
      assert Decoded(s[k + i]) != NO_DIGIT;
    }
  }

  lemma SmallerDigitSmallerValue(a: string, b: string, k: nat)
    requires WellFormed(a) && WellFormed(b) && FirstDifference(a, b, k) && Decoded(a[k]) < Decoded(b[k])
    ensures ValueOf(a) < ValueOf(b)
  {
    ReadableDigits(a, k);
    ReadableDigits(b, k);
    FirstDigitDecides(DigitsOf(a[k..]), DigitsOf(b[k..]), 32);
    CommonStart(a[..k], a[k..], b[k..]);
    assert a == a[..k] + a[k..] && b == a[..k] + b[k..];
  }

  /** The smaller digit sorts first, unless it is a small letter and the other is not. */
  lemma CharactersOrder(x: char, y: char)
    requires Decoded(x) < Decoded(y) < 32
    ensures x < y <==> !(IsSmall(x) && !IsSmall(y))
    ensures x != y
  {
  }

  /** One digit, two characters: a capital and its small letter. */
  lemma OneDigitTwoCases(x: char, y: char)
    requires Decoded(x) == Decoded(y) < 32 && x != y
    ensures IsSmall(x) != IsSmall(y) && (x < y <==> IsSmall(y))
  {
    OnlyItsOwnSymbol(if IsSmall(x) then x - 32 as char else x, Decoded(x));
    OnlyItsOwnSymbol(if IsSmall(y) then y - 32 as char else y, Decoded(x));
  }

  /** Where the first characters that differ are different digits, the orders agree exactly unless the one of less value
      alone is a small letter. */
  lemma DifferentDigitsAgree(a: string, b: string, k: nat)
    requires WellFormed(a) && WellFormed(b) && FirstDifference(a, b, k) && Decoded(a[k]) < Decoded(b[k])
    ensures OrdersAgree(a, b) <==> !(IsSmall(a[k]) && !IsSmall(b[k]))
  {
    assert Decoded(b[k]) != NO_DIGIT;
    FirstDifferenceOrders(a, b, k);
    SmallerDigitSmallerValue(a, b, k);
    CharactersOrder(a[k], b[k]);
  }

  /** Where they are one digit in two cases, the orders agree exactly when the capital's text has the smaller rest. */
  lemma OneDigitAgrees(a: string, b: string, k: nat)
    requires WellFormed(a) && WellFormed(b) && FirstDifference(a, b, k) && Decoded(a[k]) == Decoded(b[k])
    ensures OrdersAgree(a, b) <==>
      if IsSmall(b[k]) then ValueOf(a[k + 1..]) < ValueOf(b[k + 1..]) else ValueOf(b[k + 1..]) < ValueOf(a[k + 1..])
  {
    assert Decoded(b[k]) != NO_DIGIT;
    FirstDifferenceOrders(a, b, k);
    OneDigitTwoCases(a[k], b[k]);
    SameStart(a, b, k);
    SameStart(b, a, k);
  }

  lemma SameStart(a: string, b: string, k: nat)
    requires FirstDifference(a, b, k) && Decoded(a[k]) == Decoded(b[k])
    ensures ValueOf(a) < ValueOf(b) <==> ValueOf(a[k + 1..]) < ValueOf(b[k + 1..])
  {
    var x, y := [a[k]], [b[k]];
    assert DigitsOf(x) == DigitsOf(y);
    assert a == a[..k] + (x + a[k + 1..]) && b == a[..k] + (y + b[k + 1..]);
    CommonStart(a[..k], x + a[k + 1..], y + b[k + 1..]);
    ValueOfTextConcat(x, a[k + 1..]);
    ValueOfTextConcat(y, b[k + 1..]);
  }

  /** An example: a small letter sorts after every capital. */
  lemma SmallLettersSortLast(p: string)
    requires |p| == LENGTH - 1 && WellFormed(p + "B")
    ensures WellFormed(p + "a") && Less(p + "B", p + "a") && ValueOf(p + "a") < ValueOf(p + "B")
  {
    var a, b := p + "a", p + "B";
    forall i | 0 <= i < LENGTH - 1
      ensures a[i] == b[i]
    {
    }
    assert Decoded('a') == 10 && Decoded('B') == 11;
    assert a[..LENGTH - 1] == p == b[..LENGTH - 1];
    FirstDifferenceOrders(b, a, LENGTH - 1);
    SmallerDigitSmallerValue(a, b, LENGTH - 1);
  }

  method Time(s: string) returns (problem: Problem, milliseconds: nat)
    ensures IsProblemOf(problem, s)
    ensures problem == None <==> WellFormed(s)
    ensures problem == None ==> milliseconds == ValueOf(s[..10])
  {
    problem := Validate(s);
    milliseconds := 0;
    if problem != None {
      return;
    }
    var u := seq(|s|, i requires 0 <= i < |s| => Capital(s[i]));
    for i := 0 to 10
      invariant milliseconds == ValueOf(s[..i])
    {
      DigitsSoFar(s, i);
      milliseconds := milliseconds * 32 + Decoded(u[i]);
    }
  }

  lemma DigitsSoFar(s: string, i: nat)
    requires i < |s|
    ensures ValueOf(s[..i + 1]) == ValueOf(s[..i]) * 32 + Decoded(s[i])
  {
    var d := DigitsOf(s[..i + 1]);
    assert d[..i] == DigitsOf(s[..i]);
  }
}
