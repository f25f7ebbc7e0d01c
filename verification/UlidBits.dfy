// The bit arithmetic that turns five bytes into eight digits of five bits. Masks, shifts and ors on
// bytes are first shown to be division, remainder and addition, then the eight digits to stand for the
// same number as the five bytes. The encoder uses one such group for the time and two for the rest.
module UlidBits {
  import opened Numerals

  type Bytes = seq<bv8>

  function Ints(b: Bytes): (r: seq<nat>)
    ensures |r| == |b|
  {
    seq(|b|, i requires 0 <= i < |b| => b[i] as nat)
  }

  /** The number some bytes stand for. */
  function Value(b: Bytes): nat {
    Number(Ints(b), 256)
  }

  // ----- the bits of two neighbouring bytes -----

  lemma OrIsSum(x: bv8, y: bv8)
    requires x & y == 0
    ensures (x | y) as int == x as int + y as int
  {
    assert x | y == x + y;
  }

  lemma HighBits(b: bv8)
    ensures ((b & 128) >> 7) as int == b as int / 128
    ensures ((b & 192) >> 6) as int == b as int / 64
    ensures ((b & 224) >> 5) as int == b as int / 32
    ensures ((b & 240) >> 4) as int == b as int / 16
    ensures ((b & 248) >> 3) as int == b as int / 8
  {
  }

  lemma LowBits(a: bv8)
    ensures ((a & 1) << 4) as int == (a as int % 2) * 16
    ensures ((a & 3) << 3) as int == (a as int % 4) * 8
    ensures ((a & 7) << 2) as int == (a as int % 8) * 4
    ensures ((a & 15) << 1) as int == (a as int % 16) * 2
    ensures (a & 31) as int == a as int % 32
  {
    LowOne(a);
    assert (a & 3) as int == a as int % 4;
    assert (a & 7) as int == a as int % 8;
    assert (a & 15) as int == a as int % 16;
  }

  lemma LowOne(a: bv8)
    ensures ((a & 1) << 4) as int == (a as int % 2) * 16
  {
    assert (a & 1) as int == a as int % 2;
  }

  lemma MiddleHigh(b: bv8)
    ensures ((b & 124) >> 2) as int == (b as int % 128) / 4
  {
    assert (b & 124) >> 2 == (b & 127) >> 2;
  }

  lemma MiddleLow(b: bv8)
    ensures ((b & 62) >> 1) as int == (b as int % 64) / 2
  {
    assert (b & 62) >> 1 == (b & 63) >> 1;
  }

  // ----- five bytes are eight digits -----

  function Fives(a: bv8, b: bv8, c: bv8, d: bv8, e: bv8): Bytes {
    [ (a & 248) >> 3, ((a & 7) << 2) | ((b & 192) >> 6), (b & 62) >> 1, ((b & 1) << 4) | ((c & 240) >> 4),
      ((c & 15) << 1) | ((d & 128) >> 7), (d & 124) >> 2, ((d & 3) << 3) | ((e & 224) >> 5), e & 31 ]
  }

  lemma JoinedBits(a: bv8, b: bv8)
    ensures (((a & 7) << 2) | ((b & 192) >> 6)) as int == (a as int % 8) * 4 + b as int / 64
    ensures (((a & 1) << 4) | ((b & 240) >> 4)) as int == (a as int % 2) * 16 + b as int / 16
    ensures (((a & 15) << 1) | ((b & 128) >> 7)) as int == (a as int % 16) * 2 + b as int / 128
    ensures (((a & 3) << 3) | ((b & 224) >> 5)) as int == (a as int % 4) * 8 + b as int / 32
  {
    HighBits(b);
    LowBits(a);
    OrIsSum((a & 7) << 2, (b & 192) >> 6);
    OrIsSum((a & 1) << 4, (b & 240) >> 4);
    OrIsSum((a & 15) << 1, (b & 128) >> 7);
    OrIsSum((a & 3) << 3, (b & 224) >> 5);
  }

  /** The eight digits of five bytes, by division and remainder. */
  function Split(b: seq<nat>): seq<nat>
    requires |b| == 5
  {
    [ b[0] / 8, (b[0] % 8) * 4 + b[1] / 64, (b[1] % 64) / 2, (b[1] % 2) * 16 + b[2] / 16,
      (b[2] % 16) * 2 + b[3] / 128, (b[3] % 128) / 4, (b[3] % 4) * 8 + b[4] / 32, b[4] % 32 ]
  }

  lemma FirstDigits(a: bv8, b: bv8, c: bv8)
    ensures ((a & 248) >> 3) as int == a as int / 8
    ensures (((a & 7) << 2) | ((b & 192) >> 6)) as int == (a as int % 8) * 4 + b as int / 64
    ensures ((b & 62) >> 1) as int == (b as int % 64) / 2
    ensures (((b & 1) << 4) | ((c & 240) >> 4)) as int == (b as int % 2) * 16 + c as int / 16
  {
    HighBits(a);
    JoinedBits(a, b);
    MiddleLow(b);
    JoinedBits(b, c);
  }

  lemma LastDigits(c: bv8, d: bv8, e: bv8)
    ensures (((c & 15) << 1) | ((d & 128) >> 7)) as int == (c as int % 16) * 2 + d as int / 128
    ensures ((d & 124) >> 2) as int == (d as int % 128) / 4
    ensures (((d & 3) << 3) | ((e & 224) >> 5)) as int == (d as int % 4) * 8 + e as int / 32
    ensures (e & 31) as int == e as int % 32
  {
    JoinedBits(c, d);
    MiddleHigh(d);
    JoinedBits(d, e);
    LowBits(e);
  }

  lemma FivesAreDigits(a: bv8, b: bv8, c: bv8, d: bv8, e: bv8)
    ensures Ints(Fives(a, b, c, d, e)) == Split(Ints([a, b, c, d, e]))
  {
    FirstDigits(a, b, c);
    LastDigits(c, d, e);
    var n := Ints([a, b, c, d, e]);
    assert n[0] == a as nat && n[1] == b as nat && n[2] == c as nat && n[3] == d as nat && n[4] == e as nat;
  }

  lemma SplitKeepsTheNumber(b: seq<nat>)
    requires |b| == 5 && Below(b, 256)
    ensures Number(Split(b), 32) == Number(b, 256)
    ensures Below(Split(b), 32)
  {
    NumberOfEight(Split(b));
    NumberOfFive(b);
    Regrouped(b[0], b[1], b[2], b[3], b[4]);
  }

  lemma Regrouped(a: nat, b: nat, c: nat, d: nat, e: nat)
    requires a < 256 && b < 256 && c < 256 && d < 256 && e < 256
    ensures (a / 8) * 0x8_0000_0000 + ((a % 8) * 4 + b / 64) * 0x4000_0000 + ((b % 64) / 2) * 0x200_0000
            + ((b % 2) * 16 + c / 16) * 0x10_0000 + ((c % 16) * 2 + d / 128) * 0x8000 + ((d % 128) / 4) * 0x400
            + ((d % 4) * 8 + e / 32) * 0x20 + e % 32
         == a * 0x1_0000_0000 + b * 0x100_0000 + c * 0x1_0000 + d * 0x100 + e
  {
    assert b % 64 == ((b % 64) / 2) * 2 + b % 2;
    assert d % 128 == ((d % 128) / 4) * 4 + d % 4;
  }

  lemma FivesKeepTheNumber(a: bv8, b: bv8, c: bv8, d: bv8, e: bv8)
    ensures Number(Ints(Fives(a, b, c, d, e)), 32) == Value([a, b, c, d, e])
    ensures Below(Ints(Fives(a, b, c, d, e)), 32)
  {
    FivesAreDigits(a, b, c, d, e);
    SplitKeepsTheNumber(Ints([a, b, c, d, e]));
  }
}
