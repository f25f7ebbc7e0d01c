// Drawing identifiers that rise.
module UlidGenerator {
  // The random part is drawn afresh in a new millisecond and counted up within one.

  import opened Numerals
  import opened TextOrder
  import opened UlidBits
  import opened Ulid
  import ByteConversion

  const RANDOM_BITS := 0x1_0000_0000_0000_0000_0000
  const TIME_BITS := 0x1_0000_0000_0000
  const WORD := 0x1_0000_0000_0000_0000

  // ----- what one draw does -----

  datatype Clock = Clock(lastMs: nat, lastRand: nat)

  predicate Full(c: Clock) {
    c.lastRand == RANDOM_BITS - 1
  }

  function Tick(c: Clock, ms: nat, drawn: nat): Clock {
    if ms != c.lastMs then Clock(ms, drawn)
    else if Full(c) then Clock((ms + 1) % WORD, drawn)
    else Clock(ms, c.lastRand + 1)
  }

  /** The number of the identifier drawn last. */
  function Stamp(c: Clock): nat {
    c.lastMs % TIME_BITS * RANDOM_BITS + c.lastRand
  }

  // ----- the generator -----

  lemma PowersOfBytes()
    ensures Power(256, 10) == RANDOM_BITS && Power(256, 6) == TIME_BITS
  {
    PowersAgree();
    PowerOfSum(256, 5, 5);
    assert Power(256, 6) == Power(256, 5) * 256;
  }

  lemma ValueIsBelowPower(b: Bytes)
    ensures Value(b) < Power(256, |b|)
  {
    assert Below(Ints(b), 256);
    NumberIsBelowPower(Ints(b), 256);
  }

  lemma LastByte(b: Bytes)
    requires b != []
    ensures Value(b) == Value(b[..|b| - 1]) * 256 + b[|b| - 1] as nat
  {
    assert Ints(b)[..|b| - 1] == Ints(b[..|b| - 1]);
  }

  /** A number that ends in the greatest digit throughout is followed by one that ends in zeros. */
  lemma {:induction false} Carry(before: seq<nat>, after: seq<nat>, i: nat)
    requires |before| == |after| && i <= |before| && before[..i] == after[..i]
    requires forall k :: i <= k < |before| ==> before[k] == 255 && after[k] == 0
    ensures Number(before, 256) + 1 == Number(after, 256) + Power(256, |before| - i)
    decreases |before|
  {
    var n := |before|;
    if i == n {
      assert before[..i] == before && after[..i] == after;
    } else {
      Carry(before[..n - 1], after[..n - 1], i);
    }
  }

  /** Raising one digit by one and clearing the greatest digits behind it adds one. */
  lemma {:induction false} Raise(before: seq<nat>, after: seq<nat>, i: nat)
    requires |before| == |after| && i < |before| && before[..i] == after[..i]
    requires after[i] == before[i] + 1
    requires forall k :: i < k < |before| ==> before[k] == 255 && after[k] == 0
    ensures Number(after, 256) == Number(before, 256) + 1
    decreases |before|
  {
    var n := |before|;
    if i == n - 1 {
      assert before[..n - 1] == after[..n - 1];
    } else {
      assert before[..n - 1][..i] == before[..i] && after[..n - 1][..i] == after[..i];
      Raise(before[..n - 1], after[..n - 1], i);
    }
  }

  lemma RaisedByte(before: Bytes, after: Bytes, i: nat)
    requires |before| == |after| && i < |before|
    requires before[..i] == after[..i] && before[i] != 0xFF && after[i] == before[i] + 1
    requires forall k :: i < k < |before| ==> before[k] == 0xFF && after[k] == 0
    ensures Value(after) == Value(before) + 1
  {
    OneMore(before[i]);
    assert Ints(before)[..i] == Ints(before[..i]) && Ints(after)[..i] == Ints(after[..i]);
    forall k | i < k < |before|
      ensures Ints(before)[k] == 255 && Ints(after)[k] == 0
    {
      FullAndEmpty(before[k], after[k]);
    }
    Raise(Ints(before), Ints(after), i);
  }

  lemma OneMore(b: bv8)
    requires b != 0xFF
    ensures (b + 1) as nat == b as nat + 1
  {
  }

  lemma FullAndEmpty(full: bv8, empty: bv8)
    requires full == 0xFF && empty == 0
    ensures full as nat == 255 && empty as nat == 0
  {
  }

  method Increment(r: array<bv8>) returns (ok: bool)
    requires r.Length == 10
    modifies r
    ensures ok == (old(Value(r[..])) != RANDOM_BITS - 1)
    ensures Value(r[..]) == if ok then old(Value(r[..])) + 1 else 0
  {
    PowersOfBytes();
    var i := r.Length;
    while i > 0
      invariant 0 <= i <= r.Length
      invariant r[..i] == old(r[..i])
      invariant forall k :: i <= k < r.Length ==> old(r[k]) == 0xFF && r[k] == 0
    {
      i := i - 1;
      if r[i] != 0xFF {
        r[i] := r[i] + 1;
        RaisedByte(old(r[..]), r[..], i);
        ValueIsBelowPower(r[..]);
        return true;
      }
      r[i] := 0;
    }
    AllCarried(old(r[..]), r[..]);
    return false;
  }

  lemma AllCarried(before: Bytes, after: Bytes)
    requires |before| == |after| == 10
    requires forall k :: 0 <= k < 10 ==> before[k] == 0xFF && after[k] == 0
    ensures Value(before) == RANDOM_BITS - 1 && Value(after) == 0
  {
    PowersOfBytes();
    forall k | 0 <= k < 10
      ensures Ints(before)[k] == 255 && Ints(after)[k] == 0
    {
      FullAndEmpty(before[k], after[k]);
    }
    Carry(Ints(before), Ints(after), 0);
    ValueIsBelowPower(before);
  }

  function Byte(n: nat): bv8 {
    (n % 256) as bv8
  }

  /** The low six bytes of a number. */
  function TimeBytes(ms: nat): Bytes {
    [Byte(ms / 0x100_0000_0000), Byte(ms / 0x1_0000_0000), Byte(ms / 0x100_0000), Byte(ms / 0x1_0000), Byte(ms / 0x100),
        Byte(ms)]
  }

  lemma TimeBytesKeepTheTime(ms: nat)
    ensures Value(TimeBytes(ms)) == ms % TIME_BITS
  {
    ByteOf(ms / 0x100_0000_0000);
    ByteOf(ms / 0x1_0000_0000);
    ByteOf(ms / 0x100_0000);
    ByteOf(ms / 0x1_0000);
    ByteOf(ms / 0x100);
    ByteOf(ms);
    SixBytes(TimeBytes(ms));
    SixBytesOf(ms);
  }

  lemma ByteOf(n: nat)
    ensures Byte(n) as nat == n % 256
  {
    ByteConversion.ThereAndBack(n % 256);
  }

  lemma SixBytes(b: Bytes)
    requires |b| == 6
    ensures Value(b)
        == (b[0] as nat * 0x1_0000_0000 + b[1] as nat * 0x100_0000 + b[2] as nat * 0x1_0000 + b[3] as nat * 0x100
                         + b[4] as nat) * 256 + b[5] as nat
  {
    SixDigits(Ints(b));
  }

  lemma SixDigits(d: seq<nat>)
    requires |d| == 6
    ensures Number(d, 256)
        == (d[0] * 0x1_0000_0000 + d[1] * 0x100_0000 + d[2] * 0x1_0000 + d[3] * 0x100 + d[4]) * 256 + d[5]
  {
    OneMoreDigit(d, 5, 256);
    assert d[..6] == d;
    NumberOfFive(d[..5]);
  }

  lemma SixBytesOf(ms: nat)
    ensures ms % TIME_BITS
         == (ms / 0x100_0000_0000 % 256 * 0x1_0000_0000 + ms / 0x1_0000_0000 % 256 * 0x100_0000
             + ms / 0x100_0000 % 256 * 0x1_0000
             + ms / 0x1_0000 % 256 * 0x100 + ms / 0x100 % 256) * 256 + ms % 256
  {
    assert ms / 0x1_0000 == ms / 0x100 / 256;
    assert ms / 0x100_0000 == ms / 0x1_0000 / 256;
    assert ms / 0x1_0000_0000 == ms / 0x100_0000 / 256;
    assert ms / 0x100_0000_0000 == ms / 0x1_0000_0000 / 256;
  }

  class Generator {
    var lastMs: nat
    const lastRand: array<bv8>

    ghost predicate Valid()
      reads this, lastRand
    {
      lastRand.Length == 10
    }

    ghost function State(): Clock
      reads this, lastRand
    {
      Clock(lastMs, Value(lastRand[..]))
    }

    constructor ()
      ensures Valid() && State() == Clock(0, 0)
      ensures fresh(lastRand)
    {
      lastMs := 0;
      lastRand := new bv8[10](_ => 0);
      new;
      AllZero(lastRand[..]);
    }

    /** Draws the next identifier at a moment given in milliseconds. */
    method NewAt(ms: nat, drawn: Bytes) returns (id: string)
      requires Valid() && ms < WORD && |drawn| == 10
      modifies this, lastRand
      ensures Valid()
      ensures State() == Tick(old(State()), ms, Value(drawn))
      ensures |id| == LENGTH && Canonical(id) && WellFormed(id)
      ensures ValueOf(id) == Stamp(State())
      ensures ValueOf(id[..10]) == lastMs % TIME_BITS
    {
      var now := ms;
      if now == lastMs {
        var ok := Increment(lastRand);
        if !ok {
          now := (now + 1) % WORD;
          lastMs := now;
          Randomise(drawn);
        }
      } else {
        lastMs := now;
        Randomise(drawn);
      }
      var b := TimeBytes(now) + lastRand[..];
      id := Encode(b);
      assert b[..6] == TimeBytes(now);
      ValueOfConcat(TimeBytes(now), lastRand[..]);
      TimeBytesKeepTheTime(now);
      PowersOfBytes();
      CanonicalIsWellFormed(id);
    }

    method Randomise(drawn: Bytes)
      requires Valid() && |drawn| == 10
      modifies lastRand
      ensures lastRand[..] == drawn
    {
      for i := 0 to 10
        invariant lastRand[..i] == drawn[..i]
      {
        lastRand[i] := drawn[i];
      }
    }
  }

  lemma CanonicalIsWellFormed(id: string)
    requires |id| == LENGTH && Canonical(id) && id[0] <= '7'
    ensures WellFormed(id)
  {
    CanonicalDigits(id);
  }

  lemma {:induction false} AllZero(b: Bytes)
    requires forall k :: 0 <= k < |b| ==> b[k] == 0
    ensures Value(b) == 0
  {
    if b != [] {
      LastByte(b);
      AllZero(b[..|b| - 1]);
    }
  }

  // ----- identifiers rise -----

  ghost predicate Sound(c: Clock) {
    c.lastRand < RANDOM_BITS && c.lastMs < TIME_BITS
  }

  lemma StampsCompare(a: Clock, b: Clock)
    requires Sound(a) && Sound(b)
    ensures Stamp(a) < Stamp(b) <==> a.lastMs < b.lastMs || (a.lastMs == b.lastMs && a.lastRand < b.lastRand)
  {
  }

  /** An identifier is greater than the one before it exactly when the clock has not fallen behind the
      time the one before it carries. */
  lemma RisesUnlessTheClockFallsBehind(c: Clock, ms: nat, drawn: nat)
    requires Sound(c) && Sound(Tick(c, ms, drawn)) && ms < TIME_BITS
    ensures Stamp(c) < Stamp(Tick(c, ms, drawn)) <==> ms >= c.lastMs
  {
    StampsCompare(c, Tick(c, ms, drawn));
  }

  datatype Draw = Draw(ms: nat, drawn: nat)

  function After(c: Clock, draws: seq<Draw>): Clock {
    if draws == [] then c
    else
      var n := |draws| - 1;
      Tick(After(c, draws[..n]), draws[n].ms, draws[n].drawn)
  }

  ghost predicate InRange(draws: seq<Draw>) {
    forall i :: 0 <= i < |draws| ==> draws[i].ms < TIME_BITS && draws[i].drawn < RANDOM_BITS
  }

  ghost predicate ClockNeverFalls(draws: seq<Draw>) {
    forall i, j :: 0 <= i < j < |draws| ==> draws[i].ms <= draws[j].ms
  }

  /** No millisecond uses up its random numbers. */
  ghost predicate NeverOverflows(c: Clock, draws: seq<Draw>) {
    forall i :: 0 <= i < |draws| && Full(After(c, draws[..i])) ==> draws[i].ms != After(c, draws[..i]).lastMs
  }

  lemma {:induction false} TimeIsTheLastDraws(c: Clock, draws: seq<Draw>)
    requires Sound(c) && InRange(draws) && NeverOverflows(c, draws)
    ensures Sound(After(c, draws))
    ensures draws != [] ==> After(c, draws).lastMs == draws[|draws| - 1].ms
    decreases |draws|
  {
    if draws != [] {
      var n := |draws| - 1;
      forall i | 0 <= i < n
        ensures draws[..n][..i] == draws[..i]
      {
      }
      assert draws[..n] == draws[..|draws| - 1];
      TimeIsTheLastDraws(c, draws[..n]);
    }
  }

  /** While the clock does not run backwards and no millisecond runs out, identifiers strictly rise. */
  lemma {:induction false} IdentifiersRise(c: Clock, draws: seq<Draw>, i: nat, j: nat)
    requires Sound(c) && InRange(draws) && ClockNeverFalls(draws) && NeverOverflows(c, draws)
    requires 0 < i < j <= |draws|
    ensures Stamp(After(c, draws[..i])) < Stamp(After(c, draws[..j]))
    decreases j
  {
    Prefix(c, draws, j - 1);
    Prefix(c, draws, j);
    TimeIsTheLastDraws(c, draws[..j - 1]);
    TimeIsTheLastDraws(c, draws[..j]);
    assert draws[..j][..j - 1] == draws[..j - 1];
    RisesUnlessTheClockFallsBehind(After(c, draws[..j - 1]), draws[j - 1].ms, draws[j - 1].drawn);
    if i < j - 1 {
      IdentifiersRise(c, draws, i, j - 1);
    }
  }

  lemma Prefix(c: Clock, draws: seq<Draw>, n: nat)
    requires InRange(draws) && NeverOverflows(c, draws) && n <= |draws|
    ensures InRange(draws[..n]) && NeverOverflows(c, draws[..n])
  {
    forall i | 0 <= i < n
      ensures draws[..n][..i] == draws[..i]
    {
    }
  }

  /** The texts drawn in turn: each is in capitals and stands for the number of its draw. */
  ghost predicate AreTexts(c: Clock, draws: seq<Draw>, texts: seq<string>) {
    && |texts| == |draws|
    && forall k :: 0 <= k < |texts| ==> IsTextOf(texts[k], After(c, draws[..k + 1]))
  }

  ghost predicate IsTextOf(text: string, c: Clock) {
    |text| == LENGTH && Canonical(text) && ValueOf(text) == Stamp(c)
  }

  lemma TextsCompare(earlier: string, later: string, a: Clock, b: Clock)
    requires IsTextOf(earlier, a) && IsTextOf(later, b)
    ensures Less(earlier, later) <==> Stamp(a) < Stamp(b)
  {
    TextOrderIsNumberOrder(earlier, later);
  }

  /** And so do the texts of a run, which is what sorting and paging by identifier rely on. */
  lemma {:induction false} TextsRise(c: Clock, draws: seq<Draw>, texts: seq<string>, i: nat, j: nat)
    requires Sound(c) && InRange(draws) && ClockNeverFalls(draws) && NeverOverflows(c, draws)
    requires AreTexts(c, draws, texts) && i < j < |texts|
    ensures Less(texts[i], texts[j])
  {
    IdentifiersRise(c, draws, i + 1, j + 1);
    TextsCompare(texts[i], texts[j], After(c, draws[..i + 1]), After(c, draws[..j + 1]));
  }

  /** When a millisecond does run out, the next identifier carries the next millisecond, and the one
      after it, drawn in the same millisecond again, is smaller. */
  lemma AfterAnOverflowTimeGoesBack(ms: nat, drawn: nat, again: nat)
    requires ms + 1 < TIME_BITS && drawn < RANDOM_BITS && again < RANDOM_BITS
    ensures var full := Clock(ms, RANDOM_BITS - 1);
            var stepped := Tick(full, ms, drawn);
            Stamp(full) < Stamp(stepped) && Stamp(Tick(stepped, ms, again)) < Stamp(stepped)
  {
    var stepped := Tick(Clock(ms, RANDOM_BITS - 1), ms, drawn);
    StampsCompare(Clock(ms, RANDOM_BITS - 1), stepped);
    StampsCompare(Tick(stepped, ms, again), stepped);
  }
}
