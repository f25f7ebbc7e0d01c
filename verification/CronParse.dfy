// Parsing one field of a cron expression into the set of values it names.
module CronParse {
  import opened Strings

  const MAX_INT := 0x7FFF_FFFF_FFFF_FFFF

  /** A field of the expression: its range, the names it accepts, and whether 7 is another 0. */
  datatype FieldSpec = FieldSpec(min: nat, max: nat, names: seq<string>, firstName: nat, sevenIsZero: bool) {
    predicate Valid() {
      && min <= max < 60
      && (forall i :: 0 <= i < |names| ==> IsName(names[i]) && min <= firstName + i <= max)
      && (sevenIsZero ==> min == 0)
    }

    predicate NamesDiffer() {
      forall i, j :: 0 <= i < j < |names| ==> names[i] != names[j]
    }
  }

  const MINUTE := FieldSpec(0, 59, [], 0, false)
  const HOUR := FieldSpec(0, 23, [], 0, false)
  const DAY_OF_MONTH := FieldSpec(1, 31, [], 0, false)
  const MONTH := FieldSpec(1, 12, ["jan", "feb", "mar", "apr", "may", "jun", "jul", "aug", "sep", "oct", "nov", "dec"],
      1, false)
  const DAY_OF_WEEK := FieldSpec(0, 6, ["sun", "mon", "tue", "wed", "thu", "fri", "sat"], 0, true)

  predicate IsName(s: string) {
    s != "" && forall i :: 0 <= i < |s| ==> 'a' <= s[i] <= 'z'
  }

  // ----- library pieces

  /** `strconv.Atoi`: an optional sign, digits, and a result that fits 64 bits. */
  function Atoi(s: string): Option<int> {
    var signed := s != "" && (s[0] == '+' || s[0] == '-');
    var digits := if signed then s[1..] else s;
    if !IsDigits(digits) then None
    else
      var n: int := Digits(digits);
      var v := if signed && s[0] == '-' then -n else n;
      if -MAX_INT - 1 <= v <= MAX_INT then Some(v) else None
  }

  /** The text before and after the first `c`, when there is one. */
  function Cut(s: string, c: char): (r: (string, string, bool)) {
    var k := IndexFrom(s, 0, [c]);
    if k < 0 then (s, "", false) else (s[..k], s[k + 1..], true)
  }

  lemma CutAt(a: string, c: char, b: string)
    requires Without(a, c)
    ensures Cut(a + [c] + b, c) == (a, b, true)
    ensures Cut(a, c) == (a, "", false)
  {
    var s := a + [c] + b;
    assert At(s, |a|, [c]);
    forall i | 0 <= i < |a| ensures !At(s, i, [c]) && !At(a, i, [c]) {
      assert s[i..i + 1][0] == a[i];
      assert a[i..i + 1][0] == a[i];
    }
    assert !At(a, |a|, [c]);
    assert s[..|a|] == a && s[|a| + 1..] == b;
  }

  /** Lower case, as far as it can produce a letter of a name. */
  function Lower(s: string): (t: string)
    ensures |t| == |s|
  {
    seq(|s|, i requires 0 <= i < |s| =>
      if 'A' <= s[i] <= 'Z' then (s[i] as int + 32) as char
      else if s[i] == '\U{130}' then 'i'
      else if s[i] == '\U{212A}' then 'k'
      else s[i])
  }

  // ----- the parser

  function NameIndex(names: seq<string>, s: string): (k: nat)
    ensures k <= |names|
    ensures k < |names| ==> names[k] == s
    ensures k == |names| ==> s !in names
  {
    if names == [] then 0 else if names[0] == s then 0 else 1 + NameIndex(names[1..], s)
  }

  function ParseValue(text: string, spec: FieldSpec): Option<int> {
    var s := TrimSpace(text);
    var k := NameIndex(spec.names, Lower(s));
    if k < |spec.names| then Some(spec.firstName + k)
    else
      var n := Atoi(s);
      if n == None then None
      else
        var v := if spec.sevenIsZero && n.value == 7 then 0 else n.value;
        if spec.min <= v <= spec.max then Some(v) else None
  }

  datatype Reading = Reading(lo: int, hi: int, step: int)

  /** What a list element says: a range and a step, or nothing when it is malformed. */
  function Read(text: string, spec: FieldSpec): Option<Reading> {
    var part := TrimSpace(text);
    if part == "" then None
    else
      var (base, stepText, stepped) := Cut(part, '/');
      var step := if stepped then Atoi(stepText) else Some(1);
      if step == None || step.value <= 0 then None
      else ReadBase(base, step.value, spec)
  }

  function ReadBase(base: string, step: int, spec: FieldSpec): Option<Reading> {
    if base == "*" then Some(Reading(spec.min, spec.max, step))
    else
      var (loText, hiText, isRange) := Cut(base, '-');
      var lo := ParseValue(loText, spec);
      if lo == None then None
      else
        var hi := if isRange then ParseValue(hiText, spec) else lo;
        if hi == None || lo.value > hi.value then None else Some(Reading(lo.value, hi.value, step))
  }

  /** Counting up from the low end in steps reaches `v`. */
  predicate OnStep(r: Reading, v: int)
    requires r.step > 0
    decreases v - r.lo
  {
    v >= r.lo && (v == r.lo || OnStep(r, v - r.step))
  }

  predicate Hits(r: Reading, v: int)
    requires r.step > 0
  {
    v <= r.hi && OnStep(r, v)
  }

  function Wrap(v: int): int {
    if v > MAX_INT then v - 0x1_0000_0000_0000_0000 else v
  }

  datatype Outcome = Done | Rejected | Panics

  /** The loop that sets flags. Its counter is a 64-bit integer and wraps when the step overflows it. */
  method SetFlags(r: Reading, bits: array<bool>) returns (panicked: bool)
    requires 0 <= r.lo <= r.hi < bits.Length <= 60 && 0 < r.step <= MAX_INT
    modifies bits
    ensures panicked <==> Overflows(r)
    ensures !panicked ==> forall v :: 0 <= v < bits.Length ==> (bits[v] <==> old(bits[v]) || Hits(r, v))
  {
    var v := r.lo;
    while v <= r.hi
      invariant r.lo <= v <= MAX_INT && OnStep(r, v)
      invariant forall u :: 0 <= u < bits.Length ==> (bits[u] <==> old(bits[u]) || (Hits(r, u) && u < v))
      invariant forall u :: Hits(r, u) && u < v ==> u + r.step <= v
      decreases r.hi - v
    {
      assert Hits(r, v);
      bits[v] := true;
      NextHit(r, v);
      v := Wrap(v + r.step);
      if v < 0 {
        return true;
      }
    }
    return false;
  }

  /** Sets the flags a list element names. */
  method ParseRange(text: string, spec: FieldSpec, bits: array<bool>) returns (o: Outcome)
    requires spec.Valid() && bits.Length == spec.max + 1
    modifies bits
    ensures o == Rejected <==> Read(text, spec) == None
    ensures o == Rejected ==> bits[..] == old(bits[..])
    ensures o == Panics <==> Read(text, spec).Some? && Overflows(Read(text, spec).value)
    ensures o == Done ==> forall v :: 0 <= v < bits.Length ==>
              (bits[v] <==> old(bits[v]) || Hits(Read(text, spec).value, v))
  {
    var read := Read(text, spec);
    if read == None {
      return Rejected;
    }
    ReadIsInRange(text, spec);
    var panicked := SetFlags(read.value, bits);
    return if panicked then Panics else Done;
  }

  /** The loop's counter wraps after some value it sets. */
  ghost predicate Overflows(r: Reading) {
    r.step > 0 && exists v :: Hits(r, v) && v + r.step > MAX_INT
  }

  lemma ReadIsInRange(text: string, spec: FieldSpec)
    requires spec.Valid() && Read(text, spec).Some?
    ensures var r := Read(text, spec).value; spec.min <= r.lo <= r.hi <= spec.max && 0 < r.step <= MAX_INT
  {
  }

  lemma {:induction false} StepsApart(r: Reading, v: int, u: int)
    requires r.step > 0 && OnStep(r, v) && OnStep(r, u) && v < u
    ensures v + r.step <= u
    decreases v - r.lo
  {
    if v != r.lo {
      StepsApart(r, v - r.step, u - r.step);
    }
  }

  lemma NextHit(r: Reading, v: int)
    requires r.step > 0 && OnStep(r, v)
    ensures OnStep(r, v + r.step)
    ensures forall u :: Hits(r, u) && v < u ==> v + r.step <= u
  {
    forall u | Hits(r, u) && v < u ensures v + r.step <= u {
      StepsApart(r, v, u);
    }
  }

  /** The values an element names are those at a multiple of the step from its low end. */
  lemma {:induction false} StepsAreMultiples(r: Reading, v: int)
    requires r.step > 0
    ensures OnStep(r, v) <==> v >= r.lo && (v - r.lo) % r.step == 0
    decreases v - r.lo
  {
    if v >= r.lo + r.step {
      StepsAreMultiples(r, v - r.step);
      var k, x := (v - r.step - r.lo) / r.step, (v - r.step - r.lo) % r.step;
      assert v - r.lo == (k + 1) * r.step + x by {
        assert (k + 1) * r.step == k * r.step + r.step;
      }
      RemainderOf(k + 1, r.step, x);
    } else if v >= r.lo {
      RemainderOf(0, r.step, v - r.lo);
    }
  }

  lemma Multiple(a: int, step: int)
    requires step > 0 && a != 0
    ensures a * step >= step || a * step <= -step
  {
    if a > 0 {
      assert (a - 1) * step >= 0;
    } else {
      assert (-a - 1) * step >= 0;
    }
  }

  lemma RemainderOf(k: int, step: int, x: int)
    requires 0 <= x < step
    ensures (k * step + x) % step == x
  {
    var y := k * step + x;
    var q, m := y / step, y % step;
    assert y == q * step + m;
    assert (q - k) * step == q * step - k * step;
    if q != k {
      Multiple(q - k, step);
    }
  }

  // ----- the notation a person writes, and what it means

  datatype Bound = Num(n: nat) | Name(k: nat)

  datatype Base = Star | Single(b: Bound) | Range(from: Bound, to: Bound)

  datatype Element = Element(base: Base, step: Option<nat>)

  predicate Known(b: Bound, spec: FieldSpec) {
    b.Name? ==> b.k < |spec.names|
  }

  predicate KnownBase(b: Base, spec: FieldSpec) {
    match b
    case Star => true
    case Single(x) => Known(x, spec)
    case Range(x, y) => Known(x, spec) && Known(y, spec)
  }

  function BoundText(b: Bound, spec: FieldSpec): string
    requires Known(b, spec)
  {
    match b
    case Num(n) => Itoa(n)
    case Name(k) => spec.names[k]
  }

  function BaseText(b: Base, spec: FieldSpec): string
    requires KnownBase(b, spec)
  {
    match b
    case Star => "*"
    case Single(x) => BoundText(x, spec)
    case Range(x, y) => BoundText(x, spec) + "-" + BoundText(y, spec)
  }

  function ElementText(e: Element, spec: FieldSpec): string
    requires KnownBase(e.base, spec)
  {
    if e.step.Some? then BaseText(e.base, spec) + "/" + Itoa(e.step.value) else BaseText(e.base, spec)
  }

  function BoundValue(b: Bound, spec: FieldSpec): Option<int>
    requires Known(b, spec)
  {
    match b
    case Name(k) => Some(spec.firstName + k)
    case Num(n) =>
      if spec.sevenIsZero && n == 7 then Some(0)
      else if spec.min <= n <= spec.max then Some(n)
      else None
  }

  /** The range and step an element stands for, or None when the element must be refused. */
  function Meaning(e: Element, spec: FieldSpec): Option<Reading>
    requires KnownBase(e.base, spec)
  {
    if e.step.Some? && (e.step.value == 0 || e.step.value > MAX_INT) then None
    else
      var step := if e.step.Some? then e.step.value else 1;
      match e.base
      case Star => Some(Reading(spec.min, spec.max, step))
      case Single(x) =>
        var v := BoundValue(x, spec);
        if v == None then None else Some(Reading(v.value, v.value, step))
      case Range(x, y) =>
        var lo, hi := BoundValue(x, spec), BoundValue(y, spec);
        if lo == None || hi == None || lo.value > hi.value then None else Some(Reading(lo.value, hi.value, step))
  }

  predicate Plain(s: string) {
    s != "" && forall i :: 0 <= i < |s| ==> 'a' <= s[i] <= 'z' || '0' <= s[i] <= '9'
  }

  lemma PlainText(s: string)
    requires Plain(s)
    ensures TrimSpace(s) == s && Lower(s) == s && Without(s, '/') && Without(s, '-') && s != "*"
  {
    TrimFindsCore("", s, "");
    assert "" + s + "" == s;
  }

  lemma BoundIsPlain(b: Bound, spec: FieldSpec)
    requires spec.Valid() && Known(b, spec)
    ensures Plain(BoundText(b, spec))
  {
    if b.Name? {
      assert IsName(spec.names[b.k]);
    }
  }

  lemma AtoiOfItoa(n: nat)
    ensures Atoi(Itoa(n)) == if n <= MAX_INT then Some(n) else None
  {
    DigitsOfItoa(n);
  }

  lemma ValueOfBound(b: Bound, spec: FieldSpec)
    requires spec.Valid() && spec.NamesDiffer() && Known(b, spec)
    ensures ParseValue(BoundText(b, spec), spec) == BoundValue(b, spec)
  {
    var s := BoundText(b, spec);
    BoundIsPlain(b, spec);
    PlainText(s);
    var k := NameIndex(spec.names, s);
    match b {
      case Name(j) =>
        assert s in spec.names;
      case Num(n) =>
        assert k < |spec.names| ==> IsName(spec.names[k]);
        AtoiOfItoa(n);
    }
  }

  lemma SingleGivesTheMeaning(x: Bound, step: nat, spec: FieldSpec)
    requires spec.Valid() && spec.NamesDiffer() && Known(x, spec) && 0 < step <= MAX_INT
    ensures ReadBase(BoundText(x, spec), step, spec) == Meaning(Element(Single(x), Some(step)), spec)
  {
    BoundIsPlain(x, spec);
    PlainText(BoundText(x, spec));
    CutAt(BoundText(x, spec), '-', "");
    ValueOfBound(x, spec);
  }

  lemma RangeReads(from: string, to: string, step: int, spec: FieldSpec)
    requires Without(from, '-')
    ensures
      var lo, hi := ParseValue(from, spec), ParseValue(to, spec);
      ReadBase(from + "-" + to, step, spec) ==
      if lo == None || hi == None || lo.value > hi.value then None else Some(Reading(lo.value, hi.value, step))
  {
    CutAt(from, '-', to);
    assert (from + "-" + to)[|from|] == '-';
  }

  lemma RangeGivesTheMeaning(x: Bound, y: Bound, step: nat, spec: FieldSpec)
    requires spec.Valid() && spec.NamesDiffer() && Known(x, spec) && Known(y, spec) && 0 < step <= MAX_INT
    ensures ReadBase(BaseText(Range(x, y), spec), step, spec) == Meaning(Element(Range(x, y), Some(step)), spec)
  {
    BoundIsPlain(x, spec);
    PlainText(BoundText(x, spec));
    ValueOfBound(x, spec);
    ValueOfBound(y, spec);
    RangeReadsAs(BoundText(x, spec), BoundText(y, spec), step, spec, BoundValue(x, spec), BoundValue(y, spec));
  }

  lemma RangeReadsAs(from: string, to: string, step: int, spec: FieldSpec, lo: Option<int>, hi: Option<int>)
    requires Without(from, '-') && ParseValue(from, spec) == lo && ParseValue(to, spec) == hi
    ensures ReadBase(from + "-" + to, step, spec)
         == if lo == None || hi == None || lo.value > hi.value then None else Some(Reading(lo.value, hi.value, step))
  {
    RangeReads(from, to, step, spec);
  }

  lemma BaseGivesTheMeaning(b: Base, step: nat, spec: FieldSpec)
    requires spec.Valid() && spec.NamesDiffer() && KnownBase(b, spec) && 0 < step <= MAX_INT
    ensures ReadBase(BaseText(b, spec), step, spec) == Meaning(Element(b, Some(step)), spec)
  {
    match b {
      case Star =>
      case Single(x) => SingleGivesTheMeaning(x, step, spec);
      case Range(x, y) => RangeGivesTheMeaning(x, y, step, spec);
    }
  }

  lemma TextIsTrimmed(e: Element, spec: FieldSpec)
    requires spec.Valid() && KnownBase(e.base, spec)
    ensures TrimSpace(ElementText(e, spec)) == ElementText(e, spec) != ""
  {
    BaseIsSound(e.base, spec);
    TrimFindsCore("", ElementText(e, spec), "");
    assert "" + ElementText(e, spec) + "" == ElementText(e, spec);
  }

  /** Reading what was written gives exactly its meaning, and refuses exactly what has none. */
  lemma ReadGivesTheMeaning(e: Element, spec: FieldSpec)
    requires spec.Valid() && spec.NamesDiffer() && KnownBase(e.base, spec)
    ensures Read(ElementText(e, spec), spec) == Meaning(e, spec)
  {
    TextIsTrimmed(e, spec);
    BaseIsSound(e.base, spec);
    match e.step {
      case None =>
        CutAt(BaseText(e.base, spec), '/', "");
        BaseGivesTheMeaning(e.base, 1, spec);
      case Some(n) =>
        CutAt(BaseText(e.base, spec), '/', Itoa(n));
        AtoiOfItoa(n);
        if 0 < n <= MAX_INT {
          BaseGivesTheMeaning(e.base, n, spec);
        }
    }
  }

  lemma BaseIsSound(b: Base, spec: FieldSpec)
    requires spec.Valid() && KnownBase(b, spec)
    ensures var t := BaseText(b, spec); t != "" && Without(t, '/') && !IsSpace(t[0]) && !IsSpace(t[|t| - 1])
    ensures b != Star ==> BaseText(b, spec) != "*"
  {
    match b {
      case Star =>
      case Single(x) =>
        BoundIsPlain(x, spec);
      case Range(x, y) =>
        BoundIsPlain(x, spec);
        BoundIsPlain(y, spec);
    }
  }

  /** A step large enough overflows: the element names value 1, then the counter wraps below zero. */
  lemma AHugeStepPanics()
    ensures
      var e := Element(Range(Num(1), Num(5)), Some(MAX_INT));
      var r := Read(ElementText(e, MINUTE), MINUTE);
      r == Some(Reading(1, 5, MAX_INT)) && Overflows(r.value)
  {
    ReadGivesTheMeaning(Element(Range(Num(1), Num(5)), Some(MAX_INT)), MINUTE);
    assert Hits(Reading(1, 5, MAX_INT), 1);
  }

  /** Only the first step can overflow: an element panics exactly when its low end and its step do not fit together. */
  lemma OverflowsExactlyOnTheFirstStep(text: string, spec: FieldSpec)
    requires spec.Valid() && Read(text, spec).Some?
    ensures var r := Read(text, spec).value; Overflows(r) <==> r.lo + r.step > MAX_INT
  {
    var r := Read(text, spec).value;
    ReadIsInRange(text, spec);
    assert Hits(r, r.lo);
    forall v | Hits(r, v) && v > r.lo ensures r.lo + r.step <= v {
      StepsApart(r, r.lo, v);
    }
  }

  // ----- a whole field

  ghost predicate Parsable(text: string, spec: FieldSpec) {
    Read(text, spec).Some? && !Overflows(Read(text, spec).value)
  }

  ghost predicate AllParsable(field: string, spec: FieldSpec) {
    forall i :: 0 <= i < |Split(field, ',')| ==> Parsable(Split(field, ',')[i], spec)
  }

  /** Some element of the list names `v`. */
  ghost predicate Named(parts: seq<string>, spec: FieldSpec, v: int) {
    exists i :: 0 <= i < |parts| && NamedBy(parts[i], spec, v)
  }

  ghost predicate NamedBy(part: string, spec: FieldSpec, v: int) {
    Read(part, spec).Some? && Read(part, spec).value.step > 0 && Hits(Read(part, spec).value, v)
  }

  /** Parses a comma-separated field into its flags: on success they are the union of what the elements name. */
  method ParseField(field: string, spec: FieldSpec, bits: array<bool>) returns (o: Outcome)
    requires spec.Valid() && bits.Length == spec.max + 1
    requires forall v :: 0 <= v < bits.Length ==> !bits[v]
    modifies bits
    ensures o == Done ==> forall v :: 0 <= v < bits.Length ==> (bits[v] <==> Named(Split(field, ','), spec, v))
    ensures o == Done <==> AllParsable(field, spec)
  {
    var parts := Split(field, ',');
    for i := 0 to |parts|
      invariant forall v :: 0 <= v < bits.Length ==> (bits[v] <==> Named(parts[..i], spec, v))
      invariant forall j :: 0 <= j < i ==> Parsable(parts[j], spec)
    {
      o := ParseRange(parts[i], spec, bits);
      if o != Done {
        assert !Parsable(Split(field, ',')[i], spec);
        return;
      }
      NamedByOneMore(parts, i, spec);
    }
    assert parts[..|parts|] == parts;
    return Done;
  }

  lemma NamedByOneMore(parts: seq<string>, i: nat, spec: FieldSpec)
    requires spec.Valid() && i < |parts| && Read(parts[i], spec).Some?
    ensures Read(parts[i], spec).value.step > 0
    ensures forall v :: Named(parts[..i + 1], spec, v) <==>
              Named(parts[..i], spec, v) || Hits(Read(parts[i], spec).value, v)
  {
    ReadIsInRange(parts[i], spec);
    forall v ensures Named(parts[..i + 1], spec, v) <==> Named(parts[..i], spec, v) || NamedBy(parts[i], spec, v) {
      OneMorePart(parts, i, spec, v);
    }
  }

  lemma OneMorePart(parts: seq<string>, i: nat, spec: FieldSpec, v: int)
    requires i < |parts|
    ensures Named(parts[..i + 1], spec, v) <==> Named(parts[..i], spec, v) || NamedBy(parts[i], spec, v)
  {
    var fewer, more := parts[..i], parts[..i + 1];
    assert more == fewer + [parts[i]];
    if Named(fewer, spec, v) {
      var j :| 0 <= j < i && NamedBy(fewer[j], spec, v);
      assert more[j] == fewer[j];
    }
    if NamedBy(parts[i], spec, v) {
      assert more[i] == parts[i];
    }
    if Named(more, spec, v) {
      var j :| 0 <= j < i + 1 && NamedBy(more[j], spec, v);
      assert j < i ==> fewer[j] == more[j];
    }
  }

  /** The five fields' ranges and names are consistent, and no name stands for two values. */
  lemma FieldsAreConsistent()
    ensures MINUTE.Valid() && HOUR.Valid() && DAY_OF_MONTH.Valid() && MONTH.Valid() && DAY_OF_WEEK.Valid()
    ensures forall spec :: spec in {MINUTE, HOUR, DAY_OF_MONTH, MONTH, DAY_OF_WEEK} ==> spec.NamesDiffer()
  {
    var m, d := MONTH.names, DAY_OF_WEEK.names;
    forall i | 0 <= i < 12 ensures |m[i]| == 3 && IsName(m[i]) {
    }
    forall i | 0 <= i < 7 ensures |d[i]| == 3 && IsName(d[i]) {
    }
    forall i, j | 0 <= i < j < 12 ensures m[i] != m[j] {
      assert (m[i][0], m[i][1], m[i][2]) != (m[j][0], m[j][1], m[j][2]);
    }
    forall i, j | 0 <= i < j < 7 ensures d[i] != d[j] {
      assert (d[i][0], d[i][1], d[i][2]) != (d[j][0], d[j][1], d[j][2]);
    }
  }

  /** A lone `*` sets every flag of its field, which is what an unrestricted day field stands for. */
  lemma StarNamesEverything(spec: FieldSpec, v: int)
    requires spec.Valid() && spec.min <= v <= spec.max
    ensures Split("*", ',') == ["*"] && Named(["*"], spec, v)
  {
    SplitJoin(["*"], ',');
    TrimFindsCore("", "*", "");
    assert "" + "*" + "" == "*";
    CutAt("*", '/', "");
    StepsAreMultiples(Reading(spec.min, spec.max, 1), v);
    assert NamedBy(["*"][0], spec, v);
  }
}
