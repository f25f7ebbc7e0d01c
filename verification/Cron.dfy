// From the five fields of an expression to a schedule.
module Cron {
  import opened Strings
  import opened CronParse
  import opened CronNext

  /** Every value a field names has its flag set, and no other value has. */
  ghost predicate Says(bits: seq<bool>, field: string, spec: FieldSpec) {
    |bits| == spec.max + 1 && forall v :: 0 <= v < |bits| ==> (bits[v] <==> Named(Split(field, ','), spec, v))
  }

  ghost predicate SaysAll(s: Schedule, fields: seq<string>)
    requires |fields| == 5
  {
    && Says(s.minute, fields[0], MINUTE) && Says(s.hour, fields[1], HOUR) && Says(s.dom, fields[2], DAY_OF_MONTH)
    && Says(s.month, fields[3], MONTH) && Says(s.dow, fields[4], DAY_OF_WEEK)
    && (s.domRestricted <==> fields[2] != "*") && (s.dowRestricted <==> fields[4] != "*")
  }

  ghost predicate EachParsable(fields: seq<string>)
    requires |fields| == 5
  {
    && AllParsable(fields[0], MINUTE) && AllParsable(fields[1], HOUR) && AllParsable(fields[2], DAY_OF_MONTH)
    && AllParsable(fields[3], MONTH) && AllParsable(fields[4], DAY_OF_WEEK)
  }

  lemma NameStandsFor(spec: FieldSpec, k: nat, name: string)
    requires spec.Valid() && spec.NamesDiffer() && k < |spec.names| && spec.names[k] == name
    ensures ParseValue(name, spec) == Some(spec.firstName + k)
  {
    ValueOfBound(Name(k), spec);
  }

  /** Each month's name stands for its number. */
  lemma MonthNames(k: nat, name: string)
    requires k < 12
    requires name == ["jan", "feb", "mar", "apr", "may", "jun", "jul", "aug", "sep", "oct", "nov", "dec"][k]
    ensures ParseValue(name, MONTH) == Some(k + 1)
  {
    FieldsAreConsistent();
    assert MONTH.names[k] == name;
    NameStandsFor(MONTH, k, name);
  }

  /** And each weekday's, from Sunday on. */
  lemma WeekdayNames(k: nat, name: string)
    requires k < 7 && name == ["sun", "mon", "tue", "wed", "thu", "fri", "sat"][k]
    ensures ParseValue(name, DAY_OF_WEEK) == Some(k)
  {
    FieldsAreConsistent();
    assert DAY_OF_WEEK.names[k] == name;
    NameStandsFor(DAY_OF_WEEK, k, name);
  }

  /** Each field takes the numbers of its range, and Sunday is 0 and 7. */
  lemma NumbersStandForThemselves(n: nat)
    ensures ParseValue(Itoa(n), MINUTE) == if n <= 59 then Some(n) else None
    ensures ParseValue(Itoa(n), HOUR) == if n <= 23 then Some(n) else None
    ensures ParseValue(Itoa(n), DAY_OF_MONTH) == if 1 <= n <= 31 then Some(n) else None
    ensures ParseValue(Itoa(n), MONTH) == if 1 <= n <= 12 then Some(n) else None
    ensures ParseValue(Itoa(n), DAY_OF_WEEK) == if n <= 6 then Some(n) else if n == 7 then Some(0) else None
  {
    FieldsAreConsistent();
    ValueOfBound(Num(n), MINUTE);
    ValueOfBound(Num(n), HOUR);
    ValueOfBound(Num(n), DAY_OF_MONTH);
    ValueOfBound(Num(n), MONTH);
    ValueOfBound(Num(n), DAY_OF_WEEK);
  }

  /** The same letter, small or capital; two capitals beyond ASCII have a small letter in it. */
  predicate SameLetter(c: char, letter: char) {
    || c == letter || c as int + 32 == letter as int
    || (c == '\U{130}' && letter == 'i') || (c == '\U{212A}' && letter == 'k')
  }

  /** Capitals make no difference to a name. */
  lemma CapitalsMakeNoDifference(text: string, name: string, spec: FieldSpec)
    requires spec.Valid() && name in spec.names && |text| == |name| && IsName(name)
    requires forall i :: 0 <= i < |text| ==> SameLetter(text[i], name[i])
    ensures ParseValue(text, spec) == ParseValue(name, spec)
  {
    LowersTo(text, name);
    LowersTo(name, name);
    LettersAreTrimmed(text);
    LettersAreTrimmed(name);
  }

  lemma LowersTo(text: string, name: string)
    requires IsName(name) && |text| == |name|
    requires forall i :: 0 <= i < |text| ==> SameLetter(text[i], name[i])
    ensures Lower(text) == name && forall i :: 0 <= i < |text| ==> !IsSpace(text[i])
  {
  }

  lemma LettersAreTrimmed(text: string)
    requires text != "" && forall i :: 0 <= i < |text| ==> !IsSpace(text[i])
    ensures TrimSpace(text) == text
  {
    TrimFindsCore("", text, "");
    assert "" + text + "" == text;
  }

  /** A number may carry a sign, and must fit 64 bits. */
  lemma SignedNumbers(n: nat)
    ensures Atoi("+" + Itoa(n)) == Atoi(Itoa(n)) == if n < 0x8000_0000_0000_0000 then Some(n) else None
    ensures Atoi("-" + Itoa(n)).Some? <==> n <= 0x8000_0000_0000_0000
    ensures Atoi("-" + Itoa(n)).Some? ==> n + Atoi("-" + Itoa(n)).value == 0
  {
    AtoiOfItoa(n);
    DigitsOfItoa(n);
    DigitsAfterSign('+', Itoa(n));
    DigitsAfterSign('-', Itoa(n));
  }

  lemma DigitsAfterSign(sign: char, digits: string)
    requires (sign == '+' || sign == '-') && IsDigits(digits)
    ensures Atoi([sign] + digits) == if Digits(digits) > (if sign == '-' then MAX_INT + 1 else MAX_INT) then None
        else Some(if sign == '-' then -(Digits(digits) as int) else Digits(digits))
  {
    assert ([sign] + digits)[1..] == digits;
  }

  /** Nothing but digits after at most one sign is a number. */
  lemma OnlyDigitsAreNumbers(s: string)
    requires Atoi(s).Some?
    ensures IsDigits(s) || (s != "" && (s[0] == '+' || s[0] == '-') && IsDigits(s[1..]))
  {
  }

  /** A fresh field: all flags clear, then set by the field's elements. */
  method Flags(field: string, spec: FieldSpec) returns (o: Outcome, bits: seq<bool>)
    requires spec.Valid()
    ensures o == Done ==> Says(bits, field, spec)
    ensures o == Done <==> AllParsable(field, spec)
  {
    var a := new bool[spec.max + 1](_ => false);
    o := ParseField(field, spec, a);
    bits := a[..];
  }

  /** Parses an expression already split into fields. */
  method Parse(fields: seq<string>) returns (o: Outcome, s: Option<Schedule>)
    ensures o == Done <==> s.Some?
    ensures o == Done <==> |fields| == 5 && EachParsable(fields)
    ensures s.Some? ==> |fields| == 5 && SaysAll(s.value, fields)
    ensures s.Some? ==> s.value.StarsAreFull() && s.value.NamesSomething()
    ensures |fields| != 5 ==> o == Rejected
  {
    FieldsAreConsistent();
    s := None;
    if |fields| != 5 {
      return Rejected, None;
    }
    var minute, hour, dom, month, dow;
    o, minute := Flags(fields[0], MINUTE);
    if o != Done { return; }
    o, hour := Flags(fields[1], HOUR);
    if o != Done { return; }
    o, dom := Flags(fields[2], DAY_OF_MONTH);
    if o != Done { return; }
    o, month := Flags(fields[3], MONTH);
    if o != Done { return; }
    o, dow := Flags(fields[4], DAY_OF_WEEK);
    if o != Done { return; }
    var schedule := Schedule(minute, hour, dom, month, dow, fields[2] != "*", fields[4] != "*");
    UnrestrictedIsFull(schedule, fields);
    ParsedNamesSomething(schedule, fields);
    s := Some(schedule);
  }

  /** A field that parses names at least the low end of its first element. */
  lemma FieldNamesSomething(field: string, spec: FieldSpec, bits: seq<bool>)
    requires spec.Valid() && AllParsable(field, spec) && Says(bits, field, spec)
    ensures exists v :: spec.min <= v <= spec.max && bits[v]
  {
    var part := Split(field, ',')[0];
    assert Parsable(part, spec);
    ReadIsInRange(part, spec);
    var lo := Read(part, spec).value.lo;
    assert NamedBy(part, spec, lo);
    assert bits[lo];
  }

  lemma ParsedNamesSomething(s: Schedule, fields: seq<string>)
    requires |fields| == 5 && SaysAll(s, fields) && EachParsable(fields)
    ensures s.NamesSomething()
  {
    FieldsAreConsistent();
    FieldNamesSomething(fields[0], MINUTE, s.minute);
    FieldNamesSomething(fields[1], HOUR, s.hour);
    FieldNamesSomething(fields[2], DAY_OF_MONTH, s.dom);
    FieldNamesSomething(fields[3], MONTH, s.month);
    FieldNamesSomething(fields[4], DAY_OF_WEEK, s.dow);
  }

  lemma UnrestrictedIsFull(s: Schedule, fields: seq<string>)
    requires |fields| == 5 && SaysAll(s, fields)
    ensures s.StarsAreFull()
  {
    FieldsAreConsistent();
    if !s.domRestricted {
      forall v | 1 <= v <= 31 ensures s.dom[v] {
        StarNamesEverything(DAY_OF_MONTH, v);
      }
    }
    if !s.dowRestricted {
      forall v | 0 <= v < 7 ensures s.dow[v] {
        StarNamesEverything(DAY_OF_WEEK, v);
      }
    }
  }
}
