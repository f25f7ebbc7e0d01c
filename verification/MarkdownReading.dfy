// What the importer reads in a section.
module MarkdownReading {
  // Comments, the banner of an export, the metadata comment with its fields, and the title, each described
  // on the text.

  import opened Strings
  import opened MarkdownImport
  import opened MarkdownBanner
  import opened MarkdownSpill
  import opened MarkdownNotes

  // ----- comments

  lemma FoundBeforeOwnStart(a: string, pat: string, b: string)
    requires pat != "" && pat[0] !in pat[1..] && !Contains(a, pat)
    ensures IndexFrom(a + pat + b, 0, pat) == |a|
  {
    var s := a + pat + b;
    assert At(s, |a|, pat);
    forall i | 0 <= i < |a|
      ensures !At(s, i, pat)
    {
      if i + |pat| <= |a| {
        AtInPart("", a, pat + b, i, pat);
        assert "" + a + (pat + b) == s;
      } else {
        assert pat[|a| - i] == pat[1..][|a| - i - 1];
        Mismatch(s, i, pat, |a| - i);
      }
    }
  }

  lemma FoundBeforeOwnEnd(a: string, pat: string, b: string)
    requires pat != "" && pat[|pat| - 1] !in pat[..|pat| - 1] && !Contains(a, pat)
    ensures IndexFrom(a + pat + b, 0, pat) == |a|
  {
    var s, n := a + pat + b, |pat| - 1;
    assert At(s, |a|, pat);
    forall i | 0 <= i < |a|
      ensures !At(s, i, pat)
    {
      if i + |pat| <= |a| {
        AtInPart("", a, pat + b, i, pat);
        assert "" + a + (pat + b) == s;
      } else {
        assert s[i + n] == pat[..n][i + n - |a|];
        Mismatch(s, i, pat, n);
      }
    }
  }

  lemma Marks4()
    ensures OPEN[0] !in OPEN[1..] && CLOSE[|CLOSE| - 1] !in CLOSE[..|CLOSE| - 1]
  {
  }

  /** Up to its first closing mark, a comment goes; what comes before it stays. */
  lemma OneCommentGoes(a: string, text: string, b: string)
    requires !Contains(a, "<!--") && !Contains(text, "-->")
    ensures StripComments(a + "<!--" + (text + "-->" + b)) == a + StripComments(b)
  {
    var s := a + OPEN + (text + CLOSE + b);
    CommentOpens(a, text + CLOSE + b);
    CommentCloses(a, text, b);
    Between3(a, OPEN, text + CLOSE + b);
    Between3(a + OPEN + text, CLOSE, b);
    FiveInOrder(a, OPEN, text, CLOSE, b);
    StripsBetween(s, a, |a| + 4 + |text|, b);
  }

  lemma FiveInOrder(a: string, b: string, c: string, d: string, e: string)
    ensures a + b + (c + d + e) == a + b + c + d + e
  {
  }

  lemma CommentOpens(a: string, rest: string)
    requires !Contains(a, OPEN)
    ensures IndexFrom(a + OPEN + rest, 0, OPEN) == |a|
  {
    Marks4();
    FoundBeforeOwnStart(a, OPEN, rest);
  }

  lemma CommentCloses(a: string, text: string, b: string)
    requires !Contains(text, CLOSE)
    ensures IndexFrom(a + OPEN + (text + CLOSE + b), |a| + 4, CLOSE) == |a| + 4 + |text|
  {
    Marks4();
    FoundBeforeOwnEnd(text, CLOSE, b);
    FoundInSuffix(a + OPEN, text + CLOSE + b, CLOSE, |text|);
  }

  lemma FoundInSuffix(a: string, b: string, mark: string, k: nat)
    requires IndexFrom(b, 0, mark) == k
    ensures IndexFrom(a + b, |a|, mark) == |a| + k
  {
    IndexInSuffix(a, b, 0, mark);
  }

  lemma Between3(a: string, mark: string, b: string)
    ensures (a + mark + b)[..|a|] == a && (a + mark + b)[|a| + |mark|..] == b
  {
  }

  lemma {:induction false} StripsBetween(s: string, head: string, e: nat, tail: string)
    requires IndexFrom(s, 0, OPEN) == |head| && IndexFrom(s, |head| + 4, CLOSE) == e
    requires s[..|head|] == head && s[e + 3..] == tail
    ensures StripComments(s) == head + StripComments(tail)
  {
  }

  /** A comment that is not closed stays. */
  lemma AnOpenCommentStays(a: string, b: string)
    requires !Contains(a, "<!--") && !Contains(b, "-->")
    ensures StripComments(a + "<!--" + b) == a + "<!--" + b
  {
    CommentOpens(a, b);
    IndexInSuffix(a + OPEN, b, 0, CLOSE);
  }

  lemma NoCommentNothingGoes(s: string)
    requires !Contains(s, "<!--")
    ensures StripComments(s) == s
  {
  }

  // ----- the banner

  /** After white space, a name. */
  ghost predicate NamedAfter(s: string, from: nat, j: nat, name: string) {
    from <= j <= |s| && Blank(s[from..j]) && At(s, j, name)
  }

  lemma NamedWhereSkipped(s: string, from: nat, j: nat, name: string)
    requires from <= |s| && name != "" && !IsRegexSpace(name[0])
    ensures NamedAfter(s, from, j, name) <==> j == SkipRegexSpaces(s, from) && At(s, j, name)
  {
    SkippedIsBlank(s, from);
    if NamedAfter(s, from, j, name) {
      SkipsBlank(s, from, j - from);
      assert s[j] == s[j..j + |name|][0];
    }
  }

  /** Letters and digits of ASCII and the underscore, by their codes. */
  predicate Word(c: char) {
    48 <= c as int <= 57 || 65 <= c as int <= 90 || c as int == 95 || 97 <= c as int <= 122
  }

  ghost predicate WordEnds(s: string, i: nat) {
    i < |s| ==> !Word(s[i])
  }

  /** An opening mark, white space, and the exporter's name as a word of its own. */
  ghost predicate BannerOpens(s: string, k: nat) {
    At(s, k, "<!--") && ExportName(s, k + 4)
  }

  ghost predicate ExportName(s: string, from: nat) {
    exists j: nat :: NamedAfter(s, from, j, "dkm-export") && WordEnds(s, j + 10)
  }

  lemma BannerAtExactlyWhen(s: string, k: nat)
    requires At(s, k, "<!--")
    ensures BannerAt(s, k) <==> BannerOpens(s, k)
  {
    var j := SkipRegexSpaces(s, k + 4);
    NamedWhereSkipped(s, k + 4, j, NAME);
    if BannerOpens(s, k) {
      var i: nat :| NamedAfter(s, k + 4, i, NAME) && WordEnds(s, i + 10);
      NamedWhereSkipped(s, k + 4, i, NAME);
    }
  }

  ghost predicate Banner(s: string) {
    exists k :: BannerOpens(s, k)
  }

  lemma HasBannerExactlyWhen(s: string)
    ensures HasBanner(s, 0) <==> Banner(s)
  {
    if k :| BannerOpens(s, k) {
      BannerAtExactlyWhen(s, k);
      if !HasBanner(s, 0) {
        NoneIsThere(s, 0, k);
      }
    } else {
      forall k | 0 <= k <= |s| && At(s, k, OPEN)
        ensures !BannerAt(s, k)
      {
        BannerAtExactlyWhen(s, k);
      }
      NoBannerIsFound(s, 0);
    }
  }

  // ----- the metadata comment

  /** `text` runs from `from` to the first closing mark. */
  ghost predicate ClosedAfter(s: string, from: nat, text: string) {
    && from + |text| <= |s| && s[from..from + |text|] == text && At(s, from + |text|, "-->")
    && forall i :: from <= i < from + |text| ==> !At(s, i, "-->")
  }

  /** White space at `from`, then `text`. */
  ghost predicate Goes(s: string, from: nat, text: string) {
    from < |s| && IsRegexSpace(s[from]) && ClosedAfter(s, from + 1, text)
  }

  ghost predicate NameGoes(s: string, from: nat, text: string) {
    exists j: nat :: NamedAfter(s, from, j, "dkm") && Goes(s, j + 3, text)
  }

  ghost predicate MetaOpens(s: string, k: nat, text: string) {
    At(s, k, "<!--") && NameGoes(s, k + 4, text)
  }

  lemma ClosedExactlyWhen(s: string, from: nat, text: string)
    requires from <= |s|
    ensures ClosedAfter(s, from, text)
        <==> IndexFrom(s, from, "-->") >= 0 && text == s[from..IndexFrom(s, from, "-->")]
  {
    var e := IndexFrom(s, from, "-->");
    if ClosedAfter(s, from, text) {
      assert At(s, from + |text|, "-->");
      assert e == from + |text|;
    }
  }

  lemma MetaAtExactlyWhen(s: string, k: nat, text: string)
    requires At(s, k, "<!--")
    ensures MetaAt(s, k) == Some(text) <==> MetaOpens(s, k, text)
  {
    var j := SkipRegexSpaces(s, k + 4);
    MetaAtIs(s, k, text);
    NamedWhereSkipped(s, k + 4, j, "dkm");
    if MetaOpens(s, k, text) {
      var i: nat :| NamedAfter(s, k + 4, i, "dkm") && Goes(s, i + 3, text);
      NamedWhereSkipped(s, k + 4, i, "dkm");
    }
  }

  lemma MetaAtIs(s: string, k: nat, text: string)
    requires At(s, k, OPEN)
    ensures MetaAt(s, k) == Some(text)
        <==> var j := SkipRegexSpaces(s, k + 4); At(s, j, "dkm") && Goes(s, j + 3, text)
  {
    var j := SkipRegexSpaces(s, k + 4);
    if j + 4 <= |s| {
      ClosedExactlyWhen(s, j + 4, text);
    }
  }

  /** The first metadata comment at or after `from` holds `text`. */
  ghost predicate FirstMeta(s: string, from: nat, text: string) {
    exists k :: FirstMetaAt(s, from, k, text)
  }

  ghost predicate FirstMetaAt(s: string, from: nat, k: nat, text: string) {
    from <= k && MetaOpens(s, k, text) && NoneWithin(s, from, k)
  }

  ghost predicate NoneOpens(s: string, k: nat) {
    forall text :: !MetaOpens(s, k, text)
  }

  lemma NoMetaElsewhere(s: string, k: nat)
    requires !At(s, k, "<!--") || MetaAt(s, k) == None
    ensures NoneOpens(s, k)
  {
    forall text
      ensures !MetaOpens(s, k, text)
    {
      if At(s, k, "<!--") {
        MetaAtExactlyWhen(s, k, text);
      }
    }
  }

  ghost predicate NoneWithin(s: string, from: nat, to: nat) {
    forall i: nat :: from <= i < to ==> NoneOpens(s, i)
  }

  ghost predicate NoneFrom(s: string, from: nat) {
    forall i: nat :: from <= i ==> NoneOpens(s, i)
  }

  lemma NoMetaBefore(s: string, from: nat, k: nat)
    requires forall i: nat :: from <= i < k ==> !At(s, i, "<!--")
    ensures NoneWithin(s, from, k)
  {
    forall i: nat | from <= i < k
      ensures NoneOpens(s, i)
    {
      NoMetaElsewhere(s, i);
    }
  }

  lemma NoMetaAfter(s: string, from: nat)
    requires forall i: nat :: from <= i ==> !At(s, i, "<!--")
    ensures NoneFrom(s, from)
  {
    forall i: nat | from <= i
      ensures NoneOpens(s, i)
    {
      NoMetaElsewhere(s, i);
    }
  }

  /** The search for metadata finds the first that opens. */
  lemma {:induction false} FindMetaFinds(s: string, from: nat)
    ensures FindMeta(s, from).Some? ==> FirstMeta(s, from, FindMeta(s, from).value)
    ensures FindMeta(s, from).None? ==> NoneFrom(s, from)
    decreases |s| - from
  {
    var k := IndexFrom(s, from, OPEN);
    if k < 0 {
      NoMetaAfter(s, from);
    } else if MetaAt(s, k).Some? {
      NoMetaBefore(s, from, k);
      FirstHere(s, from, k);
    } else {
      NoMetaBefore(s, from, k);
      NoMetaElsewhere(s, k);
      FindMetaFinds(s, k + 1);
      SearchedOn(s, from, k + 1);
    }
  }

  lemma FirstHere(s: string, from: nat, k: nat)
    requires from <= k && At(s, k, OPEN) && MetaAt(s, k).Some? && NoneWithin(s, from, k)
    ensures FirstMeta(s, from, MetaAt(s, k).value)
  {
    MetaAtExactlyWhen(s, k, MetaAt(s, k).value);
    assert FirstMetaAt(s, from, k, MetaAt(s, k).value);
  }

  lemma SearchedOn(s: string, from: nat, later: nat)
    requires from < later && NoneWithin(s, from, later - 1) && NoneOpens(s, later - 1)
    ensures NoneFrom(s, later) ==> NoneFrom(s, from)
    ensures forall text :: FirstMeta(s, later, text) ==> FirstMeta(s, from, text)
  {
    forall text | FirstMeta(s, later, text)
      ensures FirstMeta(s, from, text)
    {
      var k :| FirstMetaAt(s, later, k, text);
      assert FirstMetaAt(s, from, k, text);
    }
  }

  lemma MetaIsOne(s: string, k: nat, a: string, b: string)
    requires MetaOpens(s, k, a) && MetaOpens(s, k, b)
    ensures a == b
  {
    MetaAtExactlyWhen(s, k, a);
    MetaAtExactlyWhen(s, k, b);
  }

  lemma NoneBeforeFirst(s: string, k: nat, a: string, n: nat, b: string)
    requires FirstMetaAt(s, 0, k, a) && MetaOpens(s, n, b)
    ensures k <= n
  {
    assert n < k ==> NoneOpens(s, n);
  }

  lemma FirstIsOne(s: string, a: string, b: string)
    requires FirstMeta(s, 0, a) && FirstMeta(s, 0, b)
    ensures a == b
  {
    var k :| FirstMetaAt(s, 0, k, a);
    var n :| FirstMetaAt(s, 0, n, b);
    NoneBeforeFirst(s, k, a, n, b);
    NoneBeforeFirst(s, n, b, k, a);
    MetaIsOne(s, k, a, b);
  }

  lemma SomeIsFound(s: string, text: string)
    requires FirstMeta(s, 0, text)
    ensures FindMeta(s, 0).Some?
  {
    FindMetaFinds(s, 0);
    var k :| FirstMetaAt(s, 0, k, text);
    assert !NoneOpens(s, k);
  }

  lemma FindMetaExactlyWhen(s: string, text: string)
    ensures FindMeta(s, 0) == Some(text) <==> FirstMeta(s, 0, text)
  {
    if FirstMeta(s, 0, text) {
      SomeIsFound(s, text);
      FindMetaFinds(s, 0);
      FirstIsOne(s, text, FindMeta(s, 0).value);
    } else {
      FindMetaFinds(s, 0);
    }
  }

  // ----- the fields

  lemma {:induction false} TrimLeftUpTo(a: string, w: string)
    requires w != "" && !IsSpace(w[0])
    ensures TrimLeft(a + w) == TrimLeft(a) + w
  {
    if a == "" {
      assert a + w == w;
    } else {
      assert (a + w)[1..] == a[1..] + w;
      TrimLeftUpTo(a[1..], w);
    }
  }

  lemma {:induction false} TrimRightUpTo(w: string, b: string)
    requires w != "" && !IsSpace(w[|w| - 1])
    ensures TrimRight(w + b) == w + TrimRight(b)
  {
    if b == "" {
      assert w + b == w;
    } else {
      assert (w + b)[..|w + b| - 1] == w + b[..|b| - 1];
      TrimRightUpTo(w, b[..|b| - 1]);
    }
  }

  lemma TrimSides(a: string, b: string)
    ensures TrimSpace(a + "=" + b) == TrimLeft(a) + "=" + TrimRight(b)
  {
    assert a + "=" + b == a + ("=" + b);
    TrimLeftUpTo(a, "=" + b);
    assert TrimLeft(a) + ("=" + b) == TrimLeft(a) + "=" + b;
    TrimRightUpTo(TrimLeft(a) + "=", b);
  }

  lemma LeftTrimmedTwice(a: string)
    ensures TrimSpace(TrimLeft(a)) == TrimSpace(a)
  {
    var pre := TrimLeftParts(a);
    TrimsAway(pre, TrimLeft(a), "");
    assert pre + TrimLeft(a) + "" == a;
  }

  lemma RightTrimmedTwice(a: string)
    ensures TrimSpace(TrimRight(a)) == TrimSpace(a)
  {
    var post := TrimRightParts(a);
    TrimsAway("", TrimRight(a), post);
    assert "" + TrimRight(a) + post == a;
  }

  lemma TrimLeftLacks(a: string, c: char)
    requires Without(a, c)
    ensures Without(TrimLeft(a), c)
  {
    var pre := TrimLeftParts(a);
    forall i | 0 <= i < |TrimLeft(a)|
      ensures TrimLeft(a)[i] != c
    {
      assert TrimLeft(a)[i] == a[|pre| + i];
    }
  }

  /** A line gives a field: its key up to the first equals sign, its value after it, both trimmed, the last winning. */
  lemma FieldIsRead(lines: seq<string>, key: string, value: string)
    requires Without(key, '=')
    ensures Fields(lines + [key + "=" + value])
         == if TrimSpace(key) == "" then Fields(lines) else Fields(lines)[TrimSpace(key) := TrimSpace(value)]
  {
    var line := key + "=" + value;
    assert (lines + [line])[..|lines|] == lines;
    TrimSides(key, value);
    LeftTrimmedTwice(key);
    RightTrimmedTwice(value);
    TrimLeftLacks(key, '=');
    var a, b := TrimLeft(key), TrimRight(value);
    FirstEquals(a, b);
    assert (a + "=" + b)[..|a|] == a && (a + "=" + b)[|a| + 1..] == b;
  }

  lemma FirstEquals(a: string, b: string)
    requires Without(a, '=')
    ensures IndexFrom(a + "=" + b, 0, "=") == |a|
  {
    assert !Contains(a, "=") by {
      forall i | 0 <= i <= |a|
        ensures !At(a, i, "=")
      {
        if i < |a| {
          Mismatch(a, i, "=", 0);
        }
      }
    }
    FoundBeforeOwnStart(a, "=", b);
  }

  /** A line without an equals sign gives none. */
  lemma OtherLineIsSkipped(lines: seq<string>, line: string)
    requires Without(line, '=')
    ensures Fields(lines + [line]) == Fields(lines)
  {
    assert (lines + [line])[..|lines|] == lines;
    var pre, post := TrimParts(line);
    var text := TrimSpace(line);
    forall i | 0 <= i <= |text|
      ensures !At(text, i, "=")
    {
      if i < |text| {
        assert text[i] == line[|pre| + i];
        Mismatch(text, i, "=", 0);
      }
    }
  }

  // ----- the title of a decision

  predicate Digits1(s: string) {
    s != "" && forall i :: 0 <= i < |s| ==> '0' <= s[i] <= '9'
  }

  ghost predicate Separators(s: string) {
    forall i :: 0 <= i < |s| ==> s[i] in "-_. "
  }

  ghost predicate StartsWithDigit(rest: string) {
    rest != "" && '0' <= rest[0] <= '9'
  }

  ghost predicate Starts(rest: string, c: string) {
    rest != "" && rest[0] in c
  }

  lemma {:induction false} DigitsAreSkipped(digits: string, rest: string)
    requires forall i :: 0 <= i < |digits| ==> '0' <= digits[i] <= '9'
    requires !StartsWithDigit(rest)
    ensures SkipDigits(digits + rest) == rest
  {
    if digits == "" {
      assert digits + rest == rest;
    } else {
      assert (digits + rest)[1..] == digits[1..] + rest;
      DigitsAreSkipped(digits[1..], rest);
    }
  }

  lemma {:induction false} SeparatorsAreSkipped(seps: string, rest: string)
    requires Separators(seps) && !Starts(rest, "-_. ")
    ensures SkipSeparators(seps + rest) == rest
  {
    if seps == "" {
      assert seps + rest == rest;
    } else {
      assert (seps + rest)[1..] == seps[1..] + rest;
      SeparatorsAreSkipped(seps[1..], rest);
    }
  }

  ghost predicate Adr(s: string) {
    |s| == 3 && (s[0] == 'a' || s[0] == 'A') && (s[1] == 'd' || s[1] == 'D') && (s[2] == 'r' || s[2] == 'R')
  }

  /** `ADR-12: ` and the like are not part of a decision's title. */
  lemma AdrNumberIsRead(adr: string, gap: string, digits: string, seps: string, rest: string)
    requires Adr(adr) && gap in ["", "-", "_", " "] && Digits1(digits) && Separators(seps) && !Starts(rest, "-_. ")
    requires seps == "" ==> !StartsWithDigit(rest)
    ensures AfterDecisionNumber(adr + gap + (digits + (seps + rest))) == Some(rest)
  {
    var tail := digits + (seps + rest);
    var title := adr + gap + tail;
    assert title[0] == adr[0] && title[1] == adr[1] && title[2] == adr[2];
    if gap == "" {
      assert title[3..] == tail && title[3] == digits[0];
    } else {
      assert title[4..] == tail && title[3] == gap[0];
    }
    DigitsAreSkipped(digits, seps + rest);
    SeparatorsAreSkipped(seps, rest);
    assert tail[0] == digits[0];
  }

  /** Nor are four digits. */
  lemma FourDigitsAreRead(digits: string, seps: string, rest: string)
    requires Digits1(digits) && |digits| == 4 && Separators(seps) && !Starts(rest, "-_. ")
    ensures AfterDecisionNumber(digits + (seps + rest)) == Some(rest)
  {
    var title := digits + (seps + rest);
    assert title[0] == digits[0] && title[4..] == seps + rest;
    assert forall i :: 0 <= i < 4 ==> title[i] == digits[i];
    SeparatorsAreSkipped(seps, rest);
  }

  /** A title starts with a number exactly when it starts with one of these. */
  lemma NumberedExactlyWhen(title: string)
    ensures AfterDecisionNumber(title).Some? <==>
      || (|title| >= 4 && Adr(title[..3]) && Digits1(title[3..4]))
      || (|title| >= 5 && Adr(title[..3]) && title[3] in "-_ " && Digits1(title[4..5]))
      || (|title| >= 4 && Digits1(title[..4]))
  {
    if |title| >= 4 {
      assert title[3..][0] == title[3] == title[3..4][0];
      assert Adr(title[..3]) ==> title[..3][0] == title[0] && title[..3][1] == title[1] && title[..3][2] == title[2];
    }
    if |title| >= 5 {
      assert title[4..][0] == title[4] == title[4..5][0];
    }
  }

  // ----- cutting a title

  lemma {:induction false} BytesConcat(a: string, b: string)
    ensures ByteLength(a + b) == ByteLength(a) + ByteLength(b)
    decreases |b|
  {
    if b == "" {
      assert a + b == a;
    } else {
      assert (a + b)[..|a + b| - 1] == a + b[..|b| - 1];
      BytesConcat(a, b[..|b| - 1]);
    }
  }

  /** The bytes of a character follow the ranges of UTF-8 (section 3 of RFC 3629). */
  lemma BytesOfOne(c: char)
    ensures ByteLength([c]) == 1 <==> c as int <= 0x7F
    ensures ByteLength([c]) == 2 <==> 0x80 <= c as int <= 0x7FF
    ensures ByteLength([c]) == 3 <==> 0x800 <= c as int <= 0xFFFF
    ensures ByteLength([c]) == 4 <==> 0x10000 <= c as int
  {
    assert [c][..0] == "";
  }

  lemma {:induction false} PrefixIsLongest(s: string, max: nat)
    ensures Prefix(s, max) <= s && ByteLength(Prefix(s, max)) <= max
    ensures forall n :: 0 <= n <= |s| && ByteLength(s[..n]) <= max ==> n <= |Prefix(s, max)|
  {
    if ByteLength(s) > max {
      var shorter := s[..|s| - 1];
      PrefixIsLongest(shorter, max);
      assert s[..|s|] == s;
      assert forall n :: 0 <= n <= |shorter| ==> shorter[..n] == s[..n];
    }
  }

  /** As many characters as fit, and an ellipsis. */
  ghost predicate CutAfter(s: string, n: nat, max: nat, cut: string) {
    n < |s| && cut == s[..n] + "…" && ByteLength(s[..n]) <= max < ByteLength(s[..n + 1])
  }

  /** A title is trimmed, and when it is too long cut after as many characters as fit, with an ellipsis. */
  lemma TitleIsCut(s: string, max: nat)
    ensures ByteLength(TrimSpace(s)) <= max ==> Collapse(s, max) == TrimSpace(s)
    ensures ByteLength(TrimSpace(s)) > max ==>
      exists n :: CutAfter(TrimSpace(s), n, max, Collapse(s, max))
  {
    var t := TrimSpace(s);
    if ByteLength(t) > max {
      PrefixIsLongest(t, max);
      var n := |Prefix(t, max)|;
      assert t[..n] == Prefix(t, max) && t[..|t|] == t;
      assert CutAfter(t, n, max, Collapse(s, max));
    }
  }

  // ----- the list of files

  lemma {:induction false} FilesInOrder(a: seq<string>, file: string, b: seq<string>)
    ensures KeepNonEmpty(a + [file] + b)
         == KeepNonEmpty(a) + (if TrimSpace(file) == "" then [] else [TrimSpace(file)]) + KeepNonEmpty(b)
    decreases |a|
  {
    if a == [] {
      assert a + [file] + b == [file] + b && ([file] + b)[1..] == b;
    } else {
      assert (a + [file] + b)[1..] == a[1..] + [file] + b;
      FilesInOrder(a[1..], file, b);
    }
  }

  // ----- one section

  function Read(fields: map<string, string>, key: string, otherwise: string): string {
    if key in fields then fields[key] else otherwise
  }

  ghost predicate MetaFields(s: string, fields: map<string, string>) {
    || ((forall text :: !FirstMeta(s, 0, text)) && fields == map[])
    || (exists text :: FirstMeta(s, 0, text) && fields == Fields(Split(text, '\n')))
  }

  lemma ParsedExactlyWhen(s: string, fields: map<string, string>)
    ensures MetaFields(s, fields) <==> fields == ParseMeta(s)
  {
    FindMetaFinds(s, 0);
    forall text
      ensures FindMeta(s, 0) == Some(text) <==> FirstMeta(s, 0, text)
    {
      FindMetaExactlyWhen(s, text);
    }
  }

  /** An export's banner, or nothing beside comments, is imported as nothing. */
  lemma NothingIsImported(sec: Section, d: Defaults)
    ensures ImportSection(sec, d) == None <==> Banner(sec.body) || TrimSpace(StripComments(sec.body)) == ""
  {
    HasBannerExactlyWhen(sec.body);
  }

  /** Kind and visibility are the metadata's when it names one there is, and the files when it names any. */
  lemma MetadataDecides(sec: Section, d: Defaults, fields: map<string, string>)
    requires ImportSection(sec, d).Some? && MetaFields(sec.body, fields)
    ensures
      var m := ImportSection(sec, d).value;
      && m.body == TrimSpace(StripComments(sec.body))
      && m.kind == (if Read(fields, "kind", "") in {"fact", "decision", "lesson", "preference"} then fields["kind"]
          else d.kind)
      && m.visibility == (if Read(fields, "visibility", "") in {"private", "team"} then fields["visibility"]
          else d.visibility)
      && m.files == (if Read(fields, "files", "") == "" then [d.path]
          else KeepNonEmpty(Split(fields["files"], ',')))
  {
    ParsedExactlyWhen(sec.body, fields);
  }

  /** The title is the heading's, without the number of a decision, or else the name of the document. */
  lemma TitleDecides(sec: Section, d: Defaults)
    requires ImportSection(sec, d).Some?
    ensures
      var m := ImportSection(sec, d).value;
      var number := AfterDecisionNumber(sec.title);
      && (m.kind != "decision" || number == None || number == Some("") ==>
          m.title == Collapse(if sec.title == "" then d.baseName else sec.title, 200))
      && (m.kind == "decision" && number.Some? && number.value != "" ==> m.title == Collapse(number.value, 200))
  {
  }
}
