// What becomes of a body that is not kept apart. A heading that the importer sees in it ends its section early, and the
// memory comes back shorter; a fence that the importer still sees open after it hides the next heading, and the memory
// comes back longer. Either way the first such record of a list is imported as something else.
module MarkdownSpill {
  import opened Strings
  import E = MarkdownExport
  import opened MarkdownImport
  import opened MarkdownSections
  import opened MarkdownBanner
  import opened MarkdownEntry

  /** A heading that neither holds an export's banner nor ends in what could begin one. */
  predicate HeadingOk(r: E.Record) {
    NoBanner("## " + E.Heading(r.title)) && !OpensAtEnd("## " + E.Heading(r.title))
  }

  // ----- the section that starts at a heading

  /** Collecting goes on up to the first line that splits. */
  lemma {:induction false} UpToFirstSplit(lines: seq<string>, levels: seq<nat>, split: nat, title: string, acc: string)
    returns (j: nat, more: seq<Section>)
    requires |lines| == |levels|
    ensures j <= |lines| && Deep(levels[..j], split) && (j < |lines| ==> 0 < levels[j] <= split)
    ensures Sections(lines, levels, split, Some(Section(title, acc)))
            == Flush(Some(Section(title, acc + Unlines(lines[..j])))) + more
  {
    if |lines| == 0 || 0 < levels[0] <= split {
      j := 0;
      more := if |lines| == 0 then []
          else Sections(lines[1..], levels[1..], split, Some(Section(HeadingText(lines[0]), "")));
      assert lines[..0] == [] && acc + "" == acc;
    } else {
      var n;
      n, more := UpToFirstSplit(lines[1..], levels[1..], split, title, acc + lines[0] + "\n");
      j := n + 1;
      assert lines[..j] == [lines[0]] + lines[1..][..n] && levels[..j] == [levels[0]] + levels[1..][..n];
      assert acc + lines[0] + "\n" + Unlines(lines[1..][..n]) == acc + Unlines(lines[..j]);
    }
  }

  lemma DeepReaches(levels: seq<nat>, split: nat, m: nat, j: nat)
    requires m <= |levels| && j <= |levels| && Deep(levels[..m], split) && (j < |levels| ==> 0 < levels[j] <= split)
    ensures m <= j
  {
    forall i | 0 <= i < m ensures !(0 < levels[i] <= split) {
      assert levels[..m][i] == levels[i];
    }
  }

  /** The import of an entry that is read back with another body. */
  lemma OtherBody(cur: Option<Section>, title: string, text: string, more: seq<Section>, rs: seq<E.Record>, d: Defaults)
    requires rs != [] && TrimSpace(text) != ""
    requires var m := ImportSection(Section(title, TrimSpace(text)), d); m.Some? && m.value.body != DemotedBody(rs[0])
    ensures ImportAll(Flush(cur) + (Flush(Some(Section(title, text))) + more), d)
        != ImportAll(Flush(cur), d) + AllExpected(rs, d)
  {
    var sec := Section(title, TrimSpace(text));
    var got := ImportAll([sec] + more, d);
    ImportAllConcat(Flush(cur), [sec] + more, d);
    ImportAllConcat([sec], more, d);
    ImportOne(sec, d);
    assert got[0].body != AllExpected(rs, d)[0].body;
    Cancel(ImportAll(Flush(cur), d), got, AllExpected(rs, d));
  }

  lemma Cancel<T>(a: seq<T>, b: seq<T>, c: seq<T>)
    ensures a + b == a + c <==> b == c
  {
    if a + b == a + c {
      assert b == (a + b)[|a|..] == (a + c)[|a|..] == c;
    }
  }

  // ----- a heading inside the body

  lemma {:induction false} TrimRightKeepsUpTo(s: string, n: nat)
    requires 0 < n <= |s| && !IsSpace(s[n - 1])
    ensures |TrimRight(s)| >= n && TrimRight(s)[..n] == s[..n]
  {
    if IsSpace(s[|s| - 1]) {
      TrimRightKeepsUpTo(s[..|s| - 1], n);
    }
  }

  lemma TrimKeepsStart(s: string)
    requires s != "" && !IsSpace(s[0])
    ensures TrimSpace(s) != "" && TrimSpace(s)[0] == s[0]
  {
    TrimRightKeepsUpTo(s, 1);
    assert TrimRight(s)[..1][0] == s[0];
  }

  function FirstWritten(line: string): string {
    if E.ExportFence(line) then line else E.DemotedLine(line)
  }

  /** A first line that starts with no white space is not written as a heading that splits. */
  lemma FirstWrittenStays(line: string)
    requires line != "" && !IsSpace(line[0])
    ensures
      var out := FirstWritten(line);
      out != "" && out[0] == line[0] && (ImportFence(out) || HeadingLevel(out) == 0 || HeadingLevel(out) > 2)
  {
    TrimKeepsStart(line);
    if "#" <= line {
      assert !E.ExportFence(line);
      DemotedHeading(line);
    } else {
      assert Hashes(line) == 0;
    }
  }

  /** A body's first line never splits. */
  lemma FirstLineStays(r: E.Record)
    requires BodyOk(r)
    ensures
      var w := WrittenLines(r);
      w != [] && w[0] != "" && !IsSpace(w[0][0]) && (Levels(w, false)[0] == 0 || Levels(w, false)[0] > 2)
  {
    ExportedIsTrimmed(r);
    LinesEnd(E.ExportedBody(r));
    FirstWrittenStays(Split(E.ExportedBody(r), '\n')[0]);
    assert WrittenLines(r)[0] == FirstWritten(Split(E.ExportedBody(r), '\n')[0]);
  }

  lemma ShorterBody(lines: seq<string>, j: nat)
    requires 0 < j < |lines|
    ensures |TrimSpace("\n" + Unlines(lines[..j]))| < |Join(lines, '\n')|
  {
    var kept := Join(lines[..j], '\n');
    UnlinesIsJoin(lines[..j]);
    assert lines == lines[..j] + lines[j..];
    JoinConcat(lines[..j], lines[j..], '\n');
    TrimsAway("\n", kept, "\n");
    assert "\n" + kept + "\n" == "\n" + Unlines(lines[..j]);
  }

  lemma TrimsAway(pre: string, s: string, post: string)
    requires AllSpace(pre) && AllSpace(post)
    ensures TrimSpace(pre + s + post) == TrimSpace(s) && |TrimSpace(s)| <= |s|
  {
    var a, b := TrimParts(s);
    var core := TrimSpace(s);
    if core != "" {
      TrimFindsCore(pre + a, core, b + post);
      assert pre + s + post == (pre + a) + core + (b + post);
    } else {
      assert pre + s + post == (pre + a + b + post) + "";
      TrimLeftSkips(pre + a + b + post, "");
    }
  }

  /** A text without an opening comment mark is imported as it stands. */
  lemma PlainTextIsImported(title: string, text: string, d: Defaults)
    requires !Contains(text, OPEN) && text != "" && Trimmed(text)
    ensures var m := ImportSection(Section(title, text), d); m.Some? && m.value.body == text
  {
    WithoutMarkIsHarmless(text);
    NoBannerIsFound(text, 0);
    TrimKeeps(text);
    assert StripComments(text) == text;
  }

  lemma {:induction false} UnlinesLack(lines: seq<string>, pat: string)
    requires pat != "" && '\n' !in pat && forall i :: 0 <= i < |lines| ==> !Contains(lines[i], pat)
    ensures !Contains(Unlines(lines), pat)
  {
    if |lines| == 0 {
      assert Unlines(lines) == "";
    } else {
      UnlinesLack(lines[1..], pat);
      NoOccurrenceAcross(lines[0], '\n', Unlines(lines[1..]), pat);
    }
  }

  lemma TrimmedLacks(s: string, pat: string)
    requires !Contains(s, pat)
    ensures !Contains(TrimSpace(s), pat)
  {
    var pre, post := TrimParts(s);
    PartContainsLess(pre, TrimSpace(s), post, pat);
  }

  lemma PlainLinesText(lines: seq<string>)
    requires lines != [] && lines[0] != "" && !IsSpace(lines[0][0])
    requires forall i :: 0 <= i < |lines| ==> !Contains(lines[i], OPEN)
    ensures var text := TrimSpace("\n" + Unlines(lines)); text != "" && Trimmed(text) && !Contains(text, OPEN)
  {
    var text := Unlines(lines);
    assert text[0] == lines[0][0];
    TrimsAway("\n", text, "");
    assert "\n" + text + "" == "\n" + text;
    TrimKeepsStart(text);
    var _, _ := TrimParts(text);
    UnlinesLack(lines, OPEN);
    TrimmedLacks(text, OPEN);
  }

  /** The lines of a body up to a heading come back as a shorter body. */
  lemma PartOfABody(r: E.Record, j: nat, title: string, d: Defaults)
    requires BodyOk(r) && 0 < j < |WrittenLines(r)|
    ensures
      var text := TrimSpace("\n" + Unlines(WrittenLines(r)[..j]));
      var m := ImportSection(Section(title, text), d);
      text != "" && m.Some? && m.value.body != DemotedBody(r)
  {
    var w := WrittenLines(r);
    FirstLineStays(r);
    ShorterBody(w, j);
    BodyLinesHaveNoComment(r);
    assert w[..j][0] == w[0];
    PlainLinesText(w[..j]);
    PlainTextIsImported(title, TrimSpace("\n" + Unlines(w[..j])), d);
  }

  /** A body that is not sheltered is cut at a line of its own. */
  lemma BodyIsCut(r: E.Record, tail: seq<string>) returns (j: nat, more: seq<Section>)
    requires BodyOk(r) && !Sheltered(r)
    ensures 0 < j < |WrittenLines(r)|
    ensures Sections(RestLines(r) + tail, Levels(RestLines(r) + tail, false), 2, Some(Section(E.Heading(r.title), "")))
            == Flush(Some(Section(E.Heading(r.title), "\n" + Unlines(WrittenLines(r)[..j])))) + more
  {
    RestInThree(r);
    FourParts([""], WrittenLines(r), [""] + E.MetaBlock(r), tail);
    FirstLineStays(r);
    j, more := LinesAreCut(WrittenLines(r), [""] + E.MetaBlock(r) + tail, E.Heading(r.title));
  }

  lemma LevelsInside(w: seq<string>, after: seq<string>)
    ensures
      var levels := Levels([""] + (w + after), false);
      levels[0] == 0 && forall i :: 0 <= i < |w| ==> levels[i + 1] == Levels(w, false)[i]
  {
    QuietLine("");
    LevelsCons("", w + after, false);
    LevelsConcat(w, after, false);
  }

  lemma LinesAreCut(w: seq<string>, after: seq<string>, title: string) returns (j: nat, more: seq<Section>)
    requires |w| > 0 && (Levels(w, false)[0] == 0 || Levels(w, false)[0] > 2) && !Deep(Levels(w, false), 2)
    ensures 0 < j < |w|
    ensures
      var lines := [""] + (w + after);
      Sections(lines, Levels(lines, false), 2, Some(Section(title, "")))
      == Flush(Some(Section(title, "\n" + Unlines(w[..j])))) + more
  {
    var lines := [""] + (w + after);
    var levels := Levels(lines, false);
    LevelsInside(w, after);
    assert levels[0] == 0 && levels[0 + 1] == Levels(w, false)[0];
    var n;
    n, more := UpToFirstSplit(lines, levels, 2, title, "");
    DeepReaches(levels, 2, 2, n);
    DeepUpTo(levels, 2, n, Levels(w, false));
    j := n - 1;
    assert lines[..n] == [""] + w[..j];
    assert "" + Unlines([""] + w[..j]) == "\n" + Unlines(w[..j]);
  }

  lemma DeepUpTo(levels: seq<nat>, split: nat, n: nat, own: seq<nat>)
    requires n <= |levels| && |own| < |levels| && Deep(levels[..n], split)
    requires !Deep(own, split) && forall i :: 0 <= i < |own| ==> levels[i + 1] == own[i]
    ensures n <= |own|
  {
    forall k | 0 <= k < n ensures !(0 < levels[k] <= split) {
      assert levels[..n][k] == levels[k];
    }
    var i :| 0 <= i < |own| && 0 < own[i] <= split;
    assert levels[i + 1] == own[i];
  }

  lemma FourParts<T>(a: seq<T>, b: seq<T>, c: seq<T>, d: seq<T>)
    ensures a + (b + c) + d == a + (b + (c + d))
  {
  }

  /** An entry whose body is not sheltered comes back with another body. */
  lemma CutEntryGoesWrong(r: E.Record, tail: seq<string>, rs: seq<E.Record>, cur: Option<Section>, d: Defaults)
    requires Importable(r) && !Sheltered(r) && rs != [] && rs[0] == r
    ensures ImportAll(Sections(E.EntryLines(r) + tail, Levels(E.EntryLines(r) + tail, false), 2, cur), d)
            != ImportAll(Flush(cur), d) + AllExpected(rs, d)
  {
    EntryOpens(r, tail, cur);
    var j, more := BodyIsCut(r, tail);
    PartOfABody(r, j, E.Heading(r.title), d);
    OtherBody(cur, E.Heading(r.title), "\n" + Unlines(WrittenLines(r)[..j]), more, rs, d);
  }

  // ----- a fence left open

  lemma IndexInPrefix(a: string, t: string, from: nat, pat: string)
    requires IndexFrom(a, from, pat) >= 0
    ensures IndexFrom(a + t, from, pat) == IndexFrom(a, from, pat)
  {
    var k := IndexFrom(a, from, pat);
    forall i: nat | i <= k ensures At(a + t, i, pat) <==> At(a, i, pat) {
      AtInPrefix(a, t, i, pat);
    }
  }

  /** What stripping leaves starts where the text starts. */
  lemma StrippedStarts(t: string, n: nat)
    requires n <= |t| && Without(t[..n], '<')
    ensures t[..n] <= StripComments(t)
  {
    forall i | 0 <= i < n ensures t[i] != '<' {
      assert t[..n][i] == t[i];
    }
    var k := IndexFrom(t, 0, OPEN);
    if 0 <= k {
      FirstCharacter(t, k, OPEN);
    }
  }

  lemma StripAnnotated(body: string, meta: string, t: string)
    requires !Contains(body, OPEN) && !Contains(meta, CLOSE)
    ensures StripComments(Annotated(body, meta) + t) == body + "\n\n" + StripComments(t)
  {
    var a := Annotated(body, meta);
    var s := a + t;
    AnnotatedIsLaid(body, meta);
    CommentIsFirst(a, body, meta);
    CommentCloses(a, body, meta);
    IndexInPrefix(a, t, 0, OPEN);
    IndexInPrefix(a, t, |body| + 6, CLOSE);
    assert s[..|body| + 2] == body + "\n\n";
    assert s[|body| + 12 + |meta| + 3..] == t;
  }

  /** An annotated body with a heading after it is read back longer. */
  lemma LongerBody(title: string, body: string, meta: string, v: string, d: Defaults)
    requires !Contains(body, OPEN) && !Contains(meta, CLOSE) && body != "" && Trimmed(body)
    requires !HasBanner(Annotated(body, meta) + ("\n\n##" + v), 0)
    ensures
      var m := ImportSection(Section(title, Annotated(body, meta) + ("\n\n##" + v)), d);
      m.Some? && m.value.body != body
  {
    var t := "\n\n##" + v;
    StripAnnotated(body, meta, t);
    assert t[..4] == "\n\n##";
    StrippedStarts(t, 4);
    var stripped := body + "\n\n" + StripComments(t);
    assert stripped[|body| + 5] == StripComments(t)[..4][3] == '#';
    assert stripped[0] == body[0];
    TrimRightKeepsUpTo(stripped, |body| + 6);
    assert TrimLeft(stripped) == stripped;
  }

  lemma EntryIsHarmless(r: E.Record, tail: seq<string>)
    requires Importable(r) && HeadingOk(r) && Harmless(tail)
    ensures Harmless(E.EntryLines(r) + tail)
  {
    MarksAreHarmless();
    RestIsHarmless(r);
    HarmlessConcat(RestLines(r), tail);
    HarmlessConcat(["## " + E.Heading(r.title)], RestLines(r) + tail);
    EntryInTwo(r, tail);
  }

  lemma {:induction false} EntriesAreHarmless(rs: seq<E.Record>)
    requires forall r :: r in rs ==> Importable(r) && HeadingOk(r)
    ensures Harmless(E.EntriesLines(rs) + [""])
  {
    if |rs| == 0 {
      MarksAreHarmless();
      assert E.EntriesLines(rs) + [""] == [""];
    } else {
      EntriesAreHarmless(rs[1..]);
      assert rs[0] in rs;
      EntryIsHarmless(rs[0], E.EntriesLines(rs[1..]) + [""]);
      Reassociate(E.EntryLines(rs[0]), E.EntriesLines(rs[1..]), [""]);
    }
  }

  /** A fence left open hides the next heading. */
  lemma HeadingIsHidden(rest: seq<string>, h: string, tail: seq<string>, title: string)
    returns (j: nat, more: seq<Section>)
    requires Deep(Levels(rest, false), 2) && FenceAfter(rest, false) && Trimmed(h) && h != ""
    ensures
      var lines := rest + (["## " + h] + tail);
      && |rest| < j <= |lines|
      && Sections(lines, Levels(lines, false), 2, Some(Section(title, "")))
         == Flush(Some(Section(title, Unlines(lines[..j])))) + more
  {
    var next := ["## " + h] + tail;
    var lines := rest + next;
    var levels := Levels(lines, false);
    LevelsConcat(rest, next, false);
    HeadingComesBack(h);
    LevelsCons("## " + h, tail, true);
    assert levels[..|rest| + 1] == Levels(rest, false) + [0];
    j, more := UpToFirstSplit(lines, levels, 2, title, "");
    DeepReaches(levels, 2, |rest| + 1, j);
    assert "" + Unlines(lines[..j]) == Unlines(lines[..j]);
  }

  lemma HiddenLines(rest: seq<string>, a: string, h: string, tail: seq<string>, j: nat) returns (u: string)
    requires Unlines(rest) == "\n" + a + "\n\n" && |rest| < j <= |rest + (["## " + h] + tail)|
    ensures Unlines((rest + (["## " + h] + tail))[..j]) == "\n" + (a + "\n\n##" + u)
  {
    var kept := tail[..j - |rest| - 1];
    assert (rest + (["## " + h] + tail))[..j] == rest + (["## " + h] + kept);
    UnlinesConcat(rest, ["## " + h] + kept);
    u := " " + h + "\n" + Unlines(kept);
    assert Unlines(["## " + h] + kept) == "##" + u;
    assert "\n" + a + "\n\n" + ("##" + u) == "\n" + (a + "\n\n##" + u);
  }

  lemma HiddenText(a: string, u: string) returns (v: string)
    requires a != "" && !IsSpace(a[0])
    ensures TrimSpace("\n" + (a + "\n\n##" + u)) == a + ("\n\n##" + v)
  {
    var core := a + "\n\n##" + u;
    TrimLeftSkips("\n", core);
    assert core[0] == a[0];
    TrimRightKeepsUpTo(core, |a| + 4);
    v := TrimRight(core)[|a| + 4..];
    assert core[..|a| + 4] == a + "\n\n##";
  }

  lemma HiddenHasNoBanner(r: E.Record, rs: seq<E.Record>, j: nat)
    requires Importable(r) && forall s :: s in rs ==> Importable(s) && HeadingOk(s)
    requires j <= |RestLines(r) + (E.EntriesLines(rs) + [""])|
    ensures !HasBanner(TrimSpace(Unlines((RestLines(r) + (E.EntriesLines(rs) + [""]))[..j])), 0)
  {
    var lines := RestLines(r) + (E.EntriesLines(rs) + [""]);
    RestIsHarmless(r);
    MarksAreHarmless();
    EntriesAreHarmless(rs);
    HarmlessConcat(RestLines(r), E.EntriesLines(rs) + [""]);
    HarmlessPrefix(lines, j);
    UnlinesHaveNoBanner(lines[..j]);
    TrimmedHasNoBanner(Unlines(lines[..j]));
    NoBannerIsFound(TrimSpace(Unlines(lines[..j])), 0);
  }

  /** What an entry has taken in with the next heading is read back as another body. */
  lemma HiddenIsLonger(r: E.Record, text: string, a: string, v: string, d: Defaults)
    requires Importable(r) && a == Annotated(DemotedBody(r), Meta(r))
    requires TrimSpace(text) == a + ("\n\n##" + v) && !HasBanner(TrimSpace(text), 0)
    ensures
      var m := ImportSection(Section(E.Heading(r.title), TrimSpace(text)), d);
      m.Some? && m.value.body != DemotedBody(r)
  {
    BodyHasNoComment(r);
    MetaHasNoClose(r);
    DemotedIsTrimmed(r);
    LongerBody(E.Heading(r.title), DemotedBody(r), Meta(r), v, d);
  }

  lemma NextEntryOpens(more: seq<E.Record>) returns (h: string, rest: seq<string>)
    requires more != []
    ensures Trimmed(h) && h != "" && E.EntriesLines(more) + [""] == ["## " + h] + rest
  {
    h := E.Heading(more[0].title);
    rest := RestLines(more[0]) + (E.EntriesLines(more[1..]) + [""]);
    HeadingIsTrimmed(more[0]);
    EntryInTwo(more[0], E.EntriesLines(more[1..]) + [""]);
    Reassociate(E.EntryLines(more[0]), E.EntriesLines(more[1..]), [""]);
  }

  /** The section of an entry that leaves a fence open before others. */
  lemma SectionGrows(r: E.Record, more: seq<E.Record>)
    returns (j: nat, others: seq<Section>, h: string, rest: seq<string>)
    requires Importable(r) && Sheltered(r) && !Closed(r) && more != []
    ensures
      var lines := RestLines(r) + (E.EntriesLines(more) + [""]);
      && |RestLines(r)| < j <= |lines| && lines == RestLines(r) + (["## " + h] + rest)
      && Sections(lines, Levels(lines, false), 2, Some(Section(E.Heading(r.title), "")))
         == Flush(Some(Section(E.Heading(r.title), Unlines(lines[..j])))) + others
  {
    RestIsDeep(r);
    h, rest := NextEntryOpens(more);
    j, others := HeadingIsHidden(RestLines(r), h, rest, E.Heading(r.title));
  }

  lemma GrownText(r: E.Record, h: string, rest: seq<string>, j: nat) returns (v: string)
    requires Importable(r) && |RestLines(r)| < j <= |RestLines(r) + (["## " + h] + rest)|
    ensures TrimSpace(Unlines((RestLines(r) + (["## " + h] + rest))[..j]))
            == Annotated(DemotedBody(r), Meta(r)) + ("\n\n##" + v)
  {
    var a := Annotated(DemotedBody(r), Meta(r));
    RestIsAnnotated(r);
    var u := HiddenLines(RestLines(r), a, h, rest, j);
    DemotedIsTrimmed(r);
    assert a[0] == DemotedBody(r)[0];
    v := HiddenText(a, u);
  }

  /** An entry that leaves a fence open before another comes back with another body. */
  lemma OpenEntryGoesWrong(r: E.Record, more: seq<E.Record>, rs: seq<E.Record>, cur: Option<Section>, d: Defaults)
    requires Importable(r) && Sheltered(r) && !Closed(r) && rs != [] && rs[0] == r
    requires more != [] && forall s :: s in more ==> Importable(s) && HeadingOk(s)
    ensures
      var tail := E.EntriesLines(more) + [""];
      ImportAll(Sections(E.EntryLines(r) + tail, Levels(E.EntryLines(r) + tail, false), 2, cur), d)
      != ImportAll(Flush(cur), d) + AllExpected(rs, d)
  {
    var tail := E.EntriesLines(more) + [""];
    EntryOpens(r, tail, cur);
    assert Importable(more[0]) by {
      assert more[0] in more;
    }
    var j, others, h, rest := SectionGrows(r, more);
    var v := GrownText(r, h, rest, j);
    HiddenHasNoBanner(r, more, j);
    var text := Unlines((RestLines(r) + tail)[..j]);
    HiddenIsLonger(r, text, Annotated(DemotedBody(r), Meta(r)), v, d);
    OtherBody(cur, E.Heading(r.title), text, others, rs, d);
  }

  // ----- a comment in the body, or no body

  /** At most `n` characters, not counting two newlines at the end. */
  predicate Short(y: string, n: int) {
    |y| <= n || (2 <= |y| <= n + 2 && y[|y| - 2..] == "\n\n")
  }

  lemma ShortIsTrimmedShort(y: string, n: int)
    requires Short(y, n) && n >= 0
    ensures |TrimSpace(y)| <= n
  {
    var z, post := if |y| <= n then y else y[..|y| - 2], if |y| <= n then "" else "\n\n";
    assert "" + z + post == y;
    TrimsAway("", z, post);
  }

  /** A text after a line break in which a comment could close at the end only. */
  predicate ClosesLast(t: string) {
    && |t| >= 3 && t[0] == '\n' && At(t, |t| - 3, CLOSE)
    && forall i :: 0 <= i <= |t| && At(t, i, CLOSE) ==> i == |t| - 3
  }

  lemma CloseCharacters(t: string, i: nat)
    requires At(t, i, CLOSE)
    ensures t[i] == t[i + 1] == '-' && t[i + 2] == '>'
  {
    assert t[i] == t[i..i + 3][0] && t[i + 1] == t[i..i + 3][1] && t[i + 2] == t[i..i + 3][2];
  }

  lemma NoCloseInMark(mark: string, t: string, i: nat)
    requires mark == "\n\n<!-- " && mark <= t && At(t, i, CLOSE)
    ensures i >= 6
  {
    CloseCharacters(t, i);
    assert forall j :: 0 <= j < 7 ==> t[j] == mark[j];
  }

  lemma MetaClosesLast(meta: string)
    requires !Contains(meta, CLOSE)
    ensures ClosesLast(Annotated("", meta))
  {
    var t := Annotated("", meta);
    AnnotatedIsLaid("", meta);
    CommentCloses(t, "", meta);
    assert t[..7] == "\n\n<!-- ";
    CloseIsOnlyLast(t, "\n\n<!-- ");
  }

  lemma CloseIsOnlyLast(t: string, mark: string)
    requires mark == "\n\n<!-- " && mark <= t && IndexFrom(t, 6, CLOSE) == |t| - 3
    ensures ClosesLast(t)
  {
    assert t[0] == mark[0];
    forall i | 0 <= i <= |t| && At(t, i, CLOSE)
      ensures i == |t| - 3
    {
      NoCloseInMark(mark, t, i);
    }
  }

  /** Where a comment that opens in `a` closes, when such a text follows. */
  lemma CloseInOrAtEnd(a: string, t: string, e: nat)
    requires ClosesLast(t) && At(a + t, e, CLOSE)
    ensures e + 3 <= |a| || e + 3 == |a + t|
  {
    if e < |a| < e + 3 {
      assert (a + t)[|a|] == t[0] == '\n';
      NoOccurrenceOver(a + t, e, CLOSE, |a|);
    } else if |a| <= e {
      AtInSuffix(a, t, e - |a|, CLOSE);
    }
  }

  lemma {:induction false} FirstMark(a: string, t: string) returns (k: nat)
    requires Contains(a, OPEN)
    ensures k + 4 <= |a| && IndexFrom(a + t, 0, OPEN) == k
  {
    var first :| 0 <= first <= |a| && At(a, first, OPEN);
    AtInPrefix(a, t, first, OPEN);
    k := IndexFrom(a + t, 0, OPEN);
  }

  lemma {:induction false} CloseIsThere(a: string, t: string, from: nat) returns (e: nat)
    requires ClosesLast(t) && from <= |a|
    ensures IndexFrom(a + t, from, CLOSE) == e >= from && (e + 3 <= |a| || e + 3 == |a + t|)
  {
    AtInSuffix(a, t, |t| - 3, CLOSE);
    var k := IndexFrom(a + t, from, CLOSE);
    e := k;
    CloseInOrAtEnd(a, t, e);
  }

  /** The first comment of a text whose body opens one. */
  lemma {:induction false} FirstComment(a: string, t: string) returns (k: nat, e: nat)
    requires Contains(a, OPEN) && ClosesLast(t)
    ensures k < |a| && k < e + 3 && (e + 3 <= |a| || e + 3 == |a + t|)
    ensures IndexFrom(a + t, 0, OPEN) == k && IndexFrom(a + t, k + 4, CLOSE) == e
  {
    k := FirstMark(a, t);
    e := CloseIsThere(a, t, k + 4);
  }

  lemma {:induction false} StripStep(s: string, k: nat, e: nat)
    requires IndexFrom(s, 0, OPEN) == k && IndexFrom(s, k + 4, CLOSE) == e
    ensures StripComments(s) == s[..k] + StripComments(s[e + 3..])
  {
  }

  lemma StripPlain(rest: string, meta: string, t: string)
    requires !Contains(rest, OPEN) && !Contains(meta, CLOSE) && t == Annotated("", meta)
    ensures Short(StripComments(rest + t), |rest|)
  {
    StripAnnotated(rest, meta, "");
    AnnotatedInTwo(rest, meta);
    assert rest + t + "" == rest + t;
    assert StripComments("") == "";
    TwoMore(rest);
  }

  lemma TwoMore(rest: string)
    ensures Short(rest + "\n\n" + "", |rest|)
  {
  }

  lemma AnnotatedInTwo(body: string, meta: string)
    ensures Annotated(body, meta) == body + Annotated("", meta)
  {
  }

  lemma {:induction false} ClosedAtEnd(s: string, k: nat, e: nat, n: int)
    requires IndexFrom(s, 0, OPEN) == k < n && IndexFrom(s, k + 4, CLOSE) == e && e + 3 == |s|
    ensures Short(StripComments(s), n - 1)
  {
    StripStep(s, k, e);
    assert s[e + 3..] == "";
    NothingToStrip();
    assert s[..k] + "" == s[..k];
  }

  lemma NothingToStrip()
    ensures StripComments("") == ""
  {
  }

  lemma {:induction false} ClosedInside(a: string, t: string, s: string, k: nat, e: nat)
    requires s == a + t && e + 3 <= |a| && k < e + 3
    requires IndexFrom(s, 0, OPEN) == k && IndexFrom(s, k + 4, CLOSE) == e
    requires Short(StripComments(a[e + 3..] + t), |a| - e - 3)
    ensures Short(StripComments(s), |a| - 1)
  {
    StripStep(s, k, e);
    assert s[e + 3..] == a[e + 3..] + t;
    ShortAfter(s[..k], StripComments(a[e + 3..] + t), |a| - e - 3, |a| - 1);
  }

  /** A body that opens a comment loses characters when comments are stripped. */
  lemma {:induction false} StrippedIsShort(a: string, meta: string, t: string)
    requires Contains(a, OPEN) && !Contains(meta, CLOSE) && t == Annotated("", meta) && ClosesLast(t)
    ensures Short(StripComments(a + t), |a| - 1)
    decreases |a|
  {
    var k, e := FirstComment(a, t);
    if e + 3 <= |a| {
      if Contains(a[e + 3..], OPEN) {
        StrippedIsShort(a[e + 3..], meta, t);
      } else {
        StripPlain(a[e + 3..], meta, t);
      }
      ClosedInside(a, t, a + t, k, e);
    } else {
      ClosedAtEnd(a + t, k, e, |a|);
    }
  }

  lemma ShortAfter(pre: string, y: string, n: nat, m: int)
    requires Short(y, n) && |pre| + n <= m
    ensures Short(pre + y, m)
  {
    if |y| > n {
      assert (pre + y)[|pre + y| - 2..] == y[|y| - 2..];
    }
  }

  lemma {:induction false} DemotedWasPlain(lines: seq<string>, inFence: bool)
    requires forall i :: 0 <= i < |lines| ==> !Contains(E.Demoted(lines, inFence)[i], OPEN)
    ensures forall i :: 0 <= i < |lines| ==> !Contains(lines[i], OPEN)
  {
    if lines != [] {
      var next := if E.ExportFence(lines[0]) then !inFence else inFence;
      var out := E.Demoted(lines, inFence);
      assert out[1..] == E.Demoted(lines[1..], next);
      forall i | 0 <= i < |lines[1..]| ensures !Contains(E.Demoted(lines[1..], next)[i], OPEN) {
        assert E.Demoted(lines[1..], next)[i] == out[i + 1];
      }
      DemotedWasPlain(lines[1..], next);
      assert "##" + lines[0] + "" == "##" + lines[0];
      if out[0] == "##" + lines[0] {
        PartContainsLess("##", lines[0], "", OPEN);
      }
    }
  }

  /** Demoting takes no comment away. */
  lemma WrittenWasPlain(r: E.Record)
    requires E.ExportedBody(r) != "" && !Contains(DemotedBody(r), OPEN)
    ensures BodyOk(r)
  {
    var lines := Split(E.ExportedBody(r), '\n');
    PartsLack(WrittenLines(r), OPEN);
    DemotedWasPlain(lines, false);
    LinesLack(lines, OPEN);
    JoinSplit(E.ExportedBody(r), '\n');
  }

  /** No memory without a body is imported. */
  lemma EmptyBodyIsLost(r: E.Record, d: Defaults)
    requires E.ExportedBody(r) == ""
    ensures ImportAll(SectionOf(r), d) != [Expected(r, d)]
  {
    assert WrittenLines(r) == [""] && DemotedBody(r) == "";
    if SectionOf(r) != [] {
      ImportOne(SectionOf(r)[0], d);
    }
  }

  lemma BodyHasNoCommentIf(r: E.Record)
    ensures BodyOk(r) ==> !Contains(DemotedBody(r), OPEN)
  {
    if BodyOk(r) {
      BodyHasNoComment(r);
    }
  }

  lemma CommentedBodyIsLost(r: E.Record, d: Defaults)
    requires E.ExportedBody(r) != "" && Contains(DemotedBody(r), OPEN) && MetaOk(r)
    ensures ImportAll(SectionOf(r), d) != [Expected(r, d)]
  {
    var s := Annotated(DemotedBody(r), Meta(r));
    SectionIsAnnotated(r);
    MetaHasNoClose(r);
    MetaClosesLast(Meta(r));
    StrippedIsShort(DemotedBody(r), Meta(r), Annotated("", Meta(r)));
    AnnotatedInTwo(DemotedBody(r), Meta(r));
    DemotedIsTrimmed(r);
    ShortIsTrimmedShort(StripComments(s), |DemotedBody(r)| - 1);
    ImportOne(Section(E.Heading(r.title), s), d);
  }

  // ----- a list of entries

  ghost predicate TitlesOk(rs: seq<E.Record>) {
    forall i :: 0 <= i < |rs| ==> TitleOk(rs[i])
  }

  lemma TitlesInTwo(rs: seq<E.Record>)
    requires rs != []
    ensures TitlesOk(rs) <==> TitleOk(rs[0]) && TitlesOk(rs[1..])
  {
    forall i | 0 < i < |rs| ensures rs[i] == rs[1..][i - 1] {
    }
    if TitleOk(rs[0]) && TitlesOk(rs[1..]) {
      forall i | 0 <= i < |rs| ensures TitleOk(rs[i]) {
        assert i > 0 ==> TitleOk(rs[1..][i - 1]);
      }
    }
    if TitlesOk(rs) {
      forall i | 0 <= i < |rs[1..]| ensures TitleOk(rs[1..][i]) {
        assert TitleOk(rs[i + 1]);
      }
    }
  }

  /** An entry whose title an import changes comes back with another title. */
  lemma TitleGoesWrong(r: E.Record, others: seq<Section>, rs: seq<E.Record>, cur: Option<Section>, d: Defaults)
    requires Importable(r) && !TitleOk(r) && rs != [] && rs[0] == r
    ensures ImportAll(Flush(cur) + (SectionOf(r) + others), d) != ImportAll(Flush(cur), d) + AllExpected(rs, d)
  {
    var got := ImportAll(SectionOf(r) + others, d);
    TitleIsKept(r);
    EntryIsReadBack(r, d);
    ImportAllConcat(Flush(cur), SectionOf(r) + others, d);
    ImportAllConcat(SectionOf(r), others, d);
    assert got[0].title != AllExpected(rs, d)[0].title;
    Cancel(ImportAll(Flush(cur), d), got, AllExpected(rs, d));
  }

  /** The last entry: nothing but its title can go wrong. */
  lemma LastGoesWrong(r: E.Record, rs: seq<E.Record>, cur: Option<Section>, d: Defaults)
    requires Importable(r) && Sheltered(r) && !TitleOk(r) && rs == [r]
    ensures ImportAll(Sections(E.EntryLines(r) + [""], Levels(E.EntryLines(r) + [""], false), 2, cur), d)
            != ImportAll(Flush(cur), d) + AllExpected(rs, d)
  {
    LastEntry(r, cur);
    TitleGoesWrong(r, [], rs, cur, d);
    assert SectionOf(r) + [] == SectionOf(r);
  }

  /** An entry kept apart from others: its title goes wrong, or what follows does. */
  lemma TitleOrRestGoesWrong(r: E.Record, more: seq<E.Record>, rs: seq<E.Record>, cur: Option<Section>, d: Defaults)
    requires Importable(r) && Sheltered(r) && Closed(r) && rs == [r] + more && more != []
    requires
      var tail, text := E.EntriesLines(more) + [""], Unlines(RestLines(r));
      TitleOk(r) ==>
        ImportAll(Sections(tail, Levels(tail, false), 2, Some(Section(E.Heading(r.title), text))), d)
        != ImportAll(Flush(Some(Section(E.Heading(r.title), text))), d) + AllExpected(more, d)
    ensures
      var tail := E.EntriesLines(more) + [""];
      ImportAll(Sections(E.EntryLines(r) + tail, Levels(E.EntryLines(r) + tail, false), 2, cur), d)
      != ImportAll(Flush(cur), d) + AllExpected(rs, d)
  {
    var tail, next := E.EntriesLines(more) + [""], Some(Section(E.Heading(r.title), Unlines(RestLines(r))));
    var rest := Sections(tail, Levels(tail, false), 2, next);
    EntryThenTail(r, tail, cur);
    if TitleOk(r) {
      EntryComesBack(r, d);
      ImportAllConcat(Flush(cur), rest, d);
      Cancel(ImportAll(Flush(cur), d), ImportAll(rest, d), AllExpected(rs, d));
    } else {
      var others := NextFlushes(more, next);
      TitleGoesWrong(r, others, rs, cur, d);
    }
  }

  lemma NextFlushes(more: seq<E.Record>, cur: Option<Section>) returns (others: seq<Section>)
    requires more != []
    ensures
      var tail := E.EntriesLines(more) + [""];
      Sections(tail, Levels(tail, false), 2, cur) == Flush(cur) + others
  {
    var tail := E.EntriesLines(more[1..]) + [""];
    Reassociate(E.EntryLines(more[0]), E.EntriesLines(more[1..]), [""]);
    EntryOpens(more[0], tail, cur);
    others := Sections(RestLines(more[0]) + tail, Levels(RestLines(more[0]) + tail, false), 2,
                       Some(Section(E.Heading(more[0].title), "")));
  }

  /** Unless every title is left alone and every body kept apart, some memory comes back as something else. */
  lemma {:induction false} EntriesGoWrong(rs: seq<E.Record>, title: string, acc: string, d: Defaults)
    requires (forall r :: r in rs ==> Importable(r) && HeadingOk(r)) && !(TitlesOk(rs) && KeptApart(rs))
    ensures
      var lines := E.EntriesLines(rs) + [""];
      ImportAll(Sections(lines, Levels(lines, false), 2, Some(Section(title, acc))), d)
      != ImportAll(Flush(Some(Section(title, acc))), d) + AllExpected(rs, d)
  {
    var r, more, cur := rs[0], rs[1..], Some(Section(title, acc));
    TitlesInTwo(rs);
    Reassociate(E.EntryLines(r), E.EntriesLines(more), [""]);
    assert rs == [r] + more;
    if !Sheltered(r) {
      CutEntryGoesWrong(r, E.EntriesLines(more) + [""], rs, cur, d);
    } else if more == [] {
      assert E.EntriesLines(more) + [""] == [""];
      LastGoesWrong(r, rs, cur, d);
    } else if !Closed(r) {
      OpenEntryGoesWrong(r, more, rs, cur, d);
    } else {
      if TitleOk(r) {
        EntriesGoWrong(more, E.Heading(r.title), Unlines(RestLines(r)), d);
      }
      TitleOrRestGoesWrong(r, more, rs, cur, d);
    }
  }
}
