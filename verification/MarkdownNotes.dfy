// What the importer makes of any document, whoever wrote it.
module MarkdownNotes {
  // Fences, headings, comments, metadata and titles are described on the text itself, and the sections of a
  // document are the stretches between its headings.

  import opened Strings
  import E = MarkdownExport
  import opened MarkdownImport
  import opened MarkdownSections
  import opened MarkdownBanner
  import opened MarkdownSpill

  // ----- white space

  predicate Blank(s: string) {
    forall i :: 0 <= i < |s| ==> IsRegexSpace(s[i])
  }

  lemma BlankIsSpace(s: string)
    requires Blank(s)
    ensures AllSpace(s)
  {
  }

  lemma {:induction false} SkipsBlank(s: string, from: nat, n: nat)
    requires from + n <= |s| && Blank(s[from..from + n])
    ensures SkipRegexSpaces(s, from) == SkipRegexSpaces(s, from + n)
    decreases n
  {
    if n > 0 {
      assert s[from..from + n][0] == s[from];
      assert s[from..from + n][1..] == s[from + 1..from + n];
      SkipsBlank(s, from + 1, n - 1);
    }
  }

  lemma {:induction false} SkippedIsBlank(s: string, from: nat)
    requires from <= |s|
    ensures
      var k := SkipRegexSpaces(s, from);
      Blank(s[from..k]) && (k < |s| ==> !IsRegexSpace(s[k]))
    decreases |s| - from
  {
    if from < |s| && IsRegexSpace(s[from]) {
      SkippedIsBlank(s, from + 1);
    }
  }

  /** The mark comes right after white space. */
  ghost predicate MarkedAfter(s: string, from: nat, mark: string) {
    exists k :: from <= k <= |s| && At(s, k, mark) && Blank(s[from..k])
  }

  lemma MarkedExactlyWhen(s: string, from: nat, mark: string)
    requires from <= |s| && mark != "" && !IsRegexSpace(mark[0])
    ensures At(s, SkipRegexSpaces(s, from), mark) <==> MarkedAfter(s, from, mark)
  {
    var k := SkipRegexSpaces(s, from);
    SkippedIsBlank(s, from);
    if At(s, k, mark) {
    }
    if MarkedAfter(s, from, mark) {
      var j :| from <= j <= |s| && At(s, j, mark) && Blank(s[from..j]);
      SkipsBlank(s, from, j - from);
      assert s[j] == s[j..j + |mark|][0] == mark[0];
    }
  }

  // ----- fences

  /** White space, then three backticks or three tildes. */
  ghost predicate Fence(line: string) {
    MarkedAfter(line, 0, "```") || MarkedAfter(line, 0, "~~~")
  }

  lemma FenceExactlyWhen(line: string)
    ensures ImportFence(line) <==> Fence(line)
  {
    MarkedExactlyWhen(line, 0, "```");
    MarkedExactlyWhen(line, 0, "~~~");
  }

  /** How many lines are fences. */
  ghost function Marks(lines: seq<string>): nat {
    if lines == [] then 0 else Marks(lines[..|lines| - 1]) + if Fence(lines[|lines| - 1]) then 1 else 0
  }

  lemma {:induction false} FenceAfterIsOdd(lines: seq<string>)
    ensures FenceAfter(lines, false) <==> Marks(lines) % 2 == 1
  {
    if lines != [] {
      var n := |lines| - 1;
      FenceAfterIsOdd(lines[..n]);
      FenceExactlyWhen(lines[n]);
      assert lines == lines[..n] + [lines[n]];
      FencedConcat(lines[..n], [lines[n]], false);
    }
  }

  lemma FencedExactlyWhen(lines: seq<string>, i: nat)
    requires i < |lines|
    ensures Fenced(lines, false)[i] <==> Fence(lines[i]) || Marks(lines[..i]) % 2 == 1
  {
    assert lines == lines[..i] + ([lines[i]] + lines[i + 1..]);
    FencedConcat(lines[..i], [lines[i]] + lines[i + 1..], false);
    FenceAfterIsOdd(lines[..i]);
    FenceExactlyWhen(lines[i]);
  }

  // ----- headings

  ghost predicate HeadingOf(line: string, n: nat) {
    1 <= n <= 6 && n < |line| && (forall i :: 0 <= i < n ==> line[i] == '#') && IsRegexSpace(line[n])
  }

  lemma {:induction false} HashesStop(s: string)
    ensures Hashes(s) < |s| ==> s[Hashes(s)] != '#'
  {
    if s != "" && s[0] == '#' {
      HashesStop(s[1..]);
    }
  }

  lemma HashesAre(line: string, n: nat)
    requires n < |line| && (forall i :: 0 <= i < n ==> line[i] == '#') && line[n] != '#'
    ensures Hashes(line) == n
  {
    HashesStop(line);
  }

  lemma HeadingExactlyWhen(line: string, n: nat)
    requires n > 0
    ensures HeadingLevel(line) == n <==> HeadingOf(line, n)
  {
    if HeadingOf(line, n) {
      HashesAre(line, n);
    }
  }

  /** The title is what follows the white space. */
  lemma HeadingTextIs(line: string, n: nat, k: nat)
    requires HeadingOf(line, n) && n < k <= |line| && Blank(line[n..k])
    ensures HeadingText(line) == TrimSpace(line[k..])
  {
    HashesAre(line, n);
    SkipsBlank(line, n, k - n);
    assert line[n..n + (k - n)] == line[n..k];
    var j := SkipRegexSpaces(line, k);
    SkippedIsBlank(line, k);
    BlankIsSpace(line[k..j]);
    TrimsAway(line[k..j], line[j..], "");
    assert line[k..j] + line[j..] + "" == line[k..];
  }

  /** A heading of level `n` on line `i`, outside every fence. */
  ghost predicate RealHeading(lines: seq<string>, i: nat, n: nat) {
    i < |lines| && HeadingOf(lines[i], n) && !Fence(lines[i]) && Marks(lines[..i]) % 2 == 0
  }

  lemma LevelsExactlyWhen(lines: seq<string>, i: nat, n: nat)
    requires i < |lines| && n > 0
    ensures Levels(lines, false)[i] == n <==> RealHeading(lines, i, n)
  {
    FencedExactlyWhen(lines, i);
    HeadingExactlyWhen(lines[i], n);
  }

  // ----- documents without headings

  ghost predicate NoHeadings(lines: seq<string>) {
    forall i, n :: !RealHeading(lines, i, n)
  }

  lemma NoLevels(lines: seq<string>)
    requires NoHeadings(lines)
    ensures MinLevel(Levels(lines, false)) == 7
  {
    var levels := Levels(lines, false);
    forall i | 0 <= i < |levels|
      ensures levels[i] == 0
    {
      if levels[i] > 0 {
        LevelsExactlyWhen(lines, i, levels[i]);
      }
    }
  }

  lemma FirstLineIs(s: string, first: string, rest: string)
    requires Without(first, '\n') && (s == first || s == first + "\n" + rest)
    ensures FirstLine(s) == first
  {
    var tail := if s == first then "" else "\n" + rest;
    SplitPrefix(first, tail, '\n');
    assert s == first + tail;
    assert Split(tail, '\n')[0] == "";
  }

  /**
   * A text without headings and comments is imported as one memory: its body is the trimmed text, and its
   * title is its first line.
   */
  lemma PlainNoteIsOneMemory(doc: string, first: string, rest: string, d: Defaults)
    requires NoHeadings(Split(doc, '\n')) && !Contains(doc, "<!--") && TrimSpace(doc) != ""
    requires Without(first, '\n') && (TrimSpace(doc) == first || TrimSpace(doc) == first + "\n" + rest)
    ensures ImportAll(SplitSections(doc), d)
         == [Imported(d.kind, ReadTitle(d.kind, TrimSpace(first)), TrimSpace(doc), [d.path], d.visibility)]
  {
    var sec := Section(TrimSpace(first), TrimSpace(doc));
    PlainSection(doc, first, rest);
    var _, _ := TrimParts(doc);
    TrimmedLacks(doc, "<!--");
    ImportOne(sec, d);
    PlainIsImportedAs(sec, d);
  }

  lemma PlainSection(doc: string, first: string, rest: string)
    requires NoHeadings(Split(doc, '\n')) && TrimSpace(doc) != "" && Without(first, '\n')
    requires TrimSpace(doc) == first || TrimSpace(doc) == first + "\n" + rest
    ensures SplitSections(doc) == [Section(TrimSpace(first), TrimSpace(doc))] && TrimSpace(first) != ""
  {
    NoLevels(Split(doc, '\n'));
    FirstLineIs(TrimSpace(doc), first, rest);
    var _, _ := TrimParts(doc);
    assert first != "" && first[0] == TrimSpace(doc)[0];
    TrimKeepsStart(first);
  }

  lemma PlainIsImportedAs(sec: Section, d: Defaults)
    requires !Contains(sec.body, "<!--") && sec.body != "" && Trimmed(sec.body) && sec.title != ""
    ensures ImportSection(sec, d)
         == Some(Imported(d.kind, ReadTitle(d.kind, sec.title), sec.body, [d.path], d.visibility))
  {
    PlainTextIsImported(sec.title, sec.body, d);
    PlainHasNoMeta(sec.body);
  }

  lemma PlainHasNoMeta(s: string)
    requires !Contains(s, "<!--")
    ensures ParseMeta(s) == map[]
  {
  }

  /** A blank text is imported as nothing. */
  lemma BlankNoteIsNothing(doc: string)
    requires AllSpace(doc)
    ensures SplitSections(doc) == []
  {
    var lines := Split(doc, '\n');
    LinesOfSpaces(doc);
    forall i: nat, n: nat
      ensures !RealHeading(lines, i, n)
    {
      if i < |lines| {
        SpacesAreNoHeading(lines[i], n);
      }
    }
    NoLevels(lines);
    assert doc + "" == doc;
    TrimLeftSkips(doc, "");
  }

  lemma SpacesAreNoHeading(line: string, n: nat)
    requires AllSpace(line)
    ensures !HeadingOf(line, n)
  {
    assert line != "" ==> IsSpace(line[0]);
  }

  lemma {:induction false} LinesOfSpaces(s: string)
    requires AllSpace(s)
    ensures forall i :: 0 <= i < |Split(s, '\n')| ==> AllSpace(Split(s, '\n')[i])
  {
    if s != "" {
      LinesOfSpaces(s[1..]);
    }
  }

  // ----- documents with headings

  /** A section with a heading or a body. */
  function Kept(title: string, lines: seq<string>): seq<Section> {
    var body := TrimSpace(Unlines(lines));
    if title == "" && body == "" then [] else [Section(title, body)]
  }

  ghost predicate Increasing(cuts: seq<nat>, from: nat, end: nat) {
    && (forall k :: 0 <= k < |cuts| ==> from <= cuts[k] < end)
    && (forall j, k :: 0 <= j < k < |cuts| ==> cuts[j] < cuts[k])
  }

  function NextCut(cuts: seq<nat>, end: nat): nat {
    if cuts == [] then end else cuts[0]
  }

  /** One section for each heading, up to the next. */
  function Between(lines: seq<string>, cuts: seq<nat>): seq<Section>
    requires Increasing(cuts, 0, |lines|)
  {
    if cuts == [] then []
    else
      Kept(HeadingText(lines[cuts[0]]), lines[cuts[0] + 1..NextCut(cuts[1..], |lines|)]) + Between(lines, cuts[1..])
  }

  /** The splitting lines from `from` on. */
  ghost predicate CutsFrom(levels: seq<nat>, split: nat, from: nat, cuts: seq<nat>) {
    Increasing(cuts, from, |levels|)
    && forall i :: from <= i < |levels| ==> (0 < levels[i] <= split <==> i in cuts)
  }

  lemma UpToNextCut(levels: seq<nat>, split: nat, from: nat, cuts: seq<nat>)
    requires from <= |levels| && CutsFrom(levels, split, from, cuts)
    ensures
      var next := NextCut(cuts, |levels|);
      from <= next <= |levels| && Deep(levels[from..next], split) && (next < |levels| ==> 0 < levels[next] <= split)
  {
    var next := NextCut(cuts, |levels|);
    forall i | 0 <= i < next - from
      ensures !(0 < levels[from..next][i] <= split)
    {
      assert levels[from..next][i] == levels[from + i];
    }
  }

  lemma CutsAfter(levels: seq<nat>, split: nat, from: nat, cuts: seq<nat>)
    requires cuts != [] && CutsFrom(levels, split, from, cuts)
    ensures CutsFrom(levels, split, cuts[0] + 1, cuts[1..])
  {
    assert cuts == [cuts[0]] + cuts[1..];
  }

  /** The sections from a cut on. */
  ghost function FromCut(lines: seq<string>, levels: seq<nat>, split: nat, next: nat): seq<Section>
    requires |lines| == |levels| && next <= |lines|
  {
    if next == |lines| then []
    else Sections(lines[next + 1..], levels[next + 1..], split, Some(Section(HeadingText(lines[next]), "")))
  }

  lemma AtCut(lines: seq<string>, levels: seq<nat>, split: nat, next: nat, cur: Option<Section>)
    requires |lines| == |levels| && next <= |lines| && (next < |lines| ==> 0 < levels[next] <= split)
    ensures Sections(lines[next..], levels[next..], split, cur) == Flush(cur) + FromCut(lines, levels, split, next)
  {
    if next < |lines| {
      CutHere(lines, levels, split, next, cur);
    }
  }

  lemma UpToCut(lines: seq<string>, levels: seq<nat>, split: nat, from: nat, next: nat, title: string)
    requires |lines| == |levels| && from <= next <= |lines| && Deep(levels[from..next], split)
    requires next < |lines| ==> 0 < levels[next] <= split
    ensures Sections(lines[from..], levels[from..], split, Some(Section(title, "")))
         == Kept(title, lines[from..next]) + FromCut(lines, levels, split, next)
  {
    OneStretch(lines, levels, split, from, next, title);
    AtCut(lines, levels, split, next, Some(Section(title, Unlines(lines[from..next]))));
  }

  lemma {:induction false} SectionsBetween(lines: seq<string>, levels: seq<nat>, split: nat, cuts: seq<nat>, from: nat,
                                           next: nat)
    requires |lines| == |levels| && from <= |lines| && CutsFrom(levels, split, from, cuts)
    requires next == NextCut(cuts, |lines|)
    ensures FromCut(lines, levels, split, next) == Between(lines, cuts)
    decreases |cuts|
  {
    if cuts != [] {
      var rest := cuts[1..];
      var later := NextCut(rest, |lines|);
      CutsAfter(levels, split, from, cuts);
      UpToNextCut(levels, split, next + 1, rest);
      SectionsBetween(lines, levels, split, rest, next + 1, later);
      OneCut(lines, levels, split, next, later);
    }
  }

  lemma OneCut(lines: seq<string>, levels: seq<nat>, split: nat, next: nat, later: nat)
    requires |lines| == |levels| && next < later <= |lines| && Deep(levels[next + 1..later], split)
    requires later < |lines| ==> 0 < levels[later] <= split
    ensures FromCut(lines, levels, split, next)
         == Kept(HeadingText(lines[next]), lines[next + 1..later]) + FromCut(lines, levels, split, later)
  {
    UpToCut(lines, levels, split, next + 1, later, HeadingText(lines[next]));
  }

  lemma OneStretch(lines: seq<string>, levels: seq<nat>, split: nat, from: nat, next: nat, title: string)
    requires |lines| == |levels| && from <= next <= |lines| && Deep(levels[from..next], split)
    ensures Sections(lines[from..], levels[from..], split, Some(Section(title, "")))
         == Sections(lines[next..], levels[next..], split, Some(Section(title, Unlines(lines[from..next]))))
  {
    var part := lines[from..next];
    CollectLines(part, levels[from..next], lines[next..], levels[next..], split, title, "");
    assert part + lines[next..] == lines[from..] && levels[from..next] + levels[next..] == levels[from..];
    assert "" + Unlines(part) == Unlines(part);
  }

  lemma CutHere(lines: seq<string>, levels: seq<nat>, split: nat, i: nat, cur: Option<Section>)
    requires |lines| == |levels| && i < |lines| && 0 < levels[i] <= split
    ensures Sections(lines[i..], levels[i..], split, cur)
         == Flush(cur) + Sections(lines[i + 1..], levels[i + 1..], split, Some(Section(HeadingText(lines[i]), "")))
  {
    SplitsHere(lines[i], levels[i], lines[i + 1..], levels[i + 1..], split, cur);
    assert [lines[i]] + lines[i + 1..] == lines[i..] && [levels[i]] + levels[i + 1..] == levels[i..];
  }

  /** What stands above the first heading makes a section without a title, unless it is blank. */
  lemma {:induction false} PreambleIsKept(part: seq<string>, partLevels: seq<nat>, tail: seq<string>,
                                          tailLevels: seq<nat>, split: nat)
    requires |part| == |partLevels| && |tail| == |tailLevels| && Deep(partLevels, split)
    requires tail != [] ==> 0 < tailLevels[0] <= split
    ensures Sections(part + tail, partLevels + tailLevels, split, None)
         == Kept("", part) + Sections(tail, tailLevels, split, None)
  {
    if part == [] {
      assert part + tail == tail && partLevels + tailLevels == tailLevels;
    } else {
      var line, rest := part[0], part[1..];
      assert (part + tail)[1..] == rest + tail && (partLevels + tailLevels)[1..] == partLevels[1..] + tailLevels;
      if TrimSpace(line) == "" {
        PreambleIsKept(rest, partLevels[1..], tail, tailLevels, split);
        BlankLineAbove(line, Unlines(rest));
      } else {
        CollectLines(rest, partLevels[1..], tail, tailLevels, split, "", line + "\n");
        NotBlankBelow(line, Unlines(rest));
        if tail != [] {
          SplitsEither(tail, tailLevels, split, Some(Section("", Unlines(part))));
        }
      }
    }
  }

  lemma AboveTheFirst(lines: seq<string>, levels: seq<nat>, split: nat, next: nat)
    requires |lines| == |levels| && next <= |lines| && Deep(levels[0..next], split)
    requires next < |lines| ==> 0 < levels[next] <= split
    ensures Sections(lines, levels, split, None)
         == Kept("", lines[..next]) + FromCut(lines, levels, split, next)
  {
    PreambleIsKept(lines[..next], levels[0..next], lines[next..], levels[next..], split);
    assert lines[..next] + lines[next..] == lines && levels[0..next] + levels[next..] == levels;
    AtCut(lines, levels, split, next, None);
  }

  lemma SplitsEither(tail: seq<string>, levels: seq<nat>, split: nat, cur: Option<Section>)
    requires |tail| == |levels| && tail != [] && 0 < levels[0] <= split
    ensures Sections(tail, levels, split, cur) == Flush(cur) + Sections(tail, levels, split, None)
  {
  }

  lemma BlankLineAbove(line: string, below: string)
    requires TrimSpace(line) == ""
    ensures TrimSpace(line + "\n" + below) == TrimSpace(below)
  {
    var pre, post := TrimParts(line);
    assert line == pre + post;
    TrimsAway(line + "\n", below, "");
    assert line + "\n" + below + "" == line + "\n" + below;
  }

  lemma NotBlankBelow(line: string, below: string)
    requires TrimSpace(line) != ""
    ensures TrimSpace(line + "\n" + below) != ""
  {
    var pre, post := TrimParts(line);
    var core := TrimSpace(line);
    var s := line + "\n" + below;
    assert s[|pre|] == line[|pre|] == core[0];
    NotBlank(s, |pre|);
  }

  lemma NotBlank(s: string, i: nat)
    requires i < |s| && !IsSpace(s[i])
    ensures TrimSpace(s) != ""
  {
    var a, b := TrimParts(s);
    assert TrimSpace(s) == "" ==> s == a + b;
  }

  ghost predicate Used(lines: seq<string>, n: nat) {
    exists i :: RealHeading(lines, i, n)
  }

  /** The top level in use, or the one below it when that is used too. */
  ghost predicate SplitsDownTo(lines: seq<string>, split: nat) {
    exists top: nat ::
      && Used(lines, top) && (forall n: nat :: Used(lines, n) ==> top <= n)
      && split == if Used(lines, top + 1) then top + 1 else top
  }

  lemma SplitLevelIs(lines: seq<string>, split: nat)
    requires SplitsDownTo(lines, split)
    ensures MinLevel(Levels(lines, false)) != 7 && SplitLevel(Levels(lines, false)) == split
  {
    var top: nat :|
      && Used(lines, top) && (forall n: nat :: Used(lines, n) ==> top <= n)
      && split == if Used(lines, top + 1) then top + 1 else top;
    var min := MinLevel(Levels(lines, false));
    LevelInUse(lines, top);
    LevelInUse(lines, min);
    LevelInUse(lines, top + 1);
  }

  lemma LevelInUse(lines: seq<string>, n: nat)
    requires n > 0
    ensures n in Levels(lines, false) <==> Used(lines, n)
    ensures Used(lines, n) ==> n <= 6
  {
    var levels := Levels(lines, false);
    if n in levels {
      var j :| 0 <= j < |levels| && levels[j] == n;
      LevelsExactlyWhen(lines, j, n);
    }
    if j :| RealHeading(lines, j, n) {
      LevelsExactlyWhen(lines, j, n);
    }
  }

  ghost predicate SplitsAt(lines: seq<string>, i: nat, split: nat) {
    exists n: nat :: n <= split && RealHeading(lines, i, n)
  }

  /** The lines a document is cut at. */
  ghost predicate CutLines(lines: seq<string>, split: nat, cuts: seq<nat>) {
    Increasing(cuts, 0, |lines|)
    && forall i :: i in cuts <==> SplitsAt(lines, i, split)
  }

  lemma CutLinesAre(lines: seq<string>, split: nat, cuts: seq<nat>)
    requires CutLines(lines, split, cuts)
    ensures CutsFrom(Levels(lines, false), split, 0, cuts)
  {
    var levels := Levels(lines, false);
    forall i | 0 <= i < |levels|
      ensures 0 < levels[i] <= split <==> i in cuts
    {
      SplitsExactlyAt(lines, i, split);
    }
  }

  lemma CutAt(lines: seq<string>, levels: seq<nat>, split: nat, cuts: seq<nat>)
    requires |lines| == |levels| && CutsFrom(levels, split, 0, cuts)
    ensures Sections(lines, levels, split, None) == Kept("", lines[..NextCut(cuts, |lines|)]) + Between(lines, cuts)
  {
    var next := NextCut(cuts, |lines|);
    UpToNextCut(levels, split, 0, cuts);
    AboveTheFirst(lines, levels, split, next);
    SectionsBetween(lines, levels, split, cuts, 0, next);
  }

  lemma SplitsIntoSections(doc: string)
    requires MinLevel(Levels(Split(doc, '\n'), false)) != 7
    ensures var lines := Split(doc, '\n');
      SplitSections(doc) == Sections(lines, Levels(lines, false), SplitLevel(Levels(lines, false)), None)
  {
  }

  /**
   * A document is cut at its headings of the top level in use and, where there are some, of the level below:
   * each section has its heading's title and the lines up to the next cut, and what stands above the first
   * is kept too.
   */
  lemma CutExactlyAtHeadings(doc: string, split: nat, cuts: seq<nat>)
    requires var lines := Split(doc, '\n'); SplitsDownTo(lines, split) && CutLines(lines, split, cuts)
    ensures var lines := Split(doc, '\n');
      SplitSections(doc) == Kept("", lines[..NextCut(cuts, |lines|)]) + Between(lines, cuts)
  {
    var lines := Split(doc, '\n');
    SplitLevelIs(lines, split);
    CutLinesAre(lines, split, cuts);
    CutAt(lines, Levels(lines, false), split, cuts);
    SplitsIntoSections(doc);
  }

  // Every document with a heading has such a level and such lines.

  lemma {:induction false} SomeCuts(levels: seq<nat>, split: nat, from: nat) returns (cuts: seq<nat>)
    requires from <= |levels|
    ensures CutsFrom(levels, split, from, cuts)
    decreases |levels| - from
  {
    if from == |levels| {
      cuts := [];
    } else {
      var later := SomeCuts(levels, split, from + 1);
      cuts := if 0 < levels[from] <= split then [from] + later else later;
    }
  }

  lemma DocumentIsCut(lines: seq<string>) returns (split: nat, cuts: seq<nat>)
    requires !NoHeadings(lines)
    ensures SplitsDownTo(lines, split) && CutLines(lines, split, cuts)
  {
    var levels := Levels(lines, false);
    var i, n :| RealHeading(lines, i, n);
    LevelsExactlyWhen(lines, i, n);
    var top := MinLevel(levels);
    assert top < 7;
    LevelInUse(lines, top);
    LevelInUse(lines, top + 1);
    forall n: nat | Used(lines, n)
      ensures top <= n
    {
      LevelInUse(lines, n);
    }
    split := SplitLevel(levels);
    cuts := SomeCuts(levels, split, 0);
    forall i
      ensures i in cuts <==> SplitsAt(lines, i, split)
    {
      SplitsExactlyAt(lines, i, split);
    }
  }

  lemma SplitsExactlyAt(lines: seq<string>, i: nat, split: nat)
    ensures SplitsAt(lines, i, split) <==> i < |lines| && 0 < Levels(lines, false)[i] <= split
  {
    if i < |lines| && Levels(lines, false)[i] > 0 {
      LevelsExactlyWhen(lines, i, Levels(lines, false)[i]);
    }
    if SplitsAt(lines, i, split) {
      var n: nat :| n <= split && RealHeading(lines, i, n);
      LevelsExactlyWhen(lines, i, n);
    }
  }
}
