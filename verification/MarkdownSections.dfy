// How the lines of an exported document are collected into sections. An entry's first line is a heading at
// the level the importer splits at. When no other line of it is, and no fence is left open before the next
// entry, collecting lines gives one section per record. The records for which this holds are described
// here, too.
module MarkdownSections {
  import opened Strings
  import E = MarkdownExport
  import opened MarkdownImport

  /** A metadata value that keeps to its line and to its comment, and does not read as an export's banner. */
  predicate Safe(v: string) {
    Without(v, '\n') && !Contains(v, CLOSE) && !HasBanner(v, 0)
  }

  predicate PathOk(f: string) {
    f != "" && Trimmed(f) && Without(f, ',')
  }

  /** A heading that an import neither shortens nor takes a decision's number off. */
  predicate TitleOk(r: E.Record) {
    && Collapse(E.Heading(r.title), 200) == E.Heading(r.title)
    && (r.kind == "decision" ==>
          var number := AfterDecisionNumber(E.Heading(r.title));
          number.None? || number.value == "")
  }

  predicate BodyOk(r: E.Record) {
    E.ExportedBody(r) != "" && !Contains(E.ExportedBody(r), OPEN)
  }

  predicate MetaOk(r: E.Record) {
    && ValidKind(r.kind) && ValidVisibility(r.visibility)
    && (forall f :: f in r.files ==> PathOk(f))
    && Safe(Join(r.files, ',')) && Safe(r.source) && Safe(r.id)
  }

  predicate Importable(r: E.Record) {
    BodyOk(r) && MetaOk(r)
  }

  predicate Exportable(r: E.Record) {
    TitleOk(r) && Importable(r)
  }

  /** The lines of the body as they are written. */
  function WrittenLines(r: E.Record): seq<string> {
    E.Demoted(Split(E.ExportedBody(r), '\n'), false)
  }

  /** Outside what the importer takes for fences, no written line is a heading it splits at. */
  predicate Sheltered(r: E.Record) {
    Deep(Levels(WrittenLines(r), false), 2)
  }

  /** The importer is outside a fence again after the body. */
  predicate Closed(r: E.Record) {
    !FenceAfter(WrittenLines(r), false)
  }

  /** Every body is sheltered, and every body but the last is closed. */
  predicate KeptApart(records: seq<E.Record>) {
    records != [] ==>
      Sheltered(records[0]) && (|records| > 1 ==> Closed(records[0])) && KeptApart(records[1..])
  }

  predicate BannerOk(project: string, banner: E.Banner) {
    && Without(project, '\n') && Without(banner.quotedProject, '\n')
    && Without(banner.stamp, '\n') && Without(banner.day, '\n')
  }

  function DemotedBody(r: E.Record): string {
    Join(WrittenLines(r), '\n')
  }

  /** The title an import gives a section with this heading. */
  function ReadTitle(kind: string, heading: string): string {
    var number := AfterDecisionNumber(heading);
    Collapse(if kind == "decision" && number.Some? && number.value != "" then number.value else heading, 200)
  }

  /** The memory an exported record comes back as; one without files is given the document's path. */
  function Expected(r: E.Record, d: Defaults): Imported {
    Imported(r.kind, E.Heading(r.title), DemotedBody(r), if r.files == [] then [d.path] else r.files, r.visibility)
  }

  function AllExpected(records: seq<E.Record>, d: Defaults): seq<Imported> {
    if records == [] then [] else [Expected(records[0], d)] + AllExpected(records[1..], d)
  }

  // ----- lines that neither fence nor head

  predicate Quiet(line: string) {
    line == "" || (line[0] !in "`~#" && !IsRegexSpace(line[0]))
  }

  lemma QuietLine(line: string)
    requires Quiet(line)
    ensures !ImportFence(line) && HeadingLevel(line) == 0
  {
    if line != "" {
      NotAFence(line);
    }
  }

  lemma NotAFence(line: string)
    requires line != "" && line[0] !in "`~" && !IsRegexSpace(line[0])
    ensures !ImportFence(line)
  {
    NoOccurrenceOver(line, 0, "```", 0);
    NoOccurrenceOver(line, 0, "~~~", 0);
  }

  /** Levels that do not split at `split`. */
  predicate Deep(levels: seq<nat>, split: nat) {
    forall i :: 0 <= i < |levels| ==> levels[i] == 0 || levels[i] > split
  }

  lemma LevelsCons(line: string, lines: seq<string>, inFence: bool)
    ensures
      var next := if ImportFence(line) then !inFence else inFence;
      && FenceAfter([line] + lines, inFence) == FenceAfter(lines, next)
      && Levels([line] + lines, inFence)
         == [if ImportFence(line) || inFence then 0 else HeadingLevel(line)] + Levels(lines, next)
  {
    assert ([line] + lines)[1..] == lines;
  }

  lemma {:induction false} QuietLines(lines: seq<string>, inFence: bool)
    requires forall i :: 0 <= i < |lines| ==> Quiet(lines[i])
    ensures FenceAfter(lines, inFence) == inFence && forall i :: 0 <= i < |lines| ==> Levels(lines, inFence)[i] == 0
  {
    if lines != [] {
      QuietLine(lines[0]);
      QuietLines(lines[1..], inFence);
      assert lines == [lines[0]] + lines[1..];
      LevelsCons(lines[0], lines[1..], inFence);
    }
  }

  lemma DemotedHeading(line: string)
    requires "#" <= line
    ensures !ImportFence("##" + line) && (HeadingLevel("##" + line) == 0 || HeadingLevel("##" + line) > 2)
  {
    var d := "##" + line;
    assert d[0] == '#' && d[1..] == "#" + line && d[1..][1..] == line;
    assert Hashes(d) == 2 + Hashes(line);
    NotAFence(d);
  }

  /** A demoted body has the importer's fences where the exporter saw them, and no heading that splits. */
  lemma {:induction false} DemotedIsDeep(lines: seq<string>, inFence: bool)
    requires forall i :: 0 <= i < |lines| ==> (E.ExportFence(lines[i]) <==> ImportFence(lines[i]))
    ensures FenceAfter(E.Demoted(lines, inFence), inFence) == E.Fences(lines, inFence)
    ensures Deep(Levels(E.Demoted(lines, inFence), inFence), 2)
  {
    if lines != [] {
      var line := lines[0];
      var next := if E.ExportFence(line) then !inFence else inFence;
      var out := if E.ExportFence(line) || inFence then line else E.DemotedLine(line);
      DemotedIsDeep(lines[1..], next);
      assert E.Demoted(lines, inFence) == [out] + E.Demoted(lines[1..], next);
      if "#" <= line {
        DemotedHeading(line);
      } else {
        assert line == "" || line[0] != '#';
      }
      LevelsCons(out, E.Demoted(lines[1..], next), inFence);
    }
  }

  /** A body in which both sides find the same fences, and those in pairs, is kept apart from what follows. */
  lemma AgreedFencesShelter(r: E.Record)
    requires forall line :: line in Split(E.ExportedBody(r), '\n') ==> (E.ExportFence(line) <==> ImportFence(line))
    requires !E.Fences(Split(E.ExportedBody(r), '\n'), false)
    ensures Sheltered(r) && Closed(r)
  {
    DemotedIsDeep(Split(E.ExportedBody(r), '\n'), false);
  }

  // ----- one entry

  function RestLines(r: E.Record): seq<string> {
    [""] + E.BodyLines(r) + E.MetaBlock(r)
  }

  lemma EntrySplits(r: E.Record)
    ensures E.EntryLines(r) == ["## " + E.Heading(r.title)] + RestLines(r)
  {
    SplitsAfterFirst("## " + E.Heading(r.title), E.BodyLines(r), E.MetaBlock(r));
  }

  lemma SplitsAfterFirst(heading: string, body: seq<string>, meta: seq<string>)
    ensures [heading, ""] + body + meta == [heading] + ([""] + body + meta)
  {
  }

  lemma MetaLinesAreQuiet(r: E.Record)
    ensures forall i :: 0 <= i < |E.MetaBlock(r)| ==> Quiet(E.MetaBlock(r)[i])
  {
    forall i | 0 <= i < |E.MetaLines(r)| ensures Quiet(E.MetaLines(r)[i]) {
    }
  }

  /** Between its heading and the next, an entry adds no heading the importer splits at. */
  lemma RestIsDeep(r: E.Record)
    requires BodyOk(r) && Sheltered(r)
    ensures Deep(Levels(RestLines(r), false), 2)
    ensures FenceAfter(RestLines(r), false) == !Closed(r)
  {
    RestInThree(r);
    var body, meta := WrittenLines(r), [""] + E.MetaBlock(r);
    MetaLinesAreQuiet(r);
    QuietLines(meta, FenceAfter(body, false));
    QuietLines([""], false);
    LevelsConcat(body, meta, false);
    FencedConcat(body, meta, false);
    LevelsConcat([""], body + meta, false);
    FencedConcat([""], body + meta, false);
  }

  lemma RestInThree(r: E.Record)
    requires BodyOk(r)
    ensures RestLines(r) == [""] + (WrittenLines(r) + ([""] + E.MetaBlock(r)))
  {
  }

  lemma HeadingComesBack(h: string)
    requires Trimmed(h) && h != ""
    ensures HeadingLevel("## " + h) == 2 && HeadingText("## " + h) == h && !ImportFence("## " + h)
  {
    var line := "## " + h;
    assert line[0] == '#' && line[1..] == "# " + h && line[1..][1..] == " " + h;
    assert Hashes(" " + h) == 0;
    assert Hashes(line[1..]) == 1;
    assert Hashes(line) == 2;
    assert line[2] == ' ' && line[3] == h[0];
    assert SkipRegexSpaces(line, 3) == 3;
    assert SkipRegexSpaces(line, 2) == 3;
    assert line[3..] == h;
    TrimFindsCore("", h, "");
    assert "" + h + "" == h;
    NotAFence(line);
  }

  lemma HeadingIsTrimmed(r: E.Record)
    ensures E.Heading(r.title) != "" && Trimmed(E.Heading(r.title)) && Without(E.Heading(r.title), '\n')
  {
    if TrimSpace(r.title) != "" {
      var _, _ := TrimParts(r.title);
      OneLineIsTrimmed(TrimSpace(r.title));
    }
  }

  lemma OneLineIsTrimmed(t: string)
    requires t != "" && Trimmed(t)
    ensures E.OneLine(t) != "" && Trimmed(E.OneLine(t))
  {
    assert t[0] != '\n' && t[|t| - 1] != '\n';
    assert E.OneLine(t)[0] == t[0] && E.OneLine(t)[|t| - 1] == t[|t| - 1];
  }

  lemma EntryInTwo(r: E.Record, tail: seq<string>)
    ensures E.EntryLines(r) + tail == ["## " + E.Heading(r.title)] + (RestLines(r) + tail)
  {
    EntrySplits(r);
    Reassociate(["## " + E.Heading(r.title)], RestLines(r), tail);
  }

  lemma Reassociate(a: seq<string>, b: seq<string>, c: seq<string>)
    ensures a + b + c == a + (b + c)
  {
  }

  lemma TitleStarts(h: string, lines: seq<string>)
    requires Trimmed(h) && h != ""
    ensures Levels(["## " + h] + lines, false) == [2] + Levels(lines, false)
  {
    HeadingComesBack(h);
    LevelsCons("## " + h, lines, false);
  }

  /** Every entry starts with a heading of the level the document is split at. */
  lemma EntryStarts(r: E.Record, tail: seq<string>)
    ensures Levels(E.EntryLines(r) + tail, false) == [2] + Levels(RestLines(r) + tail, false)
  {
    HeadingIsTrimmed(r);
    EntryInTwo(r, tail);
    TitleStarts(E.Heading(r.title), RestLines(r) + tail);
  }

  // ----- folding lines into sections

  /** Lines that do not split are collected into the current section. */
  lemma {:induction false} CollectLines(lines: seq<string>, levels: seq<nat>, tail: seq<string>, tailLevels: seq<nat>,
                                        split: nat, title: string, acc: string)
    requires |lines| == |levels| && |tail| == |tailLevels| && Deep(levels, split)
    ensures Sections(lines + tail, levels + tailLevels, split, Some(Section(title, acc)))
            == Sections(tail, tailLevels, split, Some(Section(title, acc + Unlines(lines))))
  {
    if lines == [] {
      assert lines + tail == tail && levels + tailLevels == tailLevels && acc + "" == acc;
    } else {
      assert (lines + tail)[1..] == lines[1..] + tail;
      assert (levels + tailLevels)[1..] == levels[1..] + tailLevels;
      CollectLines(lines[1..], levels[1..], tail, tailLevels, split, title, acc + lines[0] + "\n");
      assert acc + lines[0] + "\n" + Unlines(lines[1..]) == acc + Unlines(lines);
    }
  }

  function SectionOf(r: E.Record): seq<Section> {
    Flush(Some(Section(E.Heading(r.title), Unlines(RestLines(r)))))
  }

  function SectionsOf(records: seq<E.Record>): seq<Section> {
    if records == [] then [] else SectionOf(records[0]) + SectionsOf(records[1..])
  }

  lemma TrailingNewlineIsTrimmed(s: string)
    ensures TrimSpace(s + "\n") == TrimSpace(s)
    ensures forall title :: Flush(Some(Section(title, s + "\n"))) == Flush(Some(Section(title, s)))
  {
    var pre, post := TrimParts(s);
    var core := TrimSpace(s);
    if core != "" {
      TrimFindsCore(pre, core, post + "\n");
      assert s + "\n" == pre + core + (post + "\n");
    } else {
      assert s + "\n" == (pre + post + "\n") + "";
      TrimLeftSkips(pre + post + "\n", "");
    }
  }

  lemma SplitsHere(line: string, level: nat, lines: seq<string>, levels: seq<nat>, split: nat, cur: Option<Section>)
    requires |lines| == |levels| && 0 < level <= split
    ensures Sections([line] + lines, [level] + levels, split, cur)
            == Flush(cur) + Sections(lines, levels, split, Some(Section(HeadingText(line), "")))
  {
    assert ([line] + lines)[1..] == lines && ([level] + levels)[1..] == levels;
  }

  /** A heading closes the section before it, and the lines up to the next heading are its own. */
  lemma HeadingThenLines(head: string, lines: seq<string>, tail: seq<string>, split: nat, cur: Option<Section>)
    requires !ImportFence(head) && 0 < HeadingLevel(head) <= split
    requires !FenceAfter(lines, false) && Deep(Levels(lines, false), split)
    ensures Levels([head] + lines + tail, false) == [HeadingLevel(head)] + (Levels(lines, false) + Levels(tail, false))
    ensures Sections([head] + lines + tail, Levels([head] + lines + tail, false), split, cur)
            == Flush(cur) + Sections(tail, Levels(tail, false), split, Some(Section(HeadingText(head), Unlines(lines))))
  {
    LevelsConcat(lines, tail, false);
    LevelsCons(head, lines + tail, false);
    assert [head] + lines + tail == [head] + (lines + tail);
    CollectLines(lines, Levels(lines, false), tail, Levels(tail, false), split, HeadingText(head), "");
    SplitsHere(head, HeadingLevel(head), lines + tail, Levels(lines, false) + Levels(tail, false), split, cur);
    assert "" + Unlines(lines) == Unlines(lines);
  }

  /** A heading starts a section that takes in what follows it. */
  lemma EntryOpens(r: E.Record, tail: seq<string>, cur: Option<Section>)
    ensures Sections(E.EntryLines(r) + tail, Levels(E.EntryLines(r) + tail, false), 2, cur)
            == Flush(cur) + Sections(RestLines(r) + tail, Levels(RestLines(r) + tail, false), 2,
                Some(Section(E.Heading(r.title), "")))
  {
    HeadingIsTrimmed(r);
    EntryInTwo(r, tail);
    TitleOpens(E.Heading(r.title), RestLines(r) + tail, cur);
  }

  lemma TitleOpens(h: string, lines: seq<string>, cur: Option<Section>)
    requires Trimmed(h) && h != ""
    ensures Sections(["## " + h] + lines, Levels(["## " + h] + lines, false), 2, cur)
            == Flush(cur) + Sections(lines, Levels(lines, false), 2, Some(Section(h, "")))
  {
    TitleStarts(h, lines);
    HeadingComesBack(h);
    SplitsHere("## " + h, 2, lines, Levels(lines, false), 2, cur);
  }

  lemma EntryThenTail(r: E.Record, tail: seq<string>, cur: Option<Section>)
    requires Importable(r) && Sheltered(r) && Closed(r)
    ensures Sections(E.EntryLines(r) + tail, Levels(E.EntryLines(r) + tail, false), 2, cur)
            == Flush(cur) + Sections(tail, Levels(tail, false), 2,
                Some(Section(E.Heading(r.title), Unlines(RestLines(r)))))
  {
    EntryOpens(r, tail, cur);
    RestIsDeep(r);
    LevelsConcat(RestLines(r), tail, false);
    CollectLines(RestLines(r), Levels(RestLines(r), false), tail, Levels(tail, false), 2, E.Heading(r.title), "");
    assert "" + Unlines(RestLines(r)) == Unlines(RestLines(r));
  }

  /** The last entry may leave a fence open. */
  lemma LastEntry(r: E.Record, cur: Option<Section>)
    requires Importable(r) && Sheltered(r)
    ensures Sections(E.EntryLines(r) + [""], Levels(E.EntryLines(r) + [""], false), 2, cur) == Flush(cur) + SectionOf(r)
  {
    var rest, inFence := RestLines(r), !Closed(r);
    EntryOpens(r, [""], cur);
    RestIsDeep(r);
    QuietLines([""], inFence);
    LevelsConcat(rest, [""], false);
    CollectLines(rest, Levels(rest, false), [""], Levels([""], inFence), 2, E.Heading(r.title), "");
    assert "" + Unlines(rest) == Unlines(rest);
    OneBlankLine(Levels([""], inFence), 2, E.Heading(r.title), Unlines(rest));
  }

  lemma OneBlankLine(levels: seq<nat>, split: nat, title: string, acc: string)
    requires |levels| == 1 && levels[0] == 0
    ensures Sections([""], levels, split, Some(Section(title, acc))) == Flush(Some(Section(title, acc)))
  {
    assert [""][1..] == [] && levels[1..] == [];
    assert acc + "" + "\n" == acc + "\n";
    TrailingNewlineIsTrimmed(acc);
  }

  lemma {:induction false} EntriesBecomeSections(records: seq<E.Record>, title: string, acc: string)
    requires (forall r :: r in records ==> Importable(r)) && KeptApart(records)
    ensures Sections(E.EntriesLines(records) + [""], Levels(E.EntriesLines(records) + [""], false), 2,
        Some(Section(title, acc)))
            == Flush(Some(Section(title, acc))) + SectionsOf(records)
  {
    if records == [] {
      assert [] + [""] == [""];
      QuietLines([""], false);
      OneBlankLine(Levels([""], false), 2, title, acc);
    } else {
      var r, rest := records[0], E.EntriesLines(records[1..]);
      assert E.EntriesLines(records) + [""] == E.EntryLines(r) + (rest + [""]);
      if |records| == 1 {
        assert rest + [""] == [""];
        LastEntry(r, Some(Section(title, acc)));
        assert SectionsOf(records) == SectionOf(r) + [];
      } else {
        EntryThenTail(r, rest + [""], Some(Section(title, acc)));
        EntriesBecomeSections(records[1..], E.Heading(r.title), Unlines(RestLines(r)));
      }
    }
  }
}
