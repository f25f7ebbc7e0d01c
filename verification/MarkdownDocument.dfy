// A whole exported document, split again. The header and the entries are single lines, so the text falls
// into the lines it was written as; the header is a level-1 heading and lines that neither head nor fence,
// so it makes the first section, and an import drops that section for the banner it holds; the entries
// after it are split at level 2.
module MarkdownDocument {
  import opened Strings
  import E = MarkdownExport
  import opened MarkdownImport
  import opened MarkdownSections
  import opened MarkdownEntry

  lemma {:induction false} EntriesComeBack(records: seq<E.Record>, d: Defaults)
    requires forall r :: r in records ==> Exportable(r)
    ensures ImportAll(SectionsOf(records), d) == AllExpected(records, d)
  {
    if records != [] {
      EntryComesBack(records[0], d);
      EntriesComeBack(records[1..], d);
      ImportAllConcat(SectionOf(records[0]), SectionsOf(records[1..]), d);
    }
  }

  // ----- the header section

  function HeaderRest(records: seq<E.Record>, banner: E.Banner): seq<string> {
    ["", E.BannerLine(|records|, banner), ""] + E.SummaryLines(records, banner) + ["---", ""]
  }

  lemma HeaderSplits(project: string, records: seq<E.Record>, banner: E.Banner)
    ensures E.HeaderLines(project, records, banner) == ["# " + E.ProjectTitle(project)] + HeaderRest(records, banner)
  {
  }

  lemma HeaderIsQuiet(records: seq<E.Record>, banner: E.Banner)
    ensures forall i :: 0 <= i < |HeaderRest(records, banner)| ==> Quiet(HeaderRest(records, banner)[i])
  {
    var summary := E.SummaryLines(records, banner);
    assert forall i :: 0 <= i < |summary| ==> Quiet(summary[i]);
    assert Quiet(E.BannerLine(|records|, banner)) && Quiet("---");
  }

  lemma ProjectHeading(title: string)
    ensures HeadingLevel("# " + title) == 1 && !ImportFence("# " + title)
  {
    var line := "# " + title;
    assert line[0] == '#' && line[1..] == " " + title && line[1] == ' ';
    assert Hashes(" " + title) == 0;
    assert Hashes(line) == 1;
    NotAFence(line);
  }

  lemma HeaderText(line: string, summary: seq<string>)
    ensures Unlines(["", line, ""] + summary + ["---", ""])
        == "\n" + (line + "\n\n" + Unlines(summary) + "---") + "\n\n"
  {
    UnlinesConcat(["", line, ""] + summary, ["---", ""]);
    UnlinesConcat(["", line, ""], summary);
    UnlinesConcat([""], [line, ""]);
    UnlinesConcat([line], [""]);
    assert ["", line, ""] == [""] + [line, ""] && [line, ""] == [line] + [""];
    assert Unlines(["", line, ""]) == "\n" + (line + "\n\n");
    UnlinesConcat(["---"], [""]);
    assert ["---", ""] == ["---"] + [""];
    assert Unlines(["---", ""]) == "---" + "\n\n";
    Regroup4("\n", line + "\n\n", Unlines(summary), "---", "\n\n");
  }

  lemma Regroup4(a: string, b: string, c: string, d: string, e: string)
    ensures a + b + c + (d + e) == a + (b + c + d) + e
  {
  }

  lemma BannerIsFound(s: string)
    requires "<!-- dkm-export project=" <= s
    ensures HasBanner(s, 0)
  {
    var p := "<!-- dkm-export project=";
    assert forall i :: 0 <= i < 16 ==> s[i] == p[i];
    assert s[0] == '<' && s[1] == '!' && s[2] == '-' && s[3] == '-' && s[4] == ' ' && s[5] == 'd' && s[15] == ' ';
    assert s[0..4] == [s[0], s[1], s[2], s[3]] == OPEN;
    assert s[5..15] == p[5..15];
    NamePart(p[5..15]);
    assert SkipRegexSpaces(s, 5) == 5;
    assert SkipRegexSpaces(s, 4) == 5;
  }

  lemma NamePart(name: string)
    requires name == "<!-- dkm-export project="[5..15]
    ensures name == "dkm-export"
  {
  }

  lemma BannerStarts(count: nat, banner: E.Banner)
    ensures "<!-- dkm-export project=" <= E.BannerLine(count, banner)
  {
  }

  lemma BannerSectionIsDropped(title: string, line: string, tail: string, d: Defaults)
    requires "<!-- dkm-export project=" <= line
    ensures ImportAll(Flush(Some(Section(title, "\n" + (line + "\n\n" + tail + "---") + "\n\n"))), d) == []
  {
    var body := line + "\n\n" + tail + "---";
    assert "<!-- dkm-export project=" <= body;
    BannerIsFound(body);
    assert body[0] == "<!-- dkm-export project="[0] && body[|body| - 1] == '-';
    TrimFindsCore("\n", body, "\n\n");
    ImportOne(Section(title, body), d);
  }

  lemma HeaderImportsNothing(title: string, records: seq<E.Record>, banner: E.Banner, d: Defaults)
    ensures ImportAll(Flush(Some(Section(title, Unlines(HeaderRest(records, banner))))), d) == []
  {
    BannerStarts(|records|, banner);
    HeaderText(E.BannerLine(|records|, banner), E.SummaryLines(records, banner));
    BannerSectionIsDropped(title, E.BannerLine(|records|, banner), Unlines(E.SummaryLines(records, banner)), d);
  }

  // ----- the whole document

  lemma EntryIsOneLiners(r: E.Record)
    requires Importable(r)
    ensures OneLiners(E.EntryLines(r))
  {
    var lines := Split(E.ExportedBody(r), '\n');
    HeadingIsTrimmed(r);
    SplitParts(E.ExportedBody(r), '\n');
    DemotedIsOneLiners(lines, false);
    MetaIsOneLiners(r);
    assert OneLiners(E.BodyLines(r));
    assert OneLiners(E.MetaBlock(r));
    assert OneLiners(["## " + E.Heading(r.title), ""]);
  }

  lemma {:induction false} DemotedIsOneLiners(lines: seq<string>, inFence: bool)
    requires OneLiners(lines)
    ensures OneLiners(E.Demoted(lines, inFence))
  {
    if lines != [] {
      var next := if E.ExportFence(lines[0]) then !inFence else inFence;
      DemotedIsOneLiners(lines[1..], next);
      var out := if E.ExportFence(lines[0]) || inFence then lines[0] else E.DemotedLine(lines[0]);
      assert E.Demoted(lines, inFence) == [out] + E.Demoted(lines[1..], next);
    }
  }

  lemma {:induction false} EntriesAreOneLiners(records: seq<E.Record>)
    requires forall r :: r in records ==> Importable(r)
    ensures OneLiners(E.EntriesLines(records))
  {
    if records != [] {
      EntryIsOneLiners(records[0]);
      EntriesAreOneLiners(records[1..]);
    }
  }

  lemma CountsAreOneLine(records: seq<E.Record>, kind: string)
    requires Without(kind, '\n')
    ensures OneLiners(E.CountText(records, kind))
  {
  }

  lemma {:induction false} CommaJoinIsOneLine(parts: seq<string>)
    requires OneLiners(parts)
    ensures Without(E.CommaJoin(parts), '\n')
  {
    if |parts| > 1 {
      CommaJoinIsOneLine(parts[1..]);
    }
  }

  lemma SummaryIsOneLiners(records: seq<E.Record>, banner: E.Banner)
    requires Without(banner.day, '\n')
    ensures OneLiners(E.SummaryLines(records, banner))
  {
    CountsAreOneLine(records, "lesson");
    CountsAreOneLine(records, "decision");
    CountsAreOneLine(records, "preference");
    CountsAreOneLine(records, "fact");
    CommaJoinIsOneLine(E.CountText(records, "lesson") + E.CountText(records, "decision")
      + E.CountText(records, "preference") + E.CountText(records, "fact"));
  }

  lemma BannerIsOneLine(count: nat, banner: E.Banner)
    requires Without(banner.quotedProject, '\n') && Without(banner.stamp, '\n')
    ensures Without(E.BannerLine(count, banner), '\n')
  {
  }

  lemma HeaderIsOneLiners(project: string, records: seq<E.Record>, banner: E.Banner)
    requires BannerOk(project, banner)
    ensures OneLiners(E.HeaderLines(project, records, banner))
  {
    var first, line := "# " + E.ProjectTitle(project), E.BannerLine(|records|, banner);
    SummaryIsOneLiners(records, banner);
    BannerIsOneLine(|records|, banner);
    TitleIsOneLine(E.ProjectTitle(project));
    FrameIsOneLiners(first, line, E.SummaryLines(records, banner));
  }

  lemma TitleIsOneLine(title: string)
    requires Without(title, '\n')
    ensures Without("# " + title, '\n')
  {
  }

  lemma FrameIsOneLiners(first: string, line: string, summary: seq<string>)
    requires Without(first, '\n') && Without(line, '\n') && OneLiners(summary)
    ensures OneLiners([first, "", line, ""] + summary + ["---", ""])
  {
  }

  /** The first level in use is 1, and level 2 is used as soon as there is a record. */
  lemma LevelsOfDocument(levels: seq<nat>, rest: seq<nat>)
    requires levels == [1] + rest
    ensures MinLevel(levels) == 1 && SplitLevel(levels) == (if 2 in rest then 2 else 1)
  {
    assert levels[0] == 1;
    assert 2 in levels <==> 2 in rest;
  }

  lemma LevelsOfEntries(records: seq<E.Record>)
    requires forall r :: r in records ==> Importable(r)
    ensures 2 in Levels(E.EntriesLines(records) + [""], false) <==> records != []
  {
    if records == [] {
      QuietLines([""], false);
      assert [] + [""] == [""];
    } else {
      var tail := E.EntriesLines(records[1..]) + [""];
      assert records[0] in records;
      EntryStarts(records[0], tail);
      Reassociate(E.EntryLines(records[0]), E.EntriesLines(records[1..]), [""]);
      assert Levels(E.EntriesLines(records) + [""], false)[0] == 2;
    }
  }

  lemma SplitSectionsOf(doc: string, lines: seq<string>, levels: seq<nat>, split: nat)
    requires Split(doc, '\n') == lines && Levels(lines, false) == levels
    requires MinLevel(levels) != 7 && SplitLevel(levels) == split
    ensures SplitSections(doc) == Sections(lines, levels, split, None)
  {
  }

  /** A level-1 heading and quiet lines make the first section, whatever follows. */
  lemma HeaderThenSections(head: string, rest: seq<string>, tail: seq<string>, split: nat)
    requires HeadingLevel(head) == 1 && !ImportFence(head) && split >= 1
    requires forall i :: 0 <= i < |rest| ==> Quiet(rest[i])
    ensures
      var lines := [head] + rest + tail;
      Levels(lines, false) == [1] + (Levels(rest, false) + Levels(tail, false))
      && Sections(lines, Levels(lines, false), split, None)
         == Sections(tail, Levels(tail, false), split, Some(Section(HeadingText(head), Unlines(rest))))
  {
    QuietLines(rest, false);
    HeadingThenLines(head, rest, tail, split, None);
    assert Flush(None) == [];
  }

  lemma SplitsAtTwo(head: string, rest: seq<string>, records: seq<E.Record>)
    requires HeadingLevel(head) == 1 && !ImportFence(head)
    requires (forall i :: 0 <= i < |rest| ==> Quiet(rest[i])) && forall r :: r in records ==> Importable(r)
    ensures
      var levels := Levels([head] + rest + (E.EntriesLines(records) + [""]), false);
      MinLevel(levels) == 1 && SplitLevel(levels) == if records == [] then 1 else 2
  {
    var tail := E.EntriesLines(records) + [""];
    HeaderThenSections(head, rest, tail, 1);
    QuietLines(rest, false);
    LevelsOfEntries(records);
    LevelsOfDocument(Levels([head] + rest + tail, false), Levels(rest, false) + Levels(tail, false));
  }

  lemma DocumentInLines(lines: seq<string>, records: seq<E.Record>)
    requires OneLiners(lines) && forall r :: r in records ==> Importable(r)
    ensures Split(Unlines(lines + E.EntriesLines(records)), '\n') == lines + (E.EntriesLines(records) + [""])
  {
    EntriesAreOneLiners(records);
    SplitUnlines(lines + E.EntriesLines(records));
    Reassociate(lines, E.EntriesLines(records), [""]);
  }

  /** A level-1 heading, quiet lines, then entries: the first section is the header, and the rest splits at level 2. */
  lemma HeaderSection(head: string, rest: seq<string>, records: seq<E.Record>)
    requires OneLiners([head] + rest) && HeadingLevel(head) == 1 && !ImportFence(head)
    requires forall i :: 0 <= i < |rest| ==> Quiet(rest[i])
    requires forall r :: r in records ==> Importable(r)
    ensures
      var lines := E.EntriesLines(records) + [""];
      SplitSections(Unlines([head] + rest + E.EntriesLines(records)))
      == Sections(lines, Levels(lines, false), if records == [] then 1 else 2,
          Some(Section(HeadingText(head), Unlines(rest))))
  {
    var tail, split := E.EntriesLines(records) + [""], if records == [] then 1 else 2;
    var lines := [head] + rest + tail;
    DocumentInLines([head] + rest, records);
    SplitsAtTwo(head, rest, records);
    HeaderThenSections(head, rest, tail, split);
    SplitSectionsOf(Unlines([head] + rest + E.EntriesLines(records)), lines, Levels(lines, false), split);
  }

  function HeaderRestOf(records: seq<E.Record>, banner: E.Banner): string {
    Unlines(HeaderRest(records, banner))
  }

  /** What scanning a rendered document starts with. */
  lemma DocumentSections(project: string, records: seq<E.Record>, banner: E.Banner)
    requires BannerOk(project, banner) && forall r :: r in records ==> Importable(r)
    ensures
      var lines := E.EntriesLines(records) + [""];
      SplitSections(Unlines(E.HeaderLines(project, records, banner) + E.EntriesLines(records)))
      == Sections(lines, Levels(lines, false), if records == [] then 1 else 2,
                  Some(Section(HeadingText("# " + E.ProjectTitle(project)), HeaderRestOf(records, banner))))
  {
    HeaderSplits(project, records, banner);
    HeaderIsOneLiners(project, records, banner);
    ProjectHeading(E.ProjectTitle(project));
    HeaderIsQuiet(records, banner);
    HeaderSection("# " + E.ProjectTitle(project), HeaderRest(records, banner), records);
  }

  lemma SectionsOfEntries(records: seq<E.Record>, title: string, acc: string)
    requires (forall r :: r in records ==> Importable(r)) && KeptApart(records)
    ensures
      var split := if records == [] then 1 else 2;
      Sections(E.EntriesLines(records) + [""], Levels(E.EntriesLines(records) + [""], false), split,
          Some(Section(title, acc)))
      == Flush(Some(Section(title, acc))) + SectionsOf(records)
  {
    if records == [] {
      QuietLines([""], false);
      assert [] + [""] == [""];
      OneBlankLine(Levels([""], false), 1, title, acc);
    } else {
      EntriesBecomeSections(records, title, acc);
    }
  }
}
