// Where the exporter and the importer disagree about fences. The exporter trims Unicode white space before
// it looks for a mark, the importer's pattern skips ASCII white space, so every fence of the importer is one
// of the exporter, and not the other way round. A record that shows it is built here, with what is needed
// to export and import it.
module MarkdownFences {
  import opened Strings
  import E = MarkdownExport
  import opened MarkdownImport
  import opened MarkdownSections
  import opened MarkdownBanner
  import opened MarkdownEntry
  import opened MarkdownSpill
  import opened MarkdownDocument

  lemma {:induction false} RegexSpacesAreSpaces(s: string, from: nat)
    requires from <= |s|
    ensures AllSpace(s[from..SkipRegexSpaces(s, from)])
    decreases |s| - from
  {
    if from < |s| && IsRegexSpace(s[from]) {
      RegexSpacesAreSpaces(s, from + 1);
    }
  }

  /** White space before a text that starts with three marks does not hide them from `TrimSpace`. */
  lemma TrimFindsMarks(pre: string, rest: string)
    requires AllSpace(pre) && |rest| >= 3 && !IsSpace(rest[0]) && !IsSpace(rest[2])
    ensures rest[..3] <= TrimSpace(pre + rest)
  {
    TrimLeftSkips(pre, rest);
    TrimRightKeepsUpTo(rest, 3);
    assert TrimLeft(rest) == rest;
    assert TrimSpace(pre + rest)[..3] == rest[..3];
  }

  /** What the importer takes for a fence, the exporter does too. */
  lemma ImportFencesAreExportFences(line: string)
    requires ImportFence(line)
    ensures E.ExportFence(line)
  {
    var k := SkipRegexSpaces(line, 0);
    RegexSpacesAreSpaces(line, 0);
    var rest := line[k..];
    var mark := if At(line, k, "```") then "```" else "~~~";
    assert rest[..3] == line[k..k + 3] == mark;
    assert rest[0] == mark[0] && rest[2] == mark[2];
    assert line == line[0..k] + rest;
    TrimFindsMarks(line[0..k], rest);
  }

  lemma DemotedCons(line: string, lines: seq<string>, inFence: bool)
    ensures
      var next := if E.ExportFence(line) then !inFence else inFence;
      && E.Fences([line] + lines, inFence) == E.Fences(lines, next)
      && E.Demoted([line] + lines, inFence)
         == [if E.ExportFence(line) || inFence then line else E.DemotedLine(line)] + E.Demoted(lines, next)
  {
    assert ([line] + lines)[1..] == lines;
  }

  /** A record whose body fences a heading off with lines that start with a no-break space. */
  function HiddenFence(text: string): E.Record {
    E.Record("", "fact", "Example", Join(["see", "\U{A0}```", "# " + text, "\U{A0}```"], '\n'), ["a.go"], "team", "",
        "")
  }

  lemma HiddenFenceLines(text: string)
    requires Without(text, '\n')
    ensures E.ExportedBody(HiddenFence(text)) == HiddenFence(text).body
    ensures Split(HiddenFence(text).body, '\n') == ["see"] + (["\U{A0}```"] + (["# " + text] + ["\U{A0}```"]))
  {
    var lines, body := ["see", "\U{A0}```", "# " + text, "\U{A0}```"], HiddenFence(text).body;
    SplitJoin(lines, '\n');
    JoinedEnds(lines);
    TrimKeeps(body);
    TrimKeeps("Example");
  }

  lemma JoinedEnds(lines: seq<string>)
    requires |lines| == 4 && lines[0] == "see" && lines[3] == "\U{A0}```"
    ensures var s := Join(lines, '\n'); s != "" && s[0] == 's' && s[|s| - 1] == '`'
  {
    assert lines[1..][1..][1..] == [lines[3]];
    assert Join(lines[1..][1..], '\n') == lines[2] + "\n" + lines[3];
  }

  /** White space that `TrimSpace` trims and `\s` does not hides a fence from the importer. */
  lemma FenceIsHidden()
    ensures E.ExportFence("\U{A0}```") && !ImportFence("\U{A0}```") && HeadingLevel("\U{A0}```") == 0
  {
    var fence := "\U{A0}```";
    TrimFindsCore("\U{A0}", "```", "");
    assert "\U{A0}" + "```" + "" == fence;
    assert SkipRegexSpaces(fence, 0) == 0;
    Mismatch(fence, 0, "```", 0);
    Mismatch(fence, 0, "~~~", 0);
  }

  lemma HiddenFenceIsWritten(text: string)
    requires Without(text, '\n')
    ensures WrittenLines(HiddenFence(text)) == ["see"] + (["\U{A0}```"] + (["# " + text] + ["\U{A0}```"]))
  {
    var fence, heading := "\U{A0}```", "# " + text;
    HiddenFenceLines(text);
    HiddenFenceTests(text);
    DemotedCons("see", [fence] + ([heading] + [fence]), false);
    DemotedCons(fence, [heading] + [fence], false);
    DemotedCons(heading, [fence], true);
    DemotedCons(fence, [], true);
    assert [fence] + [] == [fence];
  }

  lemma HiddenFenceIsExportable(text: string)
    requires Without(text, '\n') && !Contains("# " + text, OPEN)
    ensures Exportable(HiddenFence(text)) && HeadingOk(HiddenFence(text))
  {
    HiddenFenceTitle(text);
    HiddenFenceMeta(text);
    HiddenFenceBody(text);
  }

  lemma HiddenFenceTitle(text: string)
    ensures TitleOk(HiddenFence(text)) && HeadingOk(HiddenFence(text))
  {
    TrimKeeps("Example");
    ExampleIsShort();
    assert E.Heading(HiddenFence(text).title) == "Example";
    WithoutFirstChar("## Example", OPEN);
    WithoutMarkIsHarmless("## Example");
  }

  lemma ExampleIsShort()
    ensures Collapse("Example", 200) == "Example"
  {
    TrimKeeps("Example");
    BytesAreFew("Example");
  }

  lemma {:induction false} BytesAreFew(s: string)
    ensures ByteLength(s) <= 4 * |s|
  {
    if s != "" {
      BytesAreFew(s[..|s| - 1]);
    }
  }

  lemma HiddenFenceMeta(text: string)
    ensures MetaOk(HiddenFence(text))
  {
    PlainIsSafe("a.go");
    PlainIsSafe("");
    assert Join(HiddenFence(text).files, ',') == "a.go";
    assert PathOk("a.go");
  }

  lemma HiddenFenceBody(text: string)
    requires Without(text, '\n') && !Contains("# " + text, OPEN)
    ensures BodyOk(HiddenFence(text))
  {
    HiddenFenceLines(text);
    WithoutFirstChar("see", OPEN);
    WithoutFirstChar("\U{A0}```", OPEN);
    LinesLack(["see", "\U{A0}```", "# " + text, "\U{A0}```"], OPEN);
  }

  lemma HiddenFenceIsNotSheltered(text: string)
    requires Without(text, '\n')
    ensures !Sheltered(HiddenFence(text))
  {
    var fence, heading := "\U{A0}```", "# " + text;
    HiddenFenceIsWritten(text);
    FenceIsHidden();
    ProjectHeading(text);
    QuietLine("see");
    LevelsCons("see", [fence] + ([heading] + [fence]), false);
    LevelsCons(fence, [heading] + [fence], false);
    LevelsCons(heading, [fence], false);
    assert Levels(WrittenLines(HiddenFence(text)), false)[2] == 1;
  }

  lemma HiddenFenceEnds(text: string)
    requires Without(text, '\n')
    ensures !E.Fences(Split(E.ExportedBody(HiddenFence(text)), '\n'), false)
  {
    var fence, heading := "\U{A0}```", "# " + text;
    HiddenFenceLines(text);
    HiddenFenceTests(text);
    DemotedCons("see", [fence] + ([heading] + [fence]), false);
    DemotedCons(fence, [heading] + [fence], false);
    DemotedCons(heading, [fence], true);
    DemotedCons(fence, [], true);
    assert [fence] + [] == [fence];
  }

  lemma HiddenFenceTests(text: string)
    ensures !E.ExportFence("see") && !E.ExportFence("# " + text) && E.ExportFence("\U{A0}```")
  {
    FenceIsHidden();
    TrimKeeps("see");
    TrimKeepsStart("# " + text);
  }

  lemma PlainIsSafe(w: string)
    requires Without(w, '<') && Without(w, '-') && Without(w, '\n')
    ensures Safe(w)
  {
    WithoutFirstChar(w, OPEN);
    WithoutFirstChar(w, CLOSE);
    NoBannerIsFound(w, 0);
  }
}
