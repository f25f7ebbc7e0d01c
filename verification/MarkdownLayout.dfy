// What an exported document looks like, spelled out.
module MarkdownLayout {
  import opened Strings
  import opened TextOrder
  import opened MarkdownExport
  import opened MarkdownSections
  import opened MarkdownSpill
  import opened MarkdownNotes

  // ----- order

  predicate Kind(kind: string) {
    kind == "lesson" || kind == "decision" || kind == "preference" || kind == "fact"
  }

  ghost predicate KindBefore(a: string, b: string) {
    || (a == "lesson" && b != "lesson")
    || (a == "decision" && (b == "preference" || b == "fact"))
    || (a == "preference" && b == "fact")
  }

  /** Lessons come first, then decisions, preferences and facts, and of one kind the newest. */
  lemma PrecedesExactlyWhen(a: Record, b: Record)
    requires Kind(a.kind) && Kind(b.kind)
    ensures Precedes(a, b) <==> KindBefore(a.kind, b.kind) || (a.kind == b.kind && Less(b.createdAt, a.createdAt))
  {
  }

  // ----- fences and headings of a body

  /** A fence is three backticks or three tildes after any white space. */
  lemma ExportFenceExactlyWhen(line: string)
    ensures ExportFence(line)
        <==> exists k :: 0 <= k <= |line| && AllSpace(line[..k]) && (At(line, k, "```") || At(line, k, "~~~"))
  {
    var pre, post := TrimParts(line);
    var t := TrimSpace(line);
    if ExportFence(line) {
      var k := |pre|;
      assert line[..k] == pre;
      assert line[k..k + 3] == t[..3];
    }
    if k :| 0 <= k <= |line| && AllSpace(line[..k]) && (At(line, k, "```") || At(line, k, "~~~")) {
      MarkSurvives(line, k, if At(line, k, "```") then "```" else "~~~");
    }
  }

  lemma MarkSurvives(line: string, k: nat, mark: string)
    requires k <= |line| && AllSpace(line[..k]) && At(line, k, mark)
    requires |mark| == 3 && !IsSpace(mark[0]) && !IsSpace(mark[2])
    ensures mark <= TrimSpace(line)
  {
    var rest := line[k..];
    assert line == line[..k] + rest && rest[..3] == line[k..k + 3] == mark;
    assert rest[0] == mark[0] && rest[2] == mark[2];
    TrimLeftSkips(line[..k], rest);
    TrimRightKeepsUpTo(rest, 3);
    assert TrimLeft(rest) == rest;
  }

  /** A heading is written two levels down. */
  lemma DemotedTwoLevels(line: string, n: nat)
    requires HeadingOf(line, n) && n <= 4
    ensures HeadingOf(DemotedLine(line), n + 2)
  {
    assert line[0] == '#' && line[..1] == "#";
    var out := "##" + line;
    assert forall i :: 2 <= i < |out| ==> out[i] == line[i - 2];
  }

  /** Whatever follows a number sign, two more go before it, and every other line stays. */
  lemma SignsAreDoubled(line: string)
    ensures line != "" && line[0] == '#' ==> |DemotedLine(line)| == |line| + 2 && DemotedLine(line)[2..] == line
    ensures line == "" || line[0] != '#' ==> DemotedLine(line) == line
  {
    assert line != "" && line[0] == '#' ==> line[..1] == "#";
  }

  // ----- the document

  /** With every kind there, the header counts them in order, and one in the singular. */
  lemma HeaderReads(project: string, records: seq<Record>, banner: Banner, decisions: string, facts: string)
    requires project != "" && Count(records, "lesson") == 1 && Count(records, "preference") == 1
    requires Count(records, "decision") > 1 && decisions == Itoa(Count(records, "decision"))
    requires Count(records, "fact") > 1 && facts == Itoa(Count(records, "fact"))
    ensures HeaderLines(project, records, banner) == [
              "# " + project,
              "",
              "<!-- dkm-export project=" + banner.quotedProject + " count=" + Itoa(|records|) + " exported="
                  + banner.stamp
              + " -->",
              "",
              "*1 lesson, " + (decisions + " decisions, 1 preference, ") + (facts + " facts. Exported ")
              + (banner.day + ".*"),
              "",
              "---",
              ""]
  {
    CountsRead(records, decisions, facts);
    SummaryReads(decisions, facts, banner.day);
    var line := "*1 lesson, " + (decisions + " decisions, 1 preference, ") + (facts + " facts. Exported ")
      + (banner.day + ".*");
    SummaryIs(records, banner, "1 lesson", decisions + " decisions", "1 preference", facts + " facts", line);
    HeaderAround(project, records, banner, line);
  }

  lemma CountsRead(records: seq<Record>, decisions: string, facts: string)
    requires Count(records, "lesson") == 1 && Count(records, "preference") == 1
    requires Count(records, "decision") > 1 && decisions == Itoa(Count(records, "decision"))
    requires Count(records, "fact") > 1 && facts == Itoa(Count(records, "fact"))
    ensures CountText(records, "lesson") == ["1 lesson"] && CountText(records, "preference") == ["1 preference"]
    ensures CountText(records, "decision") == [decisions + " decisions"]
    ensures CountText(records, "fact") == [facts + " facts"]
  {
    OneReads(records, "lesson", "1 lesson");
    OneReads(records, "preference", "1 preference");
    MoreRead(records, "decision", decisions + " decisions");
    MoreRead(records, "fact", facts + " facts");
  }

  lemma SummaryIs(records: seq<Record>, banner: Banner, a: string, b: string, c: string, d: string, line: string)
    requires CountText(records, "lesson") == [a] && CountText(records, "decision") == [b]
    requires CountText(records, "preference") == [c] && CountText(records, "fact") == [d]
    requires line == "*" + (a + ", " + (b + ", " + (c + ", " + d))) + ". Exported " + banner.day + ".*"
    ensures SummaryLines(records, banner) == [line, ""]
  {
    CommasBetween(a, b, c, d);
  }

  lemma HeaderAround(project: string, records: seq<Record>, banner: Banner, line: string)
    requires project != "" && SummaryLines(records, banner) == [line, ""]
    ensures HeaderLines(project, records, banner) == [
              "# " + project,
              "",
              "<!-- dkm-export project=" + banner.quotedProject + " count=" + Itoa(|records|) + " exported="
                  + banner.stamp
              + " -->",
              "",
              line,
              "",
              "---",
              ""]
  {
    LinesAround("# " + project, BannerLine(|records|, banner), line, "---");
  }

  lemma LinesAround(title: string, banner: string, line: string, rule: string)
    ensures [title, "", banner, ""] + [line, ""] + [rule, ""] == [title, "", banner, "", line, "", rule, ""]
  {
  }

  /** A kind is counted once for each record of it. */
  lemma {:induction false} KindsAreCounted(records: seq<Record>, kind: string)
    ensures Count(records, kind) == |OfKind(records, kind)|
  {
    if records == [] {
      assert OfKind(records, kind) == {};
    } else {
      var n := |records| - 1;
      KindsAreCounted(records[..n], kind);
      CountSnoc(records[..n], records[n]);
      assert records[..n] + [records[n]] == records;
      OneMoreOfKind(records, kind);
    }
  }

  lemma OneMoreOfKind(records: seq<Record>, kind: string)
    requires records != []
    ensures var n := |records| - 1;
      && n !in OfKind(records[..n], kind)
      && OfKind(records, kind) == OfKind(records[..n], kind) + if records[n].kind == kind then {n} else {}
  {
  }

  /** And left out when there is none. */
  lemma NoneIsNotWritten(records: seq<Record>, kind: string)
    requires forall r :: r in records ==> r.kind != kind
    ensures CountText(records, kind) == []
  {
    KindsAreCounted(records, kind);
    assert OfKind(records, kind) == {};
  }

  /** Without a record of any kind there is no line of counts. */
  lemma NoSummaryIsWritten(records: seq<Record>, banner: Banner)
    requires forall r :: r in records ==> !Kind(r.kind)
    ensures SummaryLines(records, banner) == []
  {
    NoneIsNotWritten(records, "lesson");
    NoneIsNotWritten(records, "decision");
    NoneIsNotWritten(records, "preference");
    NoneIsNotWritten(records, "fact");
  }

  /** And without a field no comment. */
  lemma NoMetaIsWritten(r: Record)
    requires r.kind == "" && r.visibility == "" && r.files == [] && r.source == "" && r.id == ""
    ensures MetaBlock(r) == []
  {
  }

  function OfKind(records: seq<Record>, kind: string): set<nat> {
    set i: nat | i < |records| && records[i].kind == kind
  }

  lemma OneReads(records: seq<Record>, kind: string, text: string)
    requires Count(records, kind) == 1 && text == "1 " + kind
    ensures CountText(records, kind) == [text]
  {
    assert Itoa(1) == "1";
    assert "1" + " " + kind + "" == "1 " + kind;
  }

  lemma MoreRead(records: seq<Record>, kind: string, text: string)
    requires Count(records, kind) > 1 && text == Itoa(Count(records, kind)) + (" " + kind + "s")
    ensures CountText(records, kind) == [text]
  {
    var n := Itoa(Count(records, kind));
    assert n + " " + kind + "s" == n + (" " + kind + "s");
  }

  lemma CommasBetween(a: string, b: string, c: string, d: string)
    ensures CommaJoin([a] + [b] + [c] + [d]) == a + ", " + (b + ", " + (c + ", " + d))
  {
    assert [a] + [b] + [c] + [d] == [a, b, c, d];
    assert [a, b, c, d][1..] == [b, c, d] && [b, c, d][1..] == [c, d] && [c, d][1..] == [d];
    assert CommaJoin([c, d]) == c + ", " + d;
    assert CommaJoin([b, c, d]) == b + ", " + CommaJoin([c, d]);
  }

  lemma SummaryReads(decisions: string, facts: string, day: string)
    ensures "*" + ("1 lesson" + ", " + (decisions + " decisions" + ", " + ("1 preference" + ", " + (facts + " facts"))))
              + ". Exported " + day + ".*"
         == "*1 lesson, " + (decisions + " decisions, 1 preference, ") + (facts + " facts. Exported ") + (day + ".*")
  {
    Woven("*", "1 lesson", ", ", decisions, " decisions", "1 preference", facts + " facts", ". Exported ", day + ".*");
    assert "*" + "1 lesson" + ", " == "*1 lesson, ";
    assert " decisions" + ", " + "1 preference" + ", " == " decisions, 1 preference, ";
    assert " facts" + ". Exported " == " facts. Exported ";
    assert facts + " facts" + ". Exported " == facts + (" facts" + ". Exported ");
  }

  lemma Woven(a: string, b: string, comma: string, c: string, d: string, e: string, f: string, g: string, h: string)
    ensures a + (b + comma + (c + d + comma + (e + comma + f))) + g + h
         == (a + b + comma) + (c + (d + comma + e + comma)) + (f + g) + h
  {
  }

  lemma StartsWithTitle(title: string, banner: string, summary: seq<string>, rule: string)
    ensures ([title, "", banner, ""] + summary + [rule, ""])[0] == title
  {
  }

  lemma NoProjectReads(records: seq<Record>, banner: Banner)
    ensures HeaderLines("", records, banner)[0] == "# Team-wide memories"
  {
    assert "# " + "Team-wide memories" == "# Team-wide memories";
    StartsWithTitle("# " + ProjectTitle(""), BannerLine(|records|, banner), SummaryLines(records, banner), "---");
  }

  /** With every field there and a body of one plain line, an entry reads like this. */
  lemma EntryReads(r: Record, title: string, body: string)
    requires r.kind != "" && r.visibility != "" && r.files != [] && r.source != "" && r.id != ""
    requires TrimSpace(r.title) == title != "" && Without(title, '\n')
    requires TrimSpace(r.body) == body != "" && body != title && Without(body, '\n')
    requires body[0] != '#' && body[0] != '`' && body[0] != '~'
    ensures EntryLines(r) == [
              "## " + title,
              "",
              body,
              "",
              "<!-- dkm",
              "kind=" + r.kind,
              "visibility=" + r.visibility,
              "files=" + Join(r.files, ','),
              "source=" + r.source,
              "id=" + r.id,
              "-->",
              ""]
  {
    assert OneLine(title) == title;
    OneLineBody(body);
    var _, _ := TrimParts(r.body);
    PlainLineStays(body);
    assert BodyLines(r) == [body, ""];
    MetaReads(r);
  }

  lemma MetaReads(r: Record)
    requires r.kind != "" && r.visibility != "" && r.files != [] && r.source != "" && r.id != ""
    ensures MetaBlock(r) == ["<!-- dkm", "kind=" + r.kind, "visibility=" + r.visibility, "files=" + Join(r.files, ','),
        "source=" + r.source, "id=" + r.id, "-->", ""]
  {
  }

  lemma OneLineBody(body: string)
    requires Without(body, '\n')
    ensures Split(body, '\n') == [body]
  {
    SplitPrefix(body, "", '\n');
    assert body + "" == body;
  }

  lemma PlainLineStays(body: string)
    requires body != "" && Trimmed(body) && body[0] != '#' && body[0] != '`' && body[0] != '~'
    ensures Demoted([body], false) == [body]
  {
    TrimFindsCore("", body, "");
    assert "" + body + "" == body;
    assert [body][1..] == [];
  }

  lemma StartsWithHeading(heading: string, body: seq<string>, meta: seq<string>)
    ensures ([heading, ""] + body + meta)[..2] == [heading, ""]
  {
  }

  /** A record without a title is named so, and a body that repeats its title is left out. */
  lemma UntitledReads(r: Record)
    requires TrimSpace(r.title) == ""
    ensures EntryLines(r)[..2] == ["## (untitled)", ""]
  {
    assert "## " + "(untitled)" == "## (untitled)";
    StartsWithHeading("## " + Heading(r.title), BodyLines(r), MetaBlock(r));
  }

  lemma RepeatedTitleReads(r: Record)
    requires TrimSpace(r.body) == TrimSpace(r.title)
    ensures BodyLines(r) == []
  {
  }
}
