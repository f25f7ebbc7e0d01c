// Rendering a project's memories as a document. The specification is a list of lines for the header
// and for each entry; the methods append text as the program does and are proved to produce exactly
// those lines. Demoting the headings of a body happens in place, on an array of its lines.
module MarkdownExport {
  import opened Strings
  import opened TextOrder

  datatype Record = Record(id: string, kind: string, title: string, body: string, files: seq<string>,
                           visibility: string, source: string, createdAt: string)

  /** Texts the renderer gets from the clock and from quoting the project name. */
  datatype Banner = Banner(quotedProject: string, stamp: string, day: string)

  // ----- order

  function KindOrder(kind: string): nat {
    if kind == "decision" then 1 else if kind == "preference" then 2 else if kind == "fact" then 3 else 0
  }

  /** By kind, newest first within a kind. */
  predicate Precedes(a: Record, b: Record) {
    KindOrder(a.kind) < KindOrder(b.kind) || (KindOrder(a.kind) == KindOrder(b.kind) && Less(b.createdAt, a.createdAt))
  }

  /** A stable sort: a record goes before the first one it does not have to follow. */
  function Sorted(records: seq<Record>): (s: seq<Record>)
    ensures multiset(s) == multiset(records)
  {
    if records == [] then []
    else
      assert records == [records[0]] + records[1..];
      Placed(records[0], Sorted(records[1..]))
  }

  function Placed(r: Record, s: seq<Record>): (t: seq<Record>)
    ensures multiset(t) == multiset(s) + multiset{r}
  {
    if s == [] || !Precedes(s[0], r) then [r] + s
    else
      assert s == [s[0]] + s[1..];
      [s[0]] + Placed(r, s[1..])
  }

  ghost predicate InOrder(s: seq<Record>) {
    forall i, j :: 0 <= i < j < |s| ==> !Precedes(s[j], s[i])
  }

  /** Not coming before is transitive. */
  lemma PrecedesOrders(a: Record, b: Record, c: Record)
    ensures Precedes(a, b) ==> !Precedes(b, a)
    ensures !Precedes(b, a) && !Precedes(c, b) ==> !Precedes(c, a)
  {
    LessIsTotal(a.createdAt, b.createdAt);
    LessIsTotal(b.createdAt, c.createdAt);
    LessIsTotal(a.createdAt, c.createdAt);
    if Less(c.createdAt, b.createdAt) && Less(b.createdAt, a.createdAt) {
      LessIsTransitive(c.createdAt, b.createdAt, a.createdAt);
    }
  }

  lemma {:induction false} PlacedInOrder(r: Record, s: seq<Record>)
    requires InOrder(s)
    ensures InOrder(Placed(r, s))
  {
    if s == [] {
    } else if !Precedes(s[0], r) {
      forall j | 0 <= j < |s| ensures !Precedes(s[j], r) {
        PrecedesOrders(r, s[0], s[j]);
      }
    } else {
      PlacedInOrder(r, s[1..]);
      var t := Placed(r, s[1..]);
      forall j | 0 <= j < |t| ensures !Precedes(t[j], s[0]) {
        assert t[j] in multiset(t);
        if t[j] != r {
          assert t[j] in s[1..];
          var k :| 0 <= k < |s[1..]| && s[1..][k] == t[j];
        } else {
          PrecedesOrders(s[0], r, r);
        }
      }
    }
  }

  lemma {:induction false} SortedInOrder(records: seq<Record>)
    ensures InOrder(Sorted(records))
  {
    if records != [] {
      SortedInOrder(records[1..]);
      PlacedInOrder(records[0], Sorted(records[1..]));
    }
  }

  function IfRanked(r: Record, order: nat, createdAt: string): seq<Record> {
    if KindOrder(r.kind) == order && r.createdAt == createdAt then [r] else []
  }

  /** The records of one rank. */
  function Ranked(records: seq<Record>, order: nat, createdAt: string): seq<Record> {
    if records == [] then [] else IfRanked(records[0], order, createdAt) + Ranked(records[1..], order, createdAt)
  }

  /** They are all the records of that rank, each as often as it is there. */
  lemma {:induction false} RankedAreAll(records: seq<Record>, order: nat, createdAt: string, r: Record)
    ensures multiset(Ranked(records, order, createdAt))[r]
         == if KindOrder(r.kind) == order && r.createdAt == createdAt then multiset(records)[r] else 0
  {
    if records != [] {
      RankedAreAll(records[1..], order, createdAt, r);
      assert records == [records[0]] + records[1..];
    }
  }

  lemma NotOfOneRank(a: Record, b: Record, order: nat, createdAt: string)
    requires Precedes(a, b)
    ensures IfRanked(a, order, createdAt) == [] || IfRanked(b, order, createdAt) == []
  {
    LessIsTotal(a.createdAt, b.createdAt);
  }

  lemma OneMoreRanked(r: Record, s: seq<Record>, order: nat, createdAt: string)
    ensures Ranked([r] + s, order, createdAt) == IfRanked(r, order, createdAt) + Ranked(s, order, createdAt)
  {
    assert ([r] + s)[1..] == s;
  }

  lemma OneIsEmpty(a: seq<Record>, b: seq<Record>, c: seq<Record>)
    requires a == [] || b == []
    ensures a + (b + c) == b + (a + c)
  {
  }

  lemma {:induction false} PlacedIsStable(r: Record, s: seq<Record>, order: nat, createdAt: string)
    ensures Ranked(Placed(r, s), order, createdAt) == IfRanked(r, order, createdAt) + Ranked(s, order, createdAt)
  {
    if s == [] || !Precedes(s[0], r) {
      OneMoreRanked(r, s, order, createdAt);
    } else {
      PlacedIsStable(r, s[1..], order, createdAt);
      OneMoreRanked(s[0], Placed(r, s[1..]), order, createdAt);
      NotOfOneRank(s[0], r, order, createdAt);
      OneIsEmpty(IfRanked(s[0], order, createdAt), IfRanked(r, order, createdAt), Ranked(s[1..], order, createdAt));
    }
  }

  /** Records that neither goes before the other of keep their order. */
  lemma {:induction false} SortedIsStable(records: seq<Record>, order: nat, createdAt: string)
    ensures Ranked(Sorted(records), order, createdAt) == Ranked(records, order, createdAt)
  {
    if records != [] {
      SortedIsStable(records[1..], order, createdAt);
      PlacedIsStable(records[0], Sorted(records[1..]), order, createdAt);
    }
  }

  // ----- headings inside a body

  /** The exporter's test for a line that opens or closes a code fence. */
  predicate ExportFence(line: string) {
    "```" <= TrimSpace(line) || "~~~" <= TrimSpace(line)
  }

  function DemotedLine(line: string): string {
    if "#" <= line then "##" + line else line
  }

  function Demoted(lines: seq<string>, inFence: bool): (out: seq<string>)
    ensures |out| == |lines|
  {
    if lines == [] then []
    else if ExportFence(lines[0]) then [lines[0]] + Demoted(lines[1..], !inFence)
    else [if inFence then lines[0] else DemotedLine(lines[0])] + Demoted(lines[1..], inFence)
  }

  function Fences(lines: seq<string>, inFence: bool): bool {
    if lines == [] then inFence else Fences(lines[1..], if ExportFence(lines[0]) then !inFence else inFence)
  }

  lemma {:induction false} DemotedSnoc(lines: seq<string>, line: string, inFence: bool)
    ensures Fences(lines + [line], inFence) == (Fences(lines, inFence) != ExportFence(line))
    ensures Demoted(lines + [line], inFence)
            == Demoted(lines, inFence)
             + [if ExportFence(line) || Fences(lines, inFence) then line else DemotedLine(line)]
  {
    if lines == [] {
      assert lines + [line] == [line];
    } else {
      assert (lines + [line])[1..] == lines[1..] + [line];
      DemotedSnoc(lines[1..], line, if ExportFence(lines[0]) then !inFence else inFence);
    }
  }

  /** Pushes every heading outside a fence two levels down, in place. */
  method DemoteHeadings(body: string) returns (out: string)
    ensures out == Join(Demoted(Split(body, '\n'), false), '\n')
  {
    var split := Split(body, '\n');
    var lines := new string[|split|](i requires 0 <= i < |split| => split[i]);
    var inFence := false;
    assert lines[..] == split;
    for i := 0 to lines.Length
      invariant inFence == Fences(split[..i], false)
      invariant lines[..i] == Demoted(split[..i], false)
      invariant lines[i..] == split[i..]
    {
      var line := lines[i];
      assert split[..i + 1] == split[..i] + [split[i]];
      assert line == lines[i..][0] == split[i];
      DemotedSnoc(split[..i], line, false);
      if ExportFence(line) {
        inFence := !inFence;
      } else if !inFence {
        lines[i] := DemotedLine(line);
      }
      assert lines[..i + 1] == lines[..i] + [lines[i]];
      assert lines[i + 1..] == split[i + 1..];
    }
    assert split[..|split|] == split && lines[..lines.Length] == lines[..];
    out := Join(lines[..], '\n');
  }

  // ----- the document, line by line

  function Heading(title: string): string {
    var t := TrimSpace(title);
    if t == "" then "(untitled)" else OneLine(t)
  }

  /** A newline becomes a space. */
  function OneLine(s: string): (t: string)
    ensures |t| == |s| && Without(t, '\n')
    ensures forall i :: 0 <= i < |s| ==> t[i] == if s[i] == '\n' then ' ' else s[i]
  {
    seq(|s|, i requires 0 <= i < |s| => if s[i] == '\n' then ' ' else s[i])
  }

  /** The body as exported: nothing when it repeats the title. */
  function ExportedBody(r: Record): string {
    var body := TrimSpace(r.body);
    if body == TrimSpace(r.title) then "" else body
  }

  function BodyLines(r: Record): seq<string> {
    if ExportedBody(r) == "" then [] else Demoted(Split(ExportedBody(r), '\n'), false) + [""]
  }

  function MetaLines(r: Record): seq<string> {
    (if r.kind != "" then ["kind=" + r.kind] else [])
    + (if r.visibility != "" then ["visibility=" + r.visibility] else [])
    + (if r.files != [] then ["files=" + Join(r.files, ',')] else [])
    + (if r.source != "" then ["source=" + r.source] else [])
    + (if r.id != "" then ["id=" + r.id] else [])
  }

  function CommentText(meta: string): string {
    "<!-- dkm\n" + meta + "\n-->"
  }

  function MetaBlock(r: Record): seq<string> {
    if MetaLines(r) == [] then [] else ["<!-- dkm"] + MetaLines(r) + ["-->", ""]
  }

  function EntryLines(r: Record): seq<string> {
    ["## " + Heading(r.title), ""] + BodyLines(r) + MetaBlock(r)
  }

  function EntriesLines(records: seq<Record>): seq<string> {
    if records == [] then [] else EntryLines(records[0]) + EntriesLines(records[1..])
  }

  function Count(records: seq<Record>, kind: string): nat {
    if records == [] then 0 else Count(records[1..], kind) + if records[0].kind == kind then 1 else 0
  }

  function CountText(records: seq<Record>, kind: string): seq<string> {
    var n := Count(records, kind);
    if n > 0 then [Itoa(n) + " " + kind + (if n == 1 then "" else "s")] else []
  }

  function CommaJoin(parts: seq<string>): string {
    if parts == [] then "" else if |parts| == 1 then parts[0] else parts[0] + ", " + CommaJoin(parts[1..])
  }

  function SummaryLines(records: seq<Record>, banner: Banner): seq<string> {
    var parts := CountText(records, "lesson") + CountText(records, "decision")
      + CountText(records, "preference") + CountText(records, "fact");
    if parts == [] then [] else ["*" + CommaJoin(parts) + ". Exported " + banner.day + ".*", ""]
  }

  function BannerLine(count: nat, banner: Banner): string {
    "<!-- dkm-export project=" + banner.quotedProject + " count=" + Itoa(count) + " exported=" + banner.stamp + " -->"
  }

  function ProjectTitle(project: string): string {
    if project == "" then "Team-wide memories" else project
  }

  function HeaderLines(project: string, records: seq<Record>, banner: Banner): seq<string> {
    ["# " + ProjectTitle(project), "", BannerLine(|records|, banner), ""] + SummaryLines(records, banner) + ["---", ""]
  }

  function DocLines(project: string, records: seq<Record>, banner: Banner): seq<string> {
    HeaderLines(project, Sorted(records), banner) + EntriesLines(Sorted(records))
  }

  lemma {:induction false} EntriesSnoc(records: seq<Record>, r: Record)
    ensures EntriesLines(records + [r]) == EntriesLines(records) + EntryLines(r)
  {
    if records == [] {
      assert records + [r] == [r];
      assert [r][1..] == [];
    } else {
      assert (records + [r])[1..] == records[1..] + [r];
      EntriesSnoc(records[1..], r);
    }
  }

  lemma OneMoreEntry(records: seq<Record>, i: nat)
    requires i < |records|
    ensures Unlines(EntriesLines(records[..i + 1]))
        == Unlines(EntriesLines(records[..i])) + Unlines(EntryLines(records[i]))
  {
    assert records[..i + 1] == records[..i] + [records[i]];
    EntriesSnoc(records[..i], records[i]);
    UnlinesConcat(EntriesLines(records[..i]), EntryLines(records[i]));
  }

  method RenderBody(r: Record) returns (b: string)
    ensures b == Unlines(BodyLines(r))
  {
    b := "";
    var body := TrimSpace(r.body);
    if body != "" && body != TrimSpace(r.title) {
      var demoted := DemoteHeadings(body);
      var lines := Demoted(Split(body, '\n'), false);
      UnlinesIsJoin(lines);
      UnlinesConcat(lines, [""]);
      b := demoted + "\n" + "\n";
    }
  }

  method RenderMeta(r: Record) returns (b: string)
    ensures b == Unlines(MetaBlock(r))
  {
    b := "";
    var meta: seq<string> := [];
    if r.kind != "" { meta := meta + ["kind=" + r.kind]; }
    if r.visibility != "" { meta := meta + ["visibility=" + r.visibility]; }
    if r.files != [] { meta := meta + ["files=" + Join(r.files, ',')]; }
    if r.source != "" { meta := meta + ["source=" + r.source]; }
    if r.id != "" { meta := meta + ["id=" + r.id]; }
    assert meta == MetaLines(r);
    if meta != [] {
      WrapMeta(meta);
      b := CommentText(Join(meta, '\n')) + "\n\n";
    }
  }

  lemma WrapMeta(meta: seq<string>)
    requires meta != []
    ensures Unlines(["<!-- dkm"] + meta + ["-->", ""]) == CommentText(Join(meta, '\n')) + "\n\n"
  {
    UnlinesIsJoin(meta);
    UnlinesConcat(["<!-- dkm"], meta);
    UnlinesConcat(["<!-- dkm"] + meta, ["-->", ""]);
    assert ["-->", ""][1..] == [""];
    assert Unlines(["-->", ""]) == "-->\n\n";
    assert Unlines(["<!-- dkm"]) == "<!-- dkm\n";
  }

  lemma EntryInLines(heading: string, body: seq<string>, meta: seq<string>)
    ensures Unlines([heading, ""] + body + meta) == heading + "\n\n" + Unlines(body) + Unlines(meta)
  {
    TwoLines(heading);
    UnlinesConcat([heading, ""], body);
    UnlinesConcat([heading, ""] + body, meta);
  }

  /** One section: heading, body and metadata comment. */
  method RenderEntry(r: Record) returns (b: string)
    ensures b == Unlines(EntryLines(r))
  {
    var body := RenderBody(r);
    var meta := RenderMeta(r);
    EntryInLines("## " + Heading(r.title), BodyLines(r), MetaBlock(r));
    b := "## " + Heading(r.title) + "\n\n" + body + meta;
  }

  method CountKinds(records: seq<Record>) returns (counts: map<string, nat>)
    ensures forall k :: (if k in counts then counts[k] else 0) == Count(records, k)
  {
    counts := map[];
    for i := 0 to |records|
      invariant forall k :: (if k in counts then counts[k] else 0) == Count(records[..i], k)
    {
      CountSnoc(records[..i], records[i]);
      assert records[..i + 1] == records[..i] + [records[i]];
      var kind := records[i].kind;
      counts := counts[kind := (if kind in counts then counts[kind] else 0) + 1];
    }
    assert records[..|records|] == records;
  }

  lemma {:induction false} CountSnoc(records: seq<Record>, r: Record)
    ensures forall k :: Count(records + [r], k) == Count(records, k) + if r.kind == k then 1 else 0
  {
    if records == [] {
      assert records + [r] == [r] && [r][1..] == [];
    } else {
      assert (records + [r])[1..] == records[1..] + [r];
      CountSnoc(records[1..], r);
    }
  }

  function CountTexts(records: seq<Record>, kinds: seq<string>): seq<string> {
    if kinds == [] then [] else CountTexts(records, kinds[..|kinds| - 1]) + CountText(records, kinds[|kinds| - 1])
  }

  lemma FourCounts(records: seq<Record>, a: string, b: string, c: string, d: string)
    ensures CountTexts(records, [a, b, c, d])
         == CountText(records, a) + CountText(records, b) + CountText(records, c) + CountText(records, d)
  {
    assert [a, b, c, d][..3] == [a, b, c] && [a, b, c][..2] == [a, b] && [a, b][..1] == [a] && [a][..0] == [];
    assert CountTexts(records, [a]) == [] + CountText(records, a);
    assert CountTexts(records, [a, b]) == CountTexts(records, [a]) + CountText(records, b);
    assert CountTexts(records, [a, b, c]) == CountTexts(records, [a, b]) + CountText(records, c);
  }

  method RenderCounts(records: seq<Record>, kinds: seq<string>) returns (summary: seq<string>)
    ensures summary == CountTexts(records, kinds)
  {
    var counts := CountKinds(records);
    summary := [];
    for i := 0 to |kinds|
      invariant summary == CountTexts(records, kinds[..i])
    {
      var k := kinds[i];
      assert kinds[..i + 1][..i] == kinds[..i];
      if k in counts && counts[k] > 0 {
        summary := summary + [Itoa(counts[k]) + " " + k + (if counts[k] == 1 then "" else "s")];
      }
    }
    assert kinds[..|kinds|] == kinds;
  }

  method RenderSummary(sorted: seq<Record>, banner: Banner) returns (b: string)
    ensures b == Unlines(SummaryLines(sorted, banner))
  {
    b := "";
    var summary := RenderCounts(sorted, ["lesson", "decision", "preference", "fact"]);
    FourCounts(sorted, "lesson", "decision", "preference", "fact");
    if |summary| > 0 {
      var line := "*" + CommaJoin(summary) + ". Exported " + banner.day + ".*";
      TwoLines(line);
      b := line + "\n\n";
    }
  }

  method RenderHeader(project: string, sorted: seq<Record>, banner: Banner) returns (b: string)
    ensures b == Unlines(HeaderLines(project, sorted, banner))
  {
    var title := project;
    if title == "" {
      title := "Team-wide memories";
    }
    var summary := RenderSummary(sorted, banner);
    HeaderInLines("# " + title, BannerLine(|sorted|, banner), SummaryLines(sorted, banner), "---");
    b := "# " + title + "\n\n";
    b := b + (BannerLine(|sorted|, banner) + "\n\n");
    b := b + summary;
    b := b + "---\n\n";
  }

  lemma TwoLines(a: string)
    ensures Unlines([a, ""]) == a + "\n\n"
  {
    assert [a, ""][1..] == [""];
    assert Unlines([""]) == "" + "\n" + Unlines([]);
  }

  lemma HeaderInLines(title: string, line: string, summary: seq<string>, rule: string)
    ensures Unlines([title, "", line, ""] + summary + [rule, ""])
         == title + "\n\n" + (line + "\n\n") + Unlines(summary) + (rule + "\n\n")
  {
    TwoLines(title);
    TwoLines(line);
    TwoLines(rule);
    UnlinesConcat([title, ""], [line, ""]);
    UnlinesConcat([title, "", line, ""], summary);
    UnlinesConcat([title, "", line, ""] + summary, [rule, ""]);
    assert [title, "", line, ""] == [title, ""] + [line, ""];
  }

  /** Turns one project's memories into a document. */
  method RenderMarkdown(project: string, records: seq<Record>, banner: Banner) returns (doc: string)
    ensures doc == Unlines(DocLines(project, records, banner))
  {
    var sorted := Sorted(records);
    doc := RenderHeader(project, sorted, banner);
    var entries := "";
    for i := 0 to |sorted|
      invariant entries == Unlines(EntriesLines(sorted[..i]))
    {
      var entry := RenderEntry(sorted[i]);
      OneMoreEntry(sorted, i);
      entries := entries + entry;
    }
    assert sorted[..|sorted|] == sorted;
    UnlinesConcat(HeaderLines(project, sorted, banner), EntriesLines(sorted));
    doc := doc + entries;
  }
}
