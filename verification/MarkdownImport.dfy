// Turning a document back into memories, one per section: fences, heading levels, the split level, the
// metadata comment and the fields read from it, each with the loop that computes it.
module MarkdownImport {
  import opened Strings

  datatype Section = Section(title: string, body: string)

  datatype Imported = Imported(kind: string, title: string, body: string, files: seq<string>, visibility: string)

  /** What the caller and the file's path decide for sections that say nothing themselves. */
  datatype Defaults = Defaults(kind: string, visibility: string, path: string, baseName: string)

  predicate ValidKind(k: string) {
    k == "fact" || k == "decision" || k == "lesson" || k == "preference"
  }

  predicate ValidVisibility(v: string) {
    v == "private" || v == "team"
  }

  // ----- fences and headings

  function SkipRegexSpaces(s: string, from: nat): (k: nat)
    requires from <= |s|
    ensures from <= k <= |s|
    decreases |s| - from
  {
    if from < |s| && IsRegexSpace(s[from]) then SkipRegexSpaces(s, from + 1) else from
  }

  /** The importer's test for a fence line: regex white space, then a marker. */
  predicate ImportFence(line: string) {
    var k := SkipRegexSpaces(line, 0);
    At(line, k, "```") || At(line, k, "~~~")
  }

  function Hashes(s: string): (n: nat)
    ensures n <= |s| && forall i :: 0 <= i < n ==> s[i] == '#'
  {
    if s != "" && s[0] == '#' then 1 + Hashes(s[1..]) else 0
  }

  /** One to six `#`, then white space, then anything; 0 when the line is no heading. */
  function HeadingLevel(line: string): nat {
    var n := Hashes(line);
    if 1 <= n <= 6 && n < |line| && IsRegexSpace(line[n]) then n else 0
  }

  function HeadingText(line: string): string {
    TrimSpace(line[SkipRegexSpaces(line, Hashes(line))..])
  }

  /** Which lines sit in or on a fence. */
  function Fenced(lines: seq<string>, inFence: bool): (out: seq<bool>)
    ensures |out| == |lines|
  {
    if lines == [] then []
    else if ImportFence(lines[0]) then [true] + Fenced(lines[1..], !inFence)
    else [inFence] + Fenced(lines[1..], inFence)
  }

  function FenceAfter(lines: seq<string>, inFence: bool): bool {
    if lines == [] then inFence else FenceAfter(lines[1..], if ImportFence(lines[0]) then !inFence else inFence)
  }

  lemma {:induction false} FencedConcat(a: seq<string>, b: seq<string>, inFence: bool)
    ensures Fenced(a + b, inFence) == Fenced(a, inFence) + Fenced(b, FenceAfter(a, inFence))
    ensures FenceAfter(a + b, inFence) == FenceAfter(b, FenceAfter(a, inFence))
  {
    if a == [] {
      assert a + b == b;
    } else {
      assert (a + b)[1..] == a[1..] + b;
      FencedConcat(a[1..], b, if ImportFence(a[0]) then !inFence else inFence);
    }
  }

  method FencedLines(lines: seq<string>) returns (out: array<bool>)
    ensures fresh(out) && out[..] == Fenced(lines, false)
  {
    out := new bool[|lines|];
    var inFence := false;
    for i := 0 to |lines|
      invariant inFence == FenceAfter(lines[..i], false)
      invariant out[..i] == Fenced(lines[..i], false)
    {
      assert lines[..i + 1] == lines[..i] + [lines[i]];
      FencedConcat(lines[..i], [lines[i]], false);
      if ImportFence(lines[i]) {
        inFence := !inFence;
        out[i] := true;
      } else {
        out[i] := inFence;
      }
      assert out[..i + 1] == out[..i] + [out[i]];
    }
    assert lines[..|lines|] == lines && out[..|lines|] == out[..];
  }

  /** The level of the real heading on each line, or 0. */
  function Levels(lines: seq<string>, inFence: bool): (out: seq<nat>)
    ensures |out| == |lines|
  {
    seq(|lines|, i requires 0 <= i < |lines| => if Fenced(lines, inFence)[i] then 0 else HeadingLevel(lines[i]))
  }

  lemma LevelsConcat(a: seq<string>, b: seq<string>, inFence: bool)
    ensures Levels(a + b, inFence) == Levels(a, inFence) + Levels(b, FenceAfter(a, inFence))
  {
    FencedConcat(a, b, inFence);
  }

  /** The shallowest level in use, or 7. */
  function MinLevel(levels: seq<nat>): (m: nat)
    ensures m <= 7
    ensures forall i :: 0 <= i < |levels| && levels[i] > 0 ==> m <= levels[i]
    ensures m < 7 ==> m > 0 && m in levels
  {
    if levels == [] then 7
    else
      var m := MinLevel(levels[1..]);
      if 0 < levels[0] < m then levels[0] else m
  }

  /** Split one level below the top when there is one. */
  function SplitLevel(levels: seq<nat>): nat {
    if MinLevel(levels) + 1 in levels then MinLevel(levels) + 1 else MinLevel(levels)
  }

  // ----- sections

  function Flush(cur: Option<Section>): seq<Section> {
    if cur == None then []
    else
      var body := TrimSpace(cur.value.body);
      if body != "" || cur.value.title != "" then [Section(cur.value.title, body)] else []
  }

  /** What one line does to the section being collected. */
  function Collect(cur: Option<Section>, line: string): Option<Section> {
    if cur.Some? then Some(cur.value.(body := cur.value.body + line + "\n"))
    else if TrimSpace(line) != "" then Some(Section("", line + "\n"))
    else None
  }

  function Sections(lines: seq<string>, levels: seq<nat>, split: nat, cur: Option<Section>): seq<Section>
    requires |lines| == |levels|
  {
    if lines == [] then Flush(cur)
    else if 0 < levels[0] <= split then
      Flush(cur) + Sections(lines[1..], levels[1..], split, Some(Section(HeadingText(lines[0]), "")))
    else Sections(lines[1..], levels[1..], split, Collect(cur, lines[0]))
  }

  function FirstLine(s: string): string {
    Split(s, '\n')[0]
  }

  function SplitSections(doc: string): seq<Section> {
    var lines := Split(doc, '\n');
    var levels := Levels(lines, false);
    if MinLevel(levels) == 7 then
      var body := TrimSpace(doc);
      if body == "" then [] else [Section(TrimSpace(FirstLine(body)), body)]
    else Sections(lines, levels, SplitLevel(levels), None)
  }

  /** Breaks a document at its headings. */
  method BreakIntoSections(doc: string) returns (out: seq<Section>)
    ensures out == SplitSections(doc)
  {
    var lines := Split(doc, '\n');
    var fenced := FencedLines(lines);
    var levels: seq<nat> := [];
    var minLevel := 7;
    for i := 0 to |lines|
      invariant fenced[..] == Fenced(lines, false)
      invariant levels == Levels(lines, false)[..i]
    {
      levels := levels + [if fenced[i] then 0 else HeadingLevel(lines[i])];
      assert fenced[i] == fenced[..][i];
    }
    assert levels == Levels(lines, false);
    minLevel := MinLevel(levels);
    if minLevel == 7 {
      var body := TrimSpace(doc);
      return if body == "" then [] else [Section(TrimSpace(FirstLine(body)), body)];
    }
    out := CollectSections(lines, levels, SplitLevel(levels));
  }

  method CollectSections(lines: seq<string>, levels: seq<nat>, split: nat) returns (out: seq<Section>)
    requires |lines| == |levels|
    ensures out == Sections(lines, levels, split, None)
  {
    out := [];
    var cur: Option<Section> := None;
    for i := 0 to |lines|
      invariant out + Sections(lines[i..], levels[i..], split, cur) == Sections(lines, levels, split, None)
    {
      SectionsStep(lines, levels, split, cur, i);
      if 0 < levels[i] <= split {
        out, cur := out + Flush(cur), Some(Section(HeadingText(lines[i]), ""));
      } else {
        cur := Collect(cur, lines[i]);
      }
    }
    out := out + Flush(cur);
  }

  lemma SectionsStep(lines: seq<string>, levels: seq<nat>, split: nat, cur: Option<Section>, i: nat)
    requires |lines| == |levels| && i < |lines|
    ensures Sections(lines[i..], levels[i..], split, cur) ==
            if 0 < levels[i] <= split then
              Flush(cur) + Sections(lines[i + 1..], levels[i + 1..], split, Some(Section(HeadingText(lines[i]), "")))
            else Sections(lines[i + 1..], levels[i + 1..], split, Collect(cur, lines[i]))
  {
    assert lines[i..][1..] == lines[i + 1..] && levels[i..][1..] == levels[i + 1..];
  }

  // ----- comments and metadata

  const OPEN := "<!--"
  const CLOSE := "-->"

  function StripComments(s: string): string {
    var k := IndexFrom(s, 0, OPEN);
    if k < 0 then s
    else
      var e := IndexFrom(s, k + 4, CLOSE);
      if e < 0 then s else s[..k] + StripComments(s[e + 3..])
  }

  predicate IsWordChar(c: char) {
    'a' <= c <= 'z' || 'A' <= c <= 'Z' || '0' <= c <= '9' || c == '_'
  }

  /** The comment opening at `k` is the banner of an export. */
  predicate BannerAt(s: string, k: nat)
    requires At(s, k, OPEN)
  {
    var j := SkipRegexSpaces(s, k + 4);
    At(s, j, "dkm-export") && (j + 10 == |s| || !IsWordChar(s[j + 10]))
  }

  predicate HasBanner(s: string, from: nat)
    decreases |s| - from
  {
    var k := IndexFrom(s, from, OPEN);
    k >= 0 && (BannerAt(s, k) || HasBanner(s, k + 1))
  }

  /** The text of the metadata comment opening at `k`, when that is what opens there. */
  function MetaAt(s: string, k: nat): Option<string>
    requires At(s, k, OPEN)
  {
    var j := SkipRegexSpaces(s, k + 4);
    if At(s, j, "dkm") && j + 3 < |s| && IsRegexSpace(s[j + 3]) && IndexFrom(s, j + 4, CLOSE) >= 0
    then Some(s[j + 4..IndexFrom(s, j + 4, CLOSE)])
    else None
  }

  function FindMeta(s: string, from: nat): Option<string>
    decreases |s| - from
  {
    var k := IndexFrom(s, from, OPEN);
    if k < 0 then None
    else if MetaAt(s, k).Some? then MetaAt(s, k)
    else FindMeta(s, k + 1)
  }

  /** One `key=value` line added to the fields read so far. */
  function AddField(fields: map<string, string>, line: string): map<string, string> {
    var text := TrimSpace(line);
    var eq := IndexFrom(text, 0, "=");
    if eq < 0 then fields
    else
      var key := TrimSpace(text[..eq]);
      if key == "" then fields else fields[key := TrimSpace(text[eq + 1..])]
  }

  function Fields(lines: seq<string>): map<string, string> {
    if lines == [] then map[] else AddField(Fields(lines[..|lines| - 1]), lines[|lines| - 1])
  }

  function ParseMeta(body: string): map<string, string> {
    var m := FindMeta(body, 0);
    if m == None then map[] else Fields(Split(m.value, '\n'))
  }

  function Lookup(m: map<string, string>, key: string): string {
    if key in m then m[key] else ""
  }

  // ----- one memory per section

  function CharBytes(c: char): nat {
    if c < '\U{80}' then 1 else if c < '\U{800}' then 2 else if c < '\U{10000}' then 3 else 4
  }

  function ByteLength(s: string): nat {
    if s == "" then 0 else ByteLength(s[..|s| - 1]) + CharBytes(s[|s| - 1])
  }

  function Prefix(s: string, max: nat): string {
    if ByteLength(s) <= max then s else Prefix(s[..|s| - 1], max)
  }

  function Collapse(s: string, max: nat): string {
    var t := TrimSpace(s);
    if ByteLength(t) > max then Prefix(t, max) + "…" else t
  }

  function SkipDigits(s: string): string {
    if s != "" && '0' <= s[0] <= '9' then SkipDigits(s[1..]) else s
  }

  function SkipSeparators(s: string): string {
    if s != "" && (s[0] == '-' || s[0] == '_' || s[0] == '.' || s[0] == ' ') then SkipSeparators(s[1..]) else s
  }

  predicate StartsWithDigits(s: string, n: nat) {
    n <= |s| && forall i :: 0 <= i < n ==> '0' <= s[i] <= '9'
  }

  /** What follows a conventional decision-record number, or nothing when the title has none. */
  function AfterDecisionNumber(title: string): Option<string> {
    var adr := |title| >= 3 && title[0] in "aA" && title[1] in "dD" && title[2] in "rR";
    var rest := if adr then (if |title| > 3 && title[3] in "-_ " then title[4..] else title[3..]) else "";
    if adr && StartsWithDigits(rest, 1) then Some(SkipSeparators(SkipDigits(rest)))
    else if StartsWithDigits(title, 4) then Some(SkipSeparators(title[4..]))
    else None
  }

  function KeepNonEmpty(parts: seq<string>): seq<string> {
    if parts == [] then []
    else
      var p := TrimSpace(parts[0]);
      (if p == "" then [] else [p]) + KeepNonEmpty(parts[1..])
  }

  function ImportSection(sec: Section, d: Defaults): Option<Imported> {
    var meta := ParseMeta(sec.body);
    var body := TrimSpace(StripComments(sec.body));
    if HasBanner(sec.body, 0) || body == "" then None
    else
      var kind := if ValidKind(Lookup(meta, "kind")) then Lookup(meta, "kind") else d.kind;
      var number := AfterDecisionNumber(sec.title);
      var title := if kind == "decision" && number.Some? && number.value != "" then number.value else sec.title;
      var named := if title == "" then d.baseName else title;
      var visibility := if ValidVisibility(Lookup(meta, "visibility")) then Lookup(meta, "visibility")
          else d.visibility;
      var raw := Lookup(meta, "files");
      var files := if raw != "" then KeepNonEmpty(Split(raw, ',')) else [d.path];
      Some(Imported(kind, Collapse(named, 200), body, files, visibility))
  }

  function AsSeq<T>(o: Option<T>): seq<T> {
    if o.Some? then [o.value] else []
  }

  function ImportAll(sections: seq<Section>, d: Defaults): seq<Imported> {
    if sections == [] then [] else AsSeq(ImportSection(sections[0], d)) + ImportAll(sections[1..], d)
  }

  lemma {:induction false} ImportAllConcat(a: seq<Section>, b: seq<Section>, d: Defaults)
    ensures ImportAll(a + b, d) == ImportAll(a, d) + ImportAll(b, d)
  {
    if a == [] {
      assert a + b == b;
    } else {
      assert (a + b)[1..] == a[1..] + b;
      ImportAllConcat(a[1..], b, d);
    }
  }

  lemma ImportOne(sec: Section, d: Defaults)
    ensures ImportAll([sec], d) == AsSeq(ImportSection(sec, d))
  {
    assert [sec][1..] == [];
  }

  method ImportSections(sections: seq<Section>, d: Defaults) returns (memories: seq<Imported>)
    ensures memories == ImportAll(sections, d)
  {
    memories := [];
    for i := 0 to |sections|
      invariant memories == ImportAll(sections[..i], d)
    {
      assert sections[..i + 1] == sections[..i] + [sections[i]];
      ImportAllConcat(sections[..i], [sections[i]], d);
      ImportOne(sections[i], d);
      var m := ImportSection(sections[i], d);
      memories := memories + AsSeq(m);
    }
    assert sections[..|sections|] == sections;
  }

  /** Scans one document. */
  method ScanDocument(doc: string, d: Defaults) returns (memories: seq<Imported>)
    ensures memories == ImportAll(SplitSections(doc), d)
  {
    var sections := BreakIntoSections(doc);
    memories := ImportSections(sections, d);
  }
}
