// One exported section read back: body, metadata and title. The metadata comment is the only comment
// of a section, so it is found and its fields are read, and stripping comments leaves the body alone.
// A field is cut at its first equals sign and trimmed, kind, visibility and files are read and other
// fields are not, and the file list comes apart at the commas it was joined with. The body keeps its
// first and last characters when its headings are demoted, so trimming it again changes nothing.
module MarkdownEntry {
  import opened Strings
  import E = MarkdownExport
  import opened MarkdownImport
  import opened MarkdownSections
  import opened MarkdownBanner

  /** The text of a section: a body, then the metadata comment. */
  function Annotated(body: string, meta: string): string {
    body + "\n\n" + E.CommentText(meta)
  }

  // ----- where a pattern cannot occur

  lemma WithoutFirstChar(s: string, pat: string)
    requires pat != "" && Without(s, pat[0])
    ensures !Contains(s, pat)
  {
    forall i | 0 <= i <= |s| ensures !At(s, i, pat) {
      if i < |s| {
        Mismatch(s, i, pat, 0);
      }
    }
  }

  /** A stretch that lacks a pattern and is followed by a character the pattern avoids has none starting in it. */
  lemma StretchLacks(s: string, from: nat, m: string, pat: string)
    requires from + |m| < |s| && s[from..from + |m|] == m && s[from + |m|] !in pat
    requires pat != "" && !Contains(m, pat)
    ensures forall i :: from <= i <= from + |m| ==> !At(s, i, pat)
  {
    forall i | from <= i <= from + |m| ensures !At(s, i, pat) {
      if i + |pat| <= from + |m| {
        AtInPart(s[..from], m, s[from + |m|..], i - from, pat);
        assert s[..from] + m + s[from + |m|..] == s;
      } else {
        NoOccurrenceOver(s, i, pat, from + |m|);
      }
    }
  }

  lemma NothingBetween(s: string, from: nat, at: nat, m: string, end: nat, pat: string)
    requires pat != "" && !Contains(m, pat)
    requires from <= at && at + |m| < end <= |s| && s[at..at + |m|] == m && s[at + |m|] !in pat
    requires Without(s[from..at], pat[0]) && Without(s[at + |m| + 1..end], pat[0])
    ensures forall i :: from <= i < end ==> !At(s, i, pat)
  {
    StretchLacks(s, at, m, pat);
    forall i | from <= i < end ensures !At(s, i, pat) {
      if i < at {
        assert s[from..at][i - from] == s[i];
        Mismatch(s, i, pat, 0);
      } else if at + |m| < i {
        assert s[at + |m| + 1..end][i - at - |m| - 1] == s[i];
        Mismatch(s, i, pat, 0);
      }
    }
  }

  // ----- scanning an annotated body

  /** The layout of an annotated body, by position. */
  predicate Laid(s: string, body: string, meta: string) {
    var n := |body|;
    && |s| == n + 15 + |meta|
    && s[..n] == body && s[n] == '\n' && s[n + 1] == '\n'
    && s[n + 2..n + 6] == OPEN && s[n + 3..n + 11] == "!-- dkm\n" && s[n + 6..n + 11] == " dkm\n"
    && s[n + 11..n + 11 + |meta|] == meta && s[n + 11 + |meta|] == '\n' && s[n + 12 + |meta|..] == CLOSE
  }

  lemma AnnotatedIsLaid(body: string, meta: string)
    ensures Laid(Annotated(body, meta), body, meta)
  {
  }

  lemma MarkCharacters()
    ensures Without("!-- dkm\n", '<') && Without(CLOSE, '<') && Without(" dkm\n", '-') && Without("", '-')
  {
  }

  lemma CommentIsFirst(s: string, body: string, meta: string)
    requires Laid(s, body, meta) && !Contains(body, OPEN)
    ensures IndexFrom(s, 0, OPEN) == |body| + 2
  {
    StretchLacks(s, 0, body, OPEN);
    Mismatch(s, |body| + 1, OPEN, 0);
    assert At(s, |body| + 2, OPEN);
  }

  lemma CommentCloses(s: string, body: string, meta: string)
    requires Laid(s, body, meta) && !Contains(meta, CLOSE)
    ensures IndexFrom(s, |body| + 11, CLOSE) == |body| + 12 + |meta|
    ensures IndexFrom(s, |body| + 6, CLOSE) == |body| + 12 + |meta|
  {
    var n := |body|;
    MarkCharacters();
    assert s[n + 11 + |meta| + 1..n + 12 + |meta|] == "";
    NothingBetween(s, n + 6, n + 11, meta, n + 12 + |meta|, CLOSE);
    assert At(s, n + 12 + |meta|, CLOSE);
  }

  lemma MetadataIsFound(s: string, body: string, meta: string)
    requires Laid(s, body, meta) && !Contains(body, OPEN) && !Contains(meta, CLOSE)
    ensures FindMeta(s, 0) == Some(meta + "\n")
  {
    var k := |body| + 2;
    CommentIsFirst(s, body, meta);
    CommentCloses(s, body, meta);
    SpaceBeforeName(s, body, meta);
    OneCharMore(s, k + 9, k + 9 + |meta|);
  }

  lemma OneCharMore(s: string, i: nat, j: nat)
    requires i <= j < |s|
    ensures s[i..j + 1] == s[i..j] + [s[j]]
  {
  }

  lemma SpaceBeforeName(s: string, body: string, meta: string)
    requires Laid(s, body, meta)
    ensures var k := |body| + 2;
      SkipRegexSpaces(s, k + 4) == k + 5 && At(s, k + 5, "dkm") && s[k + 8] == '\n'
  {
    var k := |body| + 2;
    var name := s[k + 4..k + 9];
    assert name[0] == s[k + 4] == ' ' && name[1] == s[k + 5] == 'd' && name[4] == s[k + 8] == '\n';
    assert SkipRegexSpaces(s, k + 5) == k + 5;
    assert name[2] == s[k + 6] == 'k' && name[3] == s[k + 7] == 'm';
    assert s[k + 5..k + 8] == [s[k + 5], s[k + 6], s[k + 7]];
  }

  lemma CommentIsStripped(s: string, body: string, meta: string)
    requires Laid(s, body, meta) && !Contains(body, OPEN) && !Contains(meta, CLOSE) && body != "" && Trimmed(body)
    ensures TrimSpace(StripComments(s)) == body
  {
    var k := |body| + 2;
    CommentIsFirst(s, body, meta);
    CommentCloses(s, body, meta);
    assert s[k + 10 + |meta| + 3..] == "";
    assert StripComments("") == "";
    assert StripComments(s) == s[..k] + "";
    TrimFindsCore("", body, "\n\n");
    assert "" + body + "\n\n" == s[..k] + "";
  }

  // ----- the record's own body and metadata

  function Meta(r: E.Record): string {
    Join(E.MetaLines(r), '\n')
  }

  lemma JoinCons(x: string, ys: seq<string>, c: char)
    requires ys != []
    ensures Join([x] + ys, c) == x + [c] + Join(ys, c)
  {
    assert ([x] + ys)[1..] == ys;
  }

  lemma {:induction false} LinesLack(lines: seq<string>, pat: string)
    requires lines != [] && pat != "" && '\n' !in pat
    requires forall i :: 0 <= i < |lines| ==> !Contains(lines[i], pat)
    ensures !Contains(Join(lines, '\n'), pat)
  {
    if |lines| > 1 {
      LinesLack(lines[1..], pat);
      NoOccurrenceAcross(lines[0], '\n', Join(lines[1..], '\n'), pat);
    }
  }

  lemma {:induction false} PartsLack(lines: seq<string>, pat: string)
    requires lines != [] && !Contains(Join(lines, '\n'), pat)
    ensures forall i :: 0 <= i < |lines| ==> !Contains(lines[i], pat)
  {
    if |lines| > 1 {
      var rest := Join(lines[1..], '\n');
      assert "" + lines[0] + ("\n" + rest) == Join(lines, '\n');
      PartContainsLess("", lines[0], "\n" + rest, pat);
      assert (lines[0] + "\n") + rest + "" == Join(lines, '\n');
      PartContainsLess(lines[0] + "\n", rest, "", pat);
      PartsLack(lines[1..], pat);
      assert forall i :: 1 <= i < |lines| ==> lines[i] == lines[1..][i - 1];
    }
  }

  lemma DemotedLineHasNoComment(line: string)
    requires !Contains(line, OPEN)
    ensures !Contains("##" + line, OPEN)
  {
    WithoutFirstChar("#", OPEN);
    NoOccurrenceAcross("#", '#', line, OPEN);
    assert "#" + "#" + line == "##" + line;
  }

  lemma {:induction false} DemotedHasNoComment(lines: seq<string>, inFence: bool)
    requires forall i :: 0 <= i < |lines| ==> !Contains(lines[i], OPEN)
    ensures forall i :: 0 <= i < |lines| ==> !Contains(E.Demoted(lines, inFence)[i], OPEN)
  {
    if lines != [] {
      DemotedLineHasNoComment(lines[0]);
      var next := if E.ExportFence(lines[0]) then !inFence else inFence;
      DemotedHasNoComment(lines[1..], next);
      assert E.Demoted(lines, inFence)[1..] == E.Demoted(lines[1..], next);
    }
  }

  lemma BodyLinesHaveNoComment(r: E.Record)
    requires BodyOk(r)
    ensures forall i :: 0 <= i < |WrittenLines(r)| ==> !Contains(WrittenLines(r)[i], OPEN)
  {
    var lines := Split(E.ExportedBody(r), '\n');
    JoinSplit(E.ExportedBody(r), '\n');
    PartsLack(lines, OPEN);
    DemotedHasNoComment(lines, false);
  }

  lemma BodyHasNoComment(r: E.Record)
    requires BodyOk(r)
    ensures !Contains(DemotedBody(r), OPEN)
  {
    BodyLinesHaveNoComment(r);
    LinesLack(WrittenLines(r), OPEN);
  }

  /** A metadata line: it closes no comment, holds no banner, and continues none. */
  predicate MetaLineOk(line: string) {
    !Contains(line, CLOSE) && NoBanner(line) && StartsOtherwise(line)
  }

  lemma FirstCharacter(s: string, k: nat, pat: string)
    requires At(s, k, pat) && pat != ""
    ensures s[k] == pat[0]
  {
    assert s[k..k + |pat|][0] == s[k];
  }

  /** A mark in a field line stands in its value. */
  lemma MarkIsInValue(key: string, value: string, k: nat)
    requires Without(key, '<') && At(key + "=" + value, k, OPEN)
    ensures k > |key| && At(value, k - |key| - 1, OPEN)
  {
    FirstCharacter(key + "=" + value, k, OPEN);
    AtInSuffix(key + "=", value, k - |key| - 1, OPEN);
  }

  lemma FieldHasNoBanner(key: string, value: string)
    requires Without(key, '<') && !HasBanner(value, 0)
    ensures NoBanner(key + "=" + value)
  {
    var line := key + "=" + value;
    forall k | 0 <= k <= |line| && At(line, k, OPEN)
      ensures !BannerAt(line, k)
    {
      MarkIsInValue(key, value, k);
      BannerInSuffix(key + "=", value, k - |key| - 1);
      NoneIsThere(value, 0, k - |key| - 1);
    }
  }

  lemma FieldIsOk(key: string, value: string)
    requires Without(key, '<') && Without(key, '-') && StartsOtherwise(key) && !Contains(value, CLOSE)
        && !HasBanner(value, 0)
    ensures MetaLineOk(key + "=" + value)
  {
    FieldHasNoBanner(key, value);
    WithoutFirstChar(key, CLOSE);
    NoOccurrenceAcross(key, '=', value, CLOSE);
  }

  lemma PlainWordIsSafe(w: string)
    requires ValidKind(w) || ValidVisibility(w)
    ensures !Contains(w, CLOSE) && !HasBanner(w, 0) && Without(w, '\n') && Trimmed(w) && w != ""
  {
    WithoutFirstChar(w, OPEN);
    WithoutFirstChar(w, CLOSE);
    NoBannerIsFound(w, 0);
  }

  lemma OwnLinesAreOk(r: E.Record)
    requires MetaOk(r)
    ensures forall l :: l in OwnLines(r) ==> MetaLineOk(l)
  {
    PlainWordIsSafe(r.kind);
    PlainWordIsSafe(r.visibility);
    assert "kind" + "=" == "kind=" && "visibility" + "=" == "visibility=" && "files" + "=" == "files=";
    FieldIsOk("kind", r.kind);
    FieldIsOk("visibility", r.visibility);
    FieldIsOk("files", Join(r.files, ','));
  }

  lemma OtherLinesAreOk(r: E.Record)
    requires MetaOk(r)
    ensures forall l :: l in OtherLines(r) ==> MetaLineOk(l)
  {
    assert "source" + "=" == "source=" && "id" + "=" == "id=";
    FieldIsOk("source", r.source);
    FieldIsOk("id", r.id);
  }

  lemma MetaLinesAreOk(r: E.Record)
    requires MetaOk(r)
    ensures E.MetaLines(r) != [] && forall l :: l in E.MetaLines(r) ==> MetaLineOk(l)
  {
    MetaShape(r);
    OwnLinesAreOk(r);
    OtherLinesAreOk(r);
  }

  lemma MetaHasNoClose(r: E.Record)
    requires MetaOk(r)
    ensures !Contains(Meta(r), CLOSE)
  {
    MetaLinesAreOk(r);
    assert forall i :: 0 <= i < |E.MetaLines(r)| ==> E.MetaLines(r)[i] in E.MetaLines(r);
    LinesLack(E.MetaLines(r), CLOSE);
  }

  // ----- no banner in an entry

  lemma MarksAreHarmless()
    ensures Harmless([""]) && !OpensAtEnd("") && Harmless(["<!-- dkm"]) && !OpensAtEnd("<!-- dkm")
    ensures Harmless(["-->", ""]) && StartsOtherwise("-->")
  {
    var m := "<!-- dkm";
    WithoutFirstChar("", OPEN);
    WithoutMarkIsHarmless("");
    WithoutFirstChar("-->", OPEN);
    WithoutMarkIsHarmless("-->");
    assert m[4] == ' ' && m[5] == 'd';
    assert SkipRegexSpaces(m, 5) == 5;
    forall k | 0 <= k <= |m| && At(m, k, OPEN)
      ensures !BannerAt(m, k) && SkipRegexSpaces(m, k + 4) == 5
    {
      FirstCharacter(m, k, OPEN);
    }
  }

  lemma MetaBlockIsHarmless(meta: seq<string>)
    requires meta != [] && forall l :: l in meta ==> MetaLineOk(l)
    ensures Harmless(["<!-- dkm"] + meta + ["-->", ""])
  {
    MarksAreHarmless();
    assert Harmless(meta) by {
      assert forall i :: 0 <= i < |meta| ==> meta[i] in meta;
    }
    assert meta[0] in meta;
    HarmlessConcat(["<!-- dkm"], meta);
    HarmlessConcat(["<!-- dkm"] + meta, ["-->", ""]);
  }

  lemma RestIsHarmless(r: E.Record)
    requires Importable(r)
    ensures Harmless(RestLines(r)) && RestLines(r)[|RestLines(r)| - 1] == ""
  {
    var body := WrittenLines(r);
    MarksAreHarmless();
    MetaLinesAreOk(r);
    MetaBlockIsHarmless(E.MetaLines(r));
    BodyLinesHaveNoComment(r);
    forall i | 0 <= i < |body|
      ensures NoBanner(body[i]) && !OpensAtEnd(body[i])
    {
      WithoutMarkIsHarmless(body[i]);
    }
    RestInThree(r);
    HarmlessConcat([""], E.MetaBlock(r));
    HarmlessConcat(body, [""] + E.MetaBlock(r));
    HarmlessConcat([""], body + ([""] + E.MetaBlock(r)));
  }

  // ----- ends of the body

  lemma DemotedKeepsStart(lines: seq<string>, inFence: bool)
    requires lines != [] && lines[0] != ""
    ensures var d := Join(E.Demoted(lines, inFence), '\n'); d != "" && d[0] == lines[0][0]
  {
    var out := E.Demoted(lines, inFence)[0];
    assert out != "" && out[0] == lines[0][0];
  }

  lemma {:induction false} DemotedKeepsEnd(lines: seq<string>, inFence: bool)
    requires lines != [] && lines[|lines| - 1] != ""
    ensures
      var d := Join(E.Demoted(lines, inFence), '\n');
      var last := lines[|lines| - 1];
      d != "" && d[|d| - 1] == last[|last| - 1]
  {
    if |lines| > 1 {
      var next := if E.ExportFence(lines[0]) then !inFence else inFence;
      DemotedKeepsEnd(lines[1..], next);
      var out := E.Demoted(lines, inFence);
      assert out[1..] == E.Demoted(lines[1..], next);
      JoinCons(out[0], out[1..], '\n');
      assert out == [out[0]] + out[1..];
    } else {
      var out := E.Demoted(lines, inFence);
      assert out == [out[0]];
    }
  }

  lemma {:induction false} JoinEnds(lines: seq<string>)
    requires lines != [] && Join(lines, '\n') != ""
    ensures
      var s := Join(lines, '\n');
      var last := lines[|lines| - 1];
      && (s[0] != '\n' ==> lines[0] != "" && lines[0][0] == s[0])
      && (s[|s| - 1] != '\n' ==> last != "" && last[|last| - 1] == s[|s| - 1])
  {
    if |lines| > 1 && Join(lines[1..], '\n') != "" {
      JoinEnds(lines[1..]);
      assert lines[1..][|lines[1..]| - 1] == lines[|lines| - 1];
    }
  }

  /** A text that does not start or end with a newline starts its first line and ends its last. */
  lemma LinesEnd(body: string)
    requires body != "" && body[0] != '\n' && body[|body| - 1] != '\n'
    ensures
      var lines := Split(body, '\n');
      var last := lines[|lines| - 1];
      lines[0] != "" && lines[0][0] == body[0] && last != "" && last[|last| - 1] == body[|body| - 1]
  {
    JoinSplit(body, '\n');
    JoinEnds(Split(body, '\n'));
  }

  lemma DemotedEnds(body: string)
    requires body != "" && body[0] != '\n' && body[|body| - 1] != '\n'
    ensures
      var d := Join(E.Demoted(Split(body, '\n'), false), '\n');
      d != "" && d[0] == body[0] && d[|d| - 1] == body[|body| - 1]
  {
    LinesEnd(body);
    DemotedKeepsStart(Split(body, '\n'), false);
    DemotedKeepsEnd(Split(body, '\n'), false);
  }

  lemma ExportedIsTrimmed(r: E.Record)
    ensures Trimmed(E.ExportedBody(r))
  {
    var _, _ := TrimParts(r.body);
  }

  lemma DemotedIsTrimmed(r: E.Record)
    requires E.ExportedBody(r) != ""
    ensures DemotedBody(r) != "" && Trimmed(DemotedBody(r))
  {
    ExportedIsTrimmed(r);
    DemotedEnds(E.ExportedBody(r));
  }

  lemma BodyLinesText(r: E.Record)
    requires E.ExportedBody(r) != ""
    ensures Unlines(E.BodyLines(r)) == DemotedBody(r) + "\n\n"
  {
    var demoted := WrittenLines(r);
    UnlinesIsJoin(demoted);
    UnlinesConcat(demoted, [""]);
    assert Unlines([""]) == "\n";
  }

  lemma SectionIsAnnotated(r: E.Record)
    requires E.ExportedBody(r) != "" && MetaOk(r)
    ensures SectionOf(r) == [Section(E.Heading(r.title), Annotated(DemotedBody(r), Meta(r)))]
  {
    RestIsAnnotated(r);
    AnnotatedIsTrimmed(r);
  }

  lemma AnnotatedIsTrimmed(r: E.Record)
    requires E.ExportedBody(r) != ""
    ensures TrimSpace("\n" + Annotated(DemotedBody(r), Meta(r)) + "\n\n") == Annotated(DemotedBody(r), Meta(r)) != ""
  {
    var body := Annotated(DemotedBody(r), Meta(r));
    DemotedIsTrimmed(r);
    assert body[0] == DemotedBody(r)[0] && body[|body| - 1] == '>';
    TrimFindsCore("\n", body, "\n\n");
  }

  lemma RestIsAnnotated(r: E.Record)
    requires E.ExportedBody(r) != "" && MetaOk(r)
    ensures Unlines(RestLines(r)) == "\n" + Annotated(DemotedBody(r), Meta(r)) + "\n\n"
  {
    BodyLinesText(r);
    E.WrapMeta(E.MetaLines(r));
    UnlinesConcat([""], E.BodyLines(r));
    UnlinesConcat([""] + E.BodyLines(r), E.MetaBlock(r));
    assert Unlines([""]) == "\n";
    Regroup("\n", DemotedBody(r), "\n\n", E.CommentText(Meta(r)));
  }

  lemma Regroup(a: string, b: string, n: string, c: string)
    ensures a + (b + n) + (c + n) == a + (b + n + c) + n
  {
  }

  // ----- reading the fields back

  predicate Key(key: string) {
    key != "" && Trimmed(key) && Without(key, '=')
  }

  lemma TrimKeeps(s: string)
    requires Trimmed(s)
    ensures TrimSpace(s) == s
  {
    if s != "" {
      TrimFindsCore("", s, "");
      assert "" + s + "" == s;
    }
  }

  /** Trimming a field line takes white space off the value's end only. */
  lemma TrimmedField(key: string, value: string)
    requires Key(key)
    ensures TrimSpace(key + "=" + value) == key + "=" + TrimRight(value)
  {
    var kept := TrimRight(value);
    var tail := TrimRightParts(value);
    var core := key + "=" + kept;
    assert core[0] == key[0] && (kept != "" ==> core[|core| - 1] == kept[|kept| - 1]);
    TrimFindsCore("", core, tail);
    assert "" + core + tail == key + "=" + value;
  }

  lemma FieldIsCutAtKey(key: string, kept: string)
    requires Key(key)
    ensures IndexFrom(key + "=" + kept, 0, "=") == |key|
    ensures (key + "=" + kept)[..|key|] == key && (key + "=" + kept)[|key| + 1..] == kept
  {
    WithoutFirstChar(key, "=");
    FoundRightAfter(key, "=", kept);
  }

  /** A field line sets its own key and no other. */
  lemma FieldLine(key: string, value: string, fields: map<string, string>)
    requires Key(key)
    ensures AddField(fields, key + "=" + value) == fields[key := TrimSpace(TrimRight(value))]
  {
    TrimmedField(key, value);
    FieldIsCutAtKey(key, TrimRight(value));
    TrimKeeps(key);
  }

  lemma TrimRightKeeps(s: string)
    requires Trimmed(s)
    ensures TrimRight(s) == s
  {
  }

  lemma FieldsSnoc(lines: seq<string>, line: string)
    ensures Fields(lines + [line]) == AddField(Fields(lines), line)
  {
    assert (lines + [line])[..|lines|] == lines;
  }

  /** The fields an import reads. */
  predicate Owned(key: string) {
    key == "kind" || key == "visibility" || key == "files"
  }

  /** A further field under another key leaves what was read. */
  lemma OtherField(lines: seq<string>, key: string, value: string)
    requires Key(key) && !Owned(key)
    ensures forall k :: Owned(k) ==> Lookup(Fields(lines + [key + "=" + value]), k) == Lookup(Fields(lines), k)
  {
    FieldsSnoc(lines, key + "=" + value);
    FieldLine(key, value, Fields(lines));
  }

  lemma OwnField(lines: seq<string>, key: string, value: string)
    requires Key(key) && Trimmed(value)
    ensures Fields(lines + [key + "=" + value]) == Fields(lines)[key := value]
  {
    FieldsSnoc(lines, key + "=" + value);
    FieldLine(key, value, Fields(lines));
    TrimRightKeeps(value);
    TrimKeeps(value);
  }

  lemma {:induction false} JoinedFilesAreTrimmed(files: seq<string>)
    requires files != [] && forall f :: f in files ==> PathOk(f)
    ensures Join(files, ',') != "" && Trimmed(Join(files, ','))
  {
    assert PathOk(files[0]);
    if |files| > 1 {
      assert forall f :: f in files[1..] ==> f in files;
      JoinedFilesAreTrimmed(files[1..]);
    }
  }

  lemma KeysAreKeys()
    ensures Key("kind") && Key("visibility") && Key("files") && Key("source") && Key("id")
  {
  }

  function OwnLines(r: E.Record): seq<string> {
    ["kind=" + r.kind] + ["visibility=" + r.visibility]
    + if r.files == [] then [] else ["files=" + Join(r.files, ',')]
  }

  function OtherLines(r: E.Record): seq<string> {
    (if r.source != "" then ["source=" + r.source] else []) + (if r.id != "" then ["id=" + r.id] else [])
  }

  lemma MetaShape(r: E.Record)
    requires MetaOk(r)
    ensures E.MetaLines(r) == OwnLines(r) + OtherLines(r)
  {
    PlainWordIsSafe(r.kind);
    PlainWordIsSafe(r.visibility);
  }

  lemma OwnFieldsComeBack(r: E.Record)
    requires MetaOk(r)
    ensures
      var m := Fields(OwnLines(r));
      Lookup(m, "kind") == r.kind && Lookup(m, "visibility") == r.visibility && Lookup(m, "files") == Join(r.files, ',')
  {
    KeysAreKeys();
    PlainWordIsSafe(r.kind);
    PlainWordIsSafe(r.visibility);
    assert "kind" + "=" == "kind=" && "visibility" + "=" == "visibility=" && "files" + "=" == "files=";
    assert |"kind"| == 4 && |"visibility"| == 10 && |"files"| == 5;
    TwoFields("kind", r.kind, "visibility", r.visibility, "files");
    if r.files == [] {
      assert OwnLines(r) == ["kind=" + r.kind] + ["visibility=" + r.visibility];
    } else {
      JoinedFilesAreTrimmed(r.files);
      ThreeFields("kind", r.kind, "visibility", r.visibility, "files", Join(r.files, ','));
    }
  }

  lemma TwoFields(a: string, x: string, b: string, y: string, c: string)
    requires Key(a) && Key(b) && |a| != |b| && |b| != |c| && |a| != |c|
    requires Trimmed(x) && Trimmed(y)
    ensures
      var m := Fields([a + "=" + x] + [b + "=" + y]);
      Lookup(m, a) == x && Lookup(m, b) == y && Lookup(m, c) == ""
  {
    OwnField([], a, x);
    OwnField([a + "=" + x], b, y);
    assert [] + [a + "=" + x] == [a + "=" + x];
  }

  lemma ThreeFields(a: string, x: string, b: string, y: string, c: string, z: string)
    requires Key(a) && Key(b) && Key(c) && |a| != |b| && |b| != |c| && |a| != |c|
    requires Trimmed(x) && Trimmed(y) && Trimmed(z)
    ensures
      var m := Fields([a + "=" + x] + [b + "=" + y] + [c + "=" + z]);
      Lookup(m, a) == x && Lookup(m, b) == y && Lookup(m, c) == z
  {
    OwnField([], a, x);
    OwnField([a + "=" + x], b, y);
    OwnField([a + "=" + x] + [b + "=" + y], c, z);
    assert [] + [a + "=" + x] == [a + "=" + x];
  }

  lemma OtherFieldsChangeNothing(lines: seq<string>, r: E.Record)
    ensures forall k :: Owned(k) ==> Lookup(Fields(lines + OtherLines(r)), k) == Lookup(Fields(lines), k)
  {
    KeysAreKeys();
    assert "source" + "=" == "source=" && "id" + "=" == "id=";
    OtherField(lines, "source", r.source);
    var four := if r.source != "" then lines + ["source=" + r.source] else lines;
    OtherField(four, "id", r.id);
    assert lines + OtherLines(r) == if r.id != "" then four + ["id=" + r.id] else four;
  }

  lemma MetaFieldsComeBack(r: E.Record)
    requires MetaOk(r)
    ensures
      var m := Fields(E.MetaLines(r));
      Lookup(m, "kind") == r.kind && Lookup(m, "visibility") == r.visibility && Lookup(m, "files") == Join(r.files, ',')
  {
    MetaShape(r);
    OwnFieldsComeBack(r);
    OtherFieldsChangeNothing(OwnLines(r), r);
    assert Owned("kind") && Owned("visibility") && Owned("files");
  }

  lemma ParsedMeta(r: E.Record)
    requires MetaOk(r)
    ensures Split(Meta(r) + "\n", '\n') == E.MetaLines(r) + [""]
    ensures Fields(E.MetaLines(r) + [""]) == Fields(E.MetaLines(r))
  {
    MetaIsOneLiners(r);
    SplitUnlines(E.MetaLines(r));
    UnlinesIsJoin(E.MetaLines(r));
    FieldsSnoc(E.MetaLines(r), "");
  }

  lemma MetaIsOneLiners(r: E.Record)
    requires MetaOk(r)
    ensures OneLiners(E.MetaLines(r))
  {
    MetaShape(r);
    PlainWordIsSafe(r.kind);
    PlainWordIsSafe(r.visibility);
    assert OneLiners(OwnLines(r));
    assert OneLiners(OtherLines(r));
  }

  lemma {:induction false} FilesComeBack(files: seq<string>)
    requires forall f :: f in files ==> PathOk(f)
    ensures KeepNonEmpty(files) == files
  {
    if files != [] {
      assert PathOk(files[0]);
      TrimKeeps(files[0]);
      assert forall f :: f in files[1..] ==> f in files;
      FilesComeBack(files[1..]);
    }
  }

  lemma EntryHasNoBanner(r: E.Record)
    requires Importable(r)
    ensures !HasBanner(Annotated(DemotedBody(r), Meta(r)), 0)
  {
    RestIsHarmless(r);
    UnlinesHaveNoBanner(RestLines(r));
    TrimmedHasNoBanner(Unlines(RestLines(r)));
    RestIsAnnotated(r);
    AnnotatedIsTrimmed(r);
    NoBannerIsFound(Annotated(DemotedBody(r), Meta(r)), 0);
  }

  // ----- the title

  lemma {:induction false} PrefixIsShorter(s: string, max: nat)
    ensures |Prefix(s, max)| <= |s| && (ByteLength(s) > max ==> |Prefix(s, max)| < |s|)
  {
    if ByteLength(s) > max {
      PrefixIsShorter(s[..|s| - 1], max);
    }
  }

  lemma CollapseIsNoLonger(s: string, max: nat)
    ensures |Collapse(s, max)| <= |s|
  {
    var a, b := TrimParts(s);
    PrefixIsShorter(TrimSpace(s), max);
  }

  lemma {:induction false} SkippedIsShorter(s: string)
    ensures |SkipDigits(s)| <= |s| && |SkipSeparators(s)| <= |s|
  {
    if s != "" {
      SkippedIsShorter(s[1..]);
    }
  }

  lemma WithoutNumberIsShorter(h: string)
    requires AfterDecisionNumber(h).Some?
    ensures |AfterDecisionNumber(h).value| < |h|
  {
    if |h| >= 4 {
      SkippedIsShorter(h[4..]);
      SkippedIsShorter(SkipDigits(h[4..]));
    }
    if |h| >= 3 {
      SkippedIsShorter(h[3..]);
      SkippedIsShorter(SkipDigits(h[3..]));
    }
  }

  lemma TitleIsKept(r: E.Record)
    ensures ReadTitle(r.kind, E.Heading(r.title)) == E.Heading(r.title) <==> TitleOk(r)
  {
    var number := AfterDecisionNumber(E.Heading(r.title));
    if r.kind == "decision" && number.Some? && number.value != "" {
      WithoutNumberIsShorter(E.Heading(r.title));
      CollapseIsNoLonger(number.value, 200);
    }
  }

  // ----- the whole entry

  /** The memory a record's own section is read back as. */
  function ReadBack(r: E.Record, d: Defaults): Imported {
    Expected(r, d).(title := ReadTitle(r.kind, E.Heading(r.title)))
  }

  /** The section written for a record is imported as that record, but for what is done to its title. */
  lemma EntryIsReadBack(r: E.Record, d: Defaults)
    requires Importable(r)
    ensures ImportAll(SectionOf(r), d) == [ReadBack(r, d)]
  {
    var body, meta := DemotedBody(r), Meta(r);
    var s := Annotated(body, meta);
    AnnotatedIsLaid(body, meta);
    BodyHasNoComment(r);
    MetaHasNoClose(r);
    DemotedIsTrimmed(r);
    MetadataIsFound(s, body, meta);
    EntryHasNoBanner(r);
    CommentIsStripped(s, body, meta);
    ParsedMeta(r);
    MetaFieldsComeBack(r);
    SectionIsAnnotated(r);
    if r.files != [] {
      SplitJoin(r.files, ',');
      FilesComeBack(r.files);
      JoinedFilesAreTrimmed(r.files);
    }
    HeadingIsTrimmed(r);
    ImportOne(Section(E.Heading(r.title), s), d);
    ImportedAs(r, s, d);
  }

  lemma ImportedAs(r: E.Record, s: string, d: Defaults)
    requires MetaOk(r) && !HasBanner(s, 0) && TrimSpace(StripComments(s)) == DemotedBody(r) != ""
    requires Lookup(ParseMeta(s), "kind") == r.kind && Lookup(ParseMeta(s), "visibility") == r.visibility
    requires Lookup(ParseMeta(s), "files") == Join(r.files, ',')
    requires r.files != [] ==> Join(r.files, ',') != "" && KeepNonEmpty(Split(Join(r.files, ','), ',')) == r.files
    requires E.Heading(r.title) != ""
    ensures ImportSection(Section(E.Heading(r.title), s), d) == Some(ReadBack(r, d))
  {
  }

  /** The section written for a record is imported as that record. */
  lemma EntryComesBack(r: E.Record, d: Defaults)
    requires Exportable(r)
    ensures ImportAll(SectionOf(r), d) == [Expected(r, d)]
  {
    EntryIsReadBack(r, d);
    TitleIsKept(r);
  }
}
