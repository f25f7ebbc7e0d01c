// Rewriting a text around the spans kept, and saying where they were.
module RedactText {
  import opened Redact

  // ----- lines and columns -----

  /** The number of line breaks in a text. */
  function Breaks(s: string): nat {
    if s == [] then 0 else Breaks(s[..|s| - 1]) + if s[|s| - 1] == '\n' then 1 else 0
  }

  /** How many characters follow the last line break. */
  function SinceBreak(s: string): nat {
    if s == [] || s[|s| - 1] == '\n' then 0 else SinceBreak(s[..|s| - 1]) + 1
  }

  function LineOf(s: string, offset: nat): nat
    requires offset <= |s|
  {
    Breaks(s[..offset]) + 1
  }

  function ColumnOf(s: string, offset: nat): nat
    requires offset <= |s|
  {
    SinceBreak(s[..offset]) + 1
  }

  /** Lines and columns start at one; a line break ends a line, and every other character moves one column on. */
  lemma PlaceMovesOn(s: string, i: nat)
    requires i < |s|
    ensures LineOf(s, 0) == 1 && ColumnOf(s, 0) == 1
    ensures LineOf(s, i + 1) == if s[i] == '\n' then LineOf(s, i) + 1 else LineOf(s, i)
    ensures ColumnOf(s, i + 1) == if s[i] == '\n' then 1 else ColumnOf(s, i) + 1
  {
    assert s[..i + 1][..i] == s[..i];
  }

  /** The places where lines start, in order. */
  ghost predicate AreStarts(starts: seq<nat>, s: string) {
    && |starts| > 0 && starts[0] == 0
    && (forall i, j :: 0 <= i < j < |starts| ==> starts[i] < starts[j])
    && (forall k :: 0 < k <= |s| ==> (k in starts <==> s[k - 1] == '\n'))
    && (forall i :: 0 <= i < |starts| ==> starts[i] <= |s|)
  }

  class LineIndex {
    var starts: seq<nat>
    ghost var text: string

    ghost predicate Valid()
      reads this
    {
      AreStarts(starts, text)
    }

    constructor (s: string)
      ensures Valid() && text == s
    {
      starts := [0];
      text := s;
      new;
      for i := 0 to |s|
        invariant text == s && AreStarts(starts, s[..i])
      {
        StartsGrow(starts, s, i);
        if s[i] == '\n' {
          starts := starts + [i + 1];
        }
      }
      assert s[..|s|] == s;
    }

    /** The line and column of an offset, by binary search for the first line that starts after it. */
    method At(offset: nat) returns (line: nat, column: nat)
      requires Valid() && offset <= |text|
      ensures line == LineOf(text, offset) && column == ColumnOf(text, offset)
    {
      var lo, hi := 0, |starts|;
      while lo < hi
        invariant 0 <= lo <= hi <= |starts|
        invariant forall i :: 0 <= i < lo ==> starts[i] <= offset
        invariant forall i :: hi <= i < |starts| ==> starts[i] > offset
      {
        var h := (lo + hi) / 2;
        if starts[h] > offset {
          hi := h;
        } else {
          lo := h + 1;
        }
      }
      var i := lo - 1;
      if i < 0 {
        i := 0;
      }
      assert starts[0] == 0;
      LineStart(starts, text, offset, i);
      line, column := i + 1, offset - starts[i] + 1;
    }
  }

  lemma StartsGrow(starts: seq<nat>, s: string, i: nat)
    requires i < |s| && AreStarts(starts, s[..i])
    ensures s[i] == '\n' ==> AreStarts(starts + [i + 1], s[..i + 1])
    ensures s[i] != '\n' ==> AreStarts(starts, s[..i + 1])
  {
    assert s[..i + 1] == s[..i] + [s[i]];
    forall k | 0 < k <= i
      ensures k in starts <==> s[..i + 1][k - 1] == '\n'
    {
      assert s[..i][k - 1] == s[..i + 1][k - 1];
    }
  }

  /** The i-th start is the last one at or before `offset`: i breaks come before, the last of them right
      before it. */
  lemma {:induction false} LineStart(starts: seq<nat>, s: string, offset: nat, i: nat)
    requires AreStarts(starts, s) && offset <= |s|
    requires i < |starts| && starts[i] <= offset && (i + 1 < |starts| ==> offset < starts[i + 1])
    ensures Breaks(s[..offset]) == i && SinceBreak(s[..offset]) == offset - starts[i]
    decreases offset
  {
    if offset > 0 {
      var before := s[..offset - 1];
      assert s[..offset][..offset - 1] == before;
      if starts[i] == offset {
        assert offset in starts && s[offset - 1] == '\n';
        LineStart(starts, s, offset - 1, i - 1);
      } else {
        assert offset !in starts;
        LineStart(starts, s, offset - 1, i);
      }
    }
  }

  // ----- rewriting -----

  function Marker(kind: string): string {
    "[redacted:" + kind + "]"
  }

  function FindingOf(s: string, c: Span): Finding
    requires c.start <= c.end && c.start <= |s|
  {
    Finding(c.kind, c.start, c.end - c.start, LineOf(s, c.start), ColumnOf(s, c.start))
  }

  /** Spans inside the text, in order and apart. */
  ghost predicate Apart(spans: seq<Span>, s: string, from: nat) {
    && from <= |s|
    && (forall i :: 0 <= i < |spans| ==> from <= spans[i].start < spans[i].end <= |s|)
    && (forall i, j :: 0 <= i < j < |spans| ==> spans[i].end <= spans[j].start)
  }

  ghost predicate InText(spans: seq<Span>, s: string) {
    forall i :: 0 <= i < |spans| ==> spans[i].start <= spans[i].end <= |s|
  }

  lemma KeptAreApart(kept: seq<Span>, candidates: set<Span>, rules: seq<Rule>, s: string)
    requires Resolves(kept, candidates) && Proper(candidates, rules)
    requires forall c :: c in candidates ==> c.end <= |s|
    ensures Apart(kept, s, 0)
  {
    forall i | 0 <= i < |kept|
      ensures kept[i].start < kept[i].end <= |s|
    {
      assert IsFirst(kept[i], candidates, EndOf(kept[..i]));
    }
    forall i, j | 0 <= i < j < |kept|
      ensures kept[i].end <= kept[j].start
    {
      KeptAreDisjoint(kept, candidates, rules, i, j);
    }
  }

  /** The text from `from` on, with a marker for every span. */
  ghost function Marked(s: string, from: nat, spans: seq<Span>): string
    requires from <= |s| && InText(spans, s)
    decreases |spans|
  {
    if spans == [] then s[from..]
    else
      var c := spans[0];
      (if from <= c.start then s[from..c.start] else []) + Marker(c.kind) + Marked(s, c.end, spans[1..])
  }

  /** One span taken out leaves what is before it, a marker that names its kind, and what is after it. */
  lemma OneSpanReads(s: string, c: Span)
    requires c.start <= c.end <= |s|
    ensures Marked(s, 0, [c]) == s[..c.start] + ("[redacted:" + c.kind + "]") + s[c.end..]
  {
    assert [c][1..] == [];
    assert s[0..c.start] == s[..c.start];
  }

  /** Puts removed texts back, the first marker first. */
  function PutBack(t: string, findings: seq<Finding>, removed: seq<string>): string
    requires |findings| == |removed|
    decreases |findings|
  {
    if findings == [] then t
    else
      var f := findings[0];
      var marker := Marker(f.kind);
      if f.offset + |marker| <= |t|
      then PutBack(t[..f.offset] + removed[0] + t[f.offset + |marker|..], findings[1..], removed[1..])
      else t
  }

  ghost function Removed(s: string, spans: seq<Span>): (r: seq<string>)
    requires InText(spans, s)
    ensures |r| == |spans|
  {
    seq(|spans|, i requires 0 <= i < |spans| => s[spans[i].start..spans[i].end])
  }

  ghost function Findings(s: string, spans: seq<Span>): (r: seq<Finding>)
    requires InText(spans, s)
    ensures |r| == |spans|
  {
    seq(|spans|, i requires 0 <= i < |spans| => FindingOf(s, spans[i]))
  }

  /** Putting the removed texts back where the findings say restores the text: nothing outside the spans
      was changed. */
  lemma {:induction false} PutBackRestores(s: string, from: nat, spans: seq<Span>)
    requires Apart(spans, s, from)
    ensures PutBack(s[..from] + Marked(s, from, spans), Findings(s, spans), Removed(s, spans)) == s
    decreases |spans|
  {
    if spans == [] {
      assert s[..from] + s[from..] == s;
    } else {
      FirstOfEach(s, spans);
      PutBackRestores(s, spans[0].end, spans[1..]);
      FirstRestored(s, from, spans[0], Marked(s, spans[0].end, spans[1..]), Findings(s, spans[1..]),
          Removed(s, spans[1..]));
    }
  }

  lemma FirstRestored(s: string, from: nat, c: Span, rest: string, findings: seq<Finding>, removed: seq<string>)
    requires from <= c.start < c.end <= |s| && |findings| == |removed|
    ensures PutBack(s[..from] + (s[from..c.start] + Marker(c.kind) + rest), [FindingOf(s, c)] + findings,
        [s[c.start..c.end]] + removed)
         == PutBack(s[..c.end] + rest, findings, removed)
  {
    FirstPutBack(s, from, c, rest);
    OnePutBack(s[..from] + (s[from..c.start] + Marker(c.kind) + rest), FindingOf(s, c), s[c.start..c.end], findings,
        removed);
  }

  lemma FirstOfEach(s: string, spans: seq<Span>)
    requires InText(spans, s) && spans != []
    ensures InText(spans[1..], s)
    ensures Findings(s, spans) == [FindingOf(s, spans[0])] + Findings(s, spans[1..])
    ensures Removed(s, spans) == [s[spans[0].start..spans[0].end]] + Removed(s, spans[1..])
  {
  }

  lemma Tails(s: string, spans: seq<Span>, n: nat)
    requires InText(spans, s) && n <= |spans|
    ensures InText(spans[n..], s)
    ensures Findings(s, spans)[n..] == Findings(s, spans[n..])
    ensures Removed(s, spans)[n..] == Removed(s, spans[n..])
  {
  }

  lemma OneMoreFinding(s: string, spans: seq<Span>, n: nat)
    requires InText(spans, s) && n < |spans|
    ensures Findings(s, spans)[..n + 1] == Findings(s, spans)[..n] + [FindingOf(s, spans[n])]
  {
  }

  lemma OnePutBack(t: string, f: Finding, x: string, findings: seq<Finding>, removed: seq<string>)
    requires |findings| == |removed| && f.offset + |Marker(f.kind)| <= |t|
    ensures PutBack(t, [f] + findings, [x] + removed)
         == PutBack(t[..f.offset] + x + t[f.offset + |Marker(f.kind)|..], findings, removed)
  {
    Heads(f, findings);
    Heads(x, removed);
    FirstStep(t, [f] + findings, [x] + removed);
  }

  lemma FirstStep(t: string, findings: seq<Finding>, removed: seq<string>)
    requires |findings| == |removed| > 0 && findings[0].offset + |Marker(findings[0].kind)| <= |t|
    ensures PutBack(t, findings, removed)
         == PutBack(t[..findings[0].offset] + removed[0]
             + t[findings[0].offset + |Marker(findings[0].kind)|..], findings[1..], removed[1..])
  {
  }

  lemma Heads<T>(x: T, rest: seq<T>)
    ensures ([x] + rest)[0] == x && ([x] + rest)[1..] == rest
  {
  }

  lemma FirstPutBack(s: string, from: nat, c: Span, rest: string)
    requires from <= c.start < c.end <= |s|
    ensures var t := s[..from] + (s[from..c.start] + Marker(c.kind) + rest);
            c.start + |Marker(c.kind)| <= |t|
            && t[..c.start] + s[c.start..c.end] + t[c.start + |Marker(c.kind)|..] == s[..c.end] + rest
  {
    var m := Marker(c.kind);
    var t := s[..from] + (s[from..c.start] + m + rest);
    assert t == s[..c.start] + (m + rest);
    assert t[..c.start] == s[..c.start];
    assert t[c.start + |m|..] == rest;
    assert s[..c.start] + s[c.start..c.end] == s[..c.end];
  }

  /** The findings of the spans that resolve the candidates. */
  ghost predicate IsReport(rules: seq<Rule>, s: string, findings: seq<Finding>) {
    exists spans :: Resolves(spans, Candidates(rules)) && InText(spans, s) && findings == Findings(s, spans)
  }

  /** The match lies inside one of the findings. */
  ghost predicate Reported(c: Span, findings: seq<Finding>) {
    exists i :: 0 <= i < |findings| && findings[i].offset <= c.start && c.end <= findings[i].offset + findings[i].length
  }

  /** There is one report, so scanning and applying give the same findings. */
  lemma ReportIsUnique(rules: seq<Rule>, s: string, a: seq<Finding>, b: seq<Finding>)
    requires WithinText(rules, s) && IsReport(rules, s, a) && IsReport(rules, s, b)
    ensures a == b
  {
    CandidatesAreProper(rules, s);
    var x :| Resolves(x, Candidates(rules)) && InText(x, s) && a == Findings(s, x);
    var y :| Resolves(y, Candidates(rules)) && InText(y, s) && b == Findings(s, y);
    ResolutionIsUnique(x, y, Candidates(rules), rules);
  }

  lemma ReportedMeansCovered(s: string, spans: seq<Span>, c: Span)
    requires InText(spans, s)
    ensures Reported(c, Findings(s, spans)) <==> IsCovered(spans, c)
  {
    var findings := Findings(s, spans);
    forall i | 0 <= i < |spans|
      ensures Covers(spans[i], c) <==> findings[i].offset <= c.start && c.end <= findings[i].offset + findings[i].length
    {
    }
    if IsCovered(spans, c) {
      var i :| 0 <= i < |spans| && Covers(spans[i], c);
      assert findings[i].offset <= c.start;
    }
  }

  /** Every match is removed whole exactly when matches that cross lie inside a third. */
  lemma AllRemovedExactlyWhenCrossingsEnclosed(rules: seq<Rule>, s: string, findings: seq<Finding>)
    requires WithinText(rules, s) && IsReport(rules, s, findings)
    ensures (forall c :: c in Candidates(rules) ==> Reported(c, findings)) <==> CrossingsEnclosed(Candidates(rules))
  {
    CandidatesAreProper(rules, s);
    var spans :| Resolves(spans, Candidates(rules)) && InText(spans, s) && findings == Findings(s, spans);
    CoveredExactlyWhenCrossingsEnclosed(spans, Candidates(rules), rules);
    forall c | c in Candidates(rules)
      ensures Reported(c, findings) <==> IsCovered(spans, c)
    {
      ReportedMeansCovered(s, spans, c);
    }
  }

  method Scan(rules: seq<Rule>, s: string) returns (findings: seq<Finding>)
    requires WithinText(rules, s)
    ensures IsReport(rules, s, findings)
  {
    var kept := Collect(rules, s);
    CandidatesAreProper(rules, s);
    KeptAreApart(kept, Candidates(rules), rules, s);
    findings := [];
    var lines := new LineIndex(s);
    for n := 0 to |kept|
      invariant lines.Valid() && lines.text == s
      invariant findings == Findings(s, kept)[..n]
    {
      var line, column := lines.At(kept[n].start);
      var found := Finding(kept[n].kind, kept[n].start, kept[n].end - kept[n].start, line, column);
      assert found == FindingOf(s, kept[n]);
      OneMoreFinding(s, kept, n);
      findings := findings + [found];
    }
  }

  /** The text, its findings and the removed texts belong together: putting the texts back restores what
      was given. */
  ghost predicate IsRewriting(s: string, spans: seq<Span>, clean: string, findings: seq<Finding>) {
    && InText(spans, s)
    && findings == Findings(s, spans)
    && clean == Marked(s, 0, spans)
    && PutBack(clean, findings, Removed(s, spans)) == s
  }

  method Apply(rules: seq<Rule>, s: string) returns (clean: string, findings: seq<Finding>)
    requires WithinText(rules, s)
    ensures exists spans :: Resolves(spans, Candidates(rules)) && IsRewriting(s, spans, clean, findings)
    ensures IsReport(rules, s, findings)
    ensures (forall c :: c in Candidates(rules) ==> Reported(c, findings)) <==> CrossingsEnclosed(Candidates(rules))
  {
    var kept := Collect(rules, s);
    CandidatesAreProper(rules, s);
    KeptAreApart(kept, Candidates(rules), rules, s);
    PutBackRestores(s, 0, kept);
    assert s[..0] + Marked(s, 0, kept) == Marked(s, 0, kept);
    if |kept| == 0 {
      clean, findings := s, [];
    } else {
      clean, findings := Rewrite(s, kept);
    }
    assert IsRewriting(s, kept, clean, findings);
    AllRemovedExactlyWhenCrossingsEnclosed(rules, s, findings);
  }

  method Rewrite(s: string, kept: seq<Span>) returns (clean: string, findings: seq<Finding>)
    requires Apart(kept, s, 0)
    ensures clean == Marked(s, 0, kept) && findings == Findings(s, kept)
  {
    var lines := new LineIndex(s);
    clean, findings := "", [];
    var prev: nat := 0;
    for n := 0 to |kept|
      invariant lines.Valid() && lines.text == s
      invariant findings == Findings(s, kept)[..n]
      invariant prev <= |s| && (n < |kept| ==> prev <= kept[n].start) && InText(kept[n..], s)
      invariant clean + Marked(s, prev, kept[n..]) == Marked(s, 0, kept)
    {
      var c := kept[n];
      NextMarked(s, prev, kept[n..], clean);
      assert kept[n..][1..] == kept[n + 1..];
      Tails(s, kept, n + 1);
      OneMoreFinding(s, kept, n);
      clean := clean + s[prev..c.start];
      var line, column := lines.At(c.start);
      var found := Finding(c.kind, c.start, c.end - c.start, line, column);
      assert found == FindingOf(s, c);
      findings := findings + [found];
      clean := clean + Marker(c.kind);
      prev := c.end;
    }
    clean := clean + s[prev..];
  }

  lemma NextMarked(s: string, prev: nat, spans: seq<Span>, clean: string)
    requires prev <= |s| && spans != [] && prev <= spans[0].start
    requires InText(spans, s)
    ensures clean + Marked(s, prev, spans)
         == clean + s[prev..spans[0].start] + Marker(spans[0].kind) + Marked(s, spans[0].end, spans[1..])
  {
    Regroup(clean, s[prev..spans[0].start], Marker(spans[0].kind), Marked(s, spans[0].end, spans[1..]));
  }

  lemma Regroup(a: string, b: string, c: string, d: string)
    ensures a + (b + c + d) == a + b + c + d
  {
  }
}
