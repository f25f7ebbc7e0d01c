// Pulling a JSON value out of a model's reply.
module ExtractJson {
  import opened Strings
  import opened Json

  const FENCE := "```"

  // ----- the scanner

  /** The scanner's variables. */
  datatype Scan = Scan(depth: int, inString: bool, escaped: bool)

  function Step(st: Scan, c: char, open: char, close: char): Scan {
    if st.escaped then st.(escaped := false)
    else if c == '\\' && st.inString then st.(escaped := true)
    else if c == '"' then st.(inString := !st.inString)
    else if st.inString then st
    else if c == open then st.(depth := st.depth + 1)
    else if c == close then st.(depth := st.depth - 1)
    else st
  }

  /** The loop returns right after this character. */
  predicate Closes(st: Scan, c: char, open: char, close: char) {
    !st.escaped && !st.inString && c == close && c != open && st.depth == 1
  }

  function Run(st: Scan, s: string, open: char, close: char): Scan
    decreases |s|
  {
    if s == "" then st else Run(Step(st, s[0], open, close), s[1..], open, close)
  }

  /** No character of `s`, scanned from `st`, makes the loop return. */
  predicate Quiet(st: Scan, s: string, open: char, close: char)
    decreases |s|
  {
    s != "" ==> !Closes(st, s[0], open, close) && Quiet(Step(st, s[0], open, close), s[1..], open, close)
  }

  /** Scanning `s` from `st` neither returns nor leaves a trace. */
  ghost predicate Neutral(st: Scan, s: string, open: char, close: char) {
    Quiet(st, s, open, close) && Run(st, s, open, close) == st
  }

  lemma {:induction false} RunConcat(st: Scan, a: string, b: string, open: char, close: char)
    ensures Run(st, a + b, open, close) == Run(Run(st, a, open, close), b, open, close)
    ensures Quiet(st, a + b, open, close)
        <==> Quiet(st, a, open, close) && Quiet(Run(st, a, open, close), b, open, close)
    decreases |a|
  {
    if a == "" {
      assert a + b == b;
    } else {
      assert (a + b)[1..] == a[1..] + b;
      RunConcat(Step(st, a[0], open, close), a[1..], b, open, close);
    }
  }

  lemma NeutralConcat(st: Scan, a: string, b: string, open: char, close: char)
    requires Neutral(st, a, open, close) && Neutral(st, b, open, close)
    ensures Neutral(st, a + b, open, close)
  {
    RunConcat(st, a, b, open, close);
  }

  // ----- every piece of JSON is neutral at depth one or more

  predicate Bracket(open: char, close: char) {
    (open == '[' && close == ']') || (open == '{' && close == '}')
  }

  predicate Outside(st: Scan) {
    st.depth >= 1 && !st.inString && !st.escaped
  }

  /** Characters that are neither quotes nor brackets pass unnoticed. */
  lemma {:induction false} InertIsNeutral(st: Scan, s: string, open: char, close: char)
    requires Bracket(open, close) && Outside(st)
    requires forall i :: 0 <= i < |s| ==> s[i] !in {'"', '[', ']', '{', '}'}
    ensures Neutral(st, s, open, close)
  {
    if s != "" {
      InertIsNeutral(st, s[1..], open, close);
    }
  }

  lemma {:induction false} PartsStayInside(st: Scan, parts: seq<StringPart>, open: char, close: char)
    requires Bracket(open, close) && st.inString && !st.escaped
    requires forall i :: 0 <= i < |parts| ==> parts[i].Valid()
    ensures Neutral(st, PartsText(parts), open, close)
  {
    if parts != [] {
      PartStaysInside(st, parts[0], open, close);
      PartsStayInside(st, parts[1..], open, close);
      NeutralConcat(st, parts[0].Text(), PartsText(parts[1..]), open, close);
    }
  }

  lemma PartStaysInside(st: Scan, part: StringPart, open: char, close: char)
    requires Bracket(open, close) && st.inString && !st.escaped && part.Valid()
    ensures Neutral(st, part.Text(), open, close)
  {
    var t := part.Text();
    match part {
      case Plain(c) =>
        assert t[1..] == "";
      case Escape(c) =>
        assert t[1..] == [c] && [c][1..] == "";
        var escaping := st.(escaped := true);
        assert Run(escaping, [c], open, close) == Run(st, "", open, close) == st;
      case Code(a, b, c, d) =>
        InsideIsNeutral(st, [a, b, c, d], open, close);
        assert t[1..] == ['u', a, b, c, d] && t[1..][1..] == [a, b, c, d];
    }
  }

  lemma {:induction false} InsideIsNeutral(st: Scan, s: string, open: char, close: char)
    requires st.inString && !st.escaped
    requires forall i :: 0 <= i < |s| ==> s[i] != '"' && s[i] != '\\'
    ensures Neutral(st, s, open, close)
  {
    if s != "" {
      InsideIsNeutral(st, s[1..], open, close);
    }
  }

  lemma StringIsNeutral(st: Scan, parts: seq<StringPart>, open: char, close: char)
    requires Bracket(open, close) && Outside(st)
    requires forall i :: 0 <= i < |parts| ==> parts[i].Valid()
    ensures Neutral(st, StringText(parts), open, close)
  {
    var inside := st.(inString := true);
    PartsStayInside(inside, parts, open, close);
    assert ("\"")[1..] == "";
    RunConcat(st, "\"", PartsText(parts), open, close);
    RunConcat(st, "\"" + PartsText(parts), "\"", open, close);
  }

  /** A bracketed piece whose inside is neutral one level down is neutral, whichever kind of bracket it is. */
  lemma WrappedIsNeutral(st: Scan, o: char, inner: string, c: char, open: char, close: char)
    requires Bracket(open, close) && Bracket(o, c) && Outside(st)
    requires forall d :: d >= 1 ==> Neutral(Scan(d, false, false), inner, open, close)
    ensures Neutral(st, [o] + inner + [c], open, close)
  {
    var deeper := Step(st, o, open, close);
    assert [o][1..] == "" && [c][1..] == "";
    assert Neutral(Scan(deeper.depth, false, false), inner, open, close);
    RunConcat(st, [o], inner, open, close);
    RunConcat(st, [o] + inner, [c], open, close);
  }

  lemma {:induction false} ValueIsNeutral(st: Scan, v: Value, open: char, close: char)
    requires Bracket(open, close) && Outside(st) && Valid(v)
    ensures Neutral(st, Render(v), open, close)
    decreases v, 1
  {
    match v {
      case Word(t) => InertIsNeutral(st, t, open, close);
      case Number(t) => InertIsNeutral(st, t, open, close);
      case Text(parts) => StringIsNeutral(st, parts, open, close);
      case Array(_, _) =>
        forall d | d >= 1 ensures Neutral(Scan(d, false, false), Inside(v), open, close) {
          InsideIsNeutralToo(Scan(d, false, false), v, open, close);
        }
        WrappedIsNeutral(st, '[', Inside(v), ']', open, close);
      case Object(_, _) =>
        forall d | d >= 1 ensures Neutral(Scan(d, false, false), Inside(v), open, close) {
          InsideIsNeutralToo(Scan(d, false, false), v, open, close);
        }
        WrappedIsNeutral(st, '{', Inside(v), '}', open, close);
    }
  }

  /** The text between the outer brackets. */
  function Inside(v: Value): string
    requires v.Array? || v.Object?
  {
    match v
    case Array(blank, es) => if es.NoElement? then blank else RenderElements(es)
    case Object(blank, ms) => if ms.NoMember? then blank else RenderMembers(ms)
  }

  lemma {:induction false} InsideIsNeutralToo(st: Scan, v: Value, open: char, close: char)
    requires Bracket(open, close) && Outside(st) && Valid(v) && (v.Array? || v.Object?)
    ensures Neutral(st, Inside(v), open, close)
    decreases v, 0
  {
    match v {
      case Array(blank, es) =>
        if es.NoElement? { InertIsNeutral(st, blank, open, close); } else { ElementsAreNeutral(st, es, open, close); }
      case Object(blank, ms) =>
        if ms.NoMember? { InertIsNeutral(st, blank, open, close); } else { MembersAreNeutral(st, ms, open, close); }
    }
  }

  lemma {:induction false} ElementsAreNeutral(st: Scan, es: Elements, open: char, close: char)
    requires Bracket(open, close) && Outside(st) && ValidElements(es)
    ensures Neutral(st, RenderElements(es), open, close)
    decreases es, 1
  {
    match es {
      case NoElement =>
      case Element(before, value, after, rest) =>
        InertIsNeutral(st, before, open, close);
        ValueIsNeutral(st, value, open, close);
        InertIsNeutral(st, after, open, close);
        NeutralConcat(st, before, Render(value), open, close);
        NeutralConcat(st, before + Render(value), after, open, close);
        var tail := if rest.NoElement? then "" else "," + RenderElements(rest);
        ElementsAreNeutral(st, rest, open, close);
        InertIsNeutral(st, ",", open, close);
        NeutralConcat(st, ",", RenderElements(rest), open, close);
        NeutralConcat(st, before + Render(value) + after, tail, open, close);
    }
  }

  lemma {:induction false} MembersAreNeutral(st: Scan, ms: Members, open: char, close: char)
    requires Bracket(open, close) && Outside(st) && ValidMembers(ms)
    ensures Neutral(st, RenderMembers(ms), open, close)
    decreases ms, 1
  {
    match ms {
      case NoMember =>
      case Member(before, key, colonBefore, colonAfter, value, after, rest) =>
        InertIsNeutral(st, before, open, close);
        StringIsNeutral(st, key, open, close);
        InertIsNeutral(st, colonBefore, open, close);
        InertIsNeutral(st, ":", open, close);
        InertIsNeutral(st, colonAfter, open, close);
        ValueIsNeutral(st, value, open, close);
        InertIsNeutral(st, after, open, close);
        var a := before + StringText(key);
        NeutralConcat(st, before, StringText(key), open, close);
        NeutralConcat(st, a, colonBefore, open, close);
        NeutralConcat(st, a + colonBefore, ":", open, close);
        NeutralConcat(st, a + colonBefore + ":", colonAfter, open, close);
        NeutralConcat(st, a + colonBefore + ":" + colonAfter, Render(value), open, close);
        NeutralConcat(st, a + colonBefore + ":" + colonAfter + Render(value), after, open, close);
        var tail := if rest.NoMember? then "" else "," + RenderMembers(rest);
        MembersAreNeutral(st, rest, open, close);
        InertIsNeutral(st, ",", open, close);
        NeutralConcat(st, ",", RenderMembers(rest), open, close);
        NeutralConcat(st, a + colonBefore + ":" + colonAfter + Render(value) + after, tail, open, close);
    }
  }

  // ----- the extraction

  predicate IsOpen(c: char) {
    c == '[' || c == '{'
  }

  function CloseOf(open: char): char {
    if open == '{' then '}' else ']'
  }

  /** `IndexAny(s, "[{")`, or the length when there is none. */
  function FirstBracket(s: string): (k: nat)
    ensures k <= |s| && (forall i :: 0 <= i < k ==> !IsOpen(s[i])) && (k < |s| ==> IsOpen(s[k]))
  {
    if s == "" || IsOpen(s[0]) then 0 else 1 + FirstBracket(s[1..])
  }

  /** Where the scan from `i` returns: after the bracket that closes the first one, or at the end. */
  function ScanEnd(s: string, i: nat, st: Scan, open: char): (e: nat)
    requires i <= |s|
    ensures i <= e <= |s|
    decreases |s| - i
  {
    if i == |s| then i
    else if Closes(st, s[i], open, CloseOf(open)) then i + 1
    else ScanEnd(s, i + 1, Step(st, s[i], open, CloseOf(open)), open)
  }

  const START := Scan(0, false, false)

  function FirstValue(s: string): string {
    var start := FirstBracket(s);
    if start == |s| then s else s[start..ScanEnd(s, start, START, s[start])]
  }

  /** What the first code fence holds, when one is opened and closed. */
  function Held(s: string): Option<string> {
    var i := IndexFrom(s, 0, FENCE);
    if i < 0 then None
    else
      var rest := s[i + 3..];
      var nl := IndexFrom(rest, 0, "\n");
      var inner := if nl >= 0 then rest[nl + 1..] else rest;
      var end := IndexFrom(inner, 0, FENCE);
      if end >= 0 then Some(inner[..end]) else None
  }

  function Unfenced(s: string): string {
    if Held(s).Some? then TrimSpace(Held(s).value) else s
  }

  function Extracted(reply: string): string {
    FirstValue(Unfenced(TrimSpace(reply)))
  }

  method ExtractJson(reply: string) returns (r: string)
    ensures r == Extracted(reply)
  {
    var s := Unfenced(TrimSpace(reply));
    var start := FirstBracket(s);
    if start == |s| {
      return s;
    }
    var open := s[start];
    var close := CloseOf(open);
    var depth, inString, escaped := 0, false, false;
    var i := start;
    while i < |s|
      invariant start <= i <= |s|
      invariant ScanEnd(s, start, START, open) == ScanEnd(s, i, Scan(depth, inString, escaped), open)
    {
      var c := s[i];
      if escaped {
        escaped := false;
      } else if c == '\\' && inString {
        escaped := true;
      } else if c == '"' {
        inString := !inString;
      } else if inString {
      } else if c == open {
        depth := depth + 1;
      } else if c == close {
        depth := depth - 1;
        if depth == 0 {
          return s[start..i + 1];
        }
      }
      i := i + 1;
    }
    return s[start..];
  }

  // ----- the first value is found whole

  lemma {:induction false} ScanPasses(s: string, i: nat, m: string, st: Scan, open: char)
    requires i + |m| <= |s| && s[i..i + |m|] == m && Quiet(st, m, open, CloseOf(open))
    ensures ScanEnd(s, i, st, open) == ScanEnd(s, i + |m|, Run(st, m, open, CloseOf(open)), open)
    decreases |m|
  {
    if m != "" {
      assert s[i] == m[0];
      assert s[i + 1..i + |m|] == m[1..];
      ScanPasses(s, i + 1, m[1..], Step(st, m[0], open, CloseOf(open)), open);
    }
  }

  predicate Container(v: Value) {
    Valid(v) && (v.Array? || v.Object?)
  }

  lemma RenderedContainer(v: Value)
    requires Container(v)
    ensures
      var open := if v.Array? then '[' else '{';
      Render(v) == [open] + Inside(v) + [CloseOf(open)]
  {
  }

  /** From an opening bracket over a neutral inside the scan returns right after the closing bracket. */
  lemma ScanClosesAfter(s: string, n: nat, inner: string, open: char)
    requires Bracket(open, CloseOf(open)) && n + |inner| + 1 < |s|
    requires s[n] == open && s[n + 1..n + 1 + |inner|] == inner && s[n + 1 + |inner|] == CloseOf(open)
    requires Neutral(Scan(1, false, false), inner, open, CloseOf(open))
    ensures ScanEnd(s, n, START, open) == n + |inner| + 2
  {
    ScanPasses(s, n + 1, inner, Scan(1, false, false), open);
    assert Step(START, open, open, CloseOf(open)) == Scan(1, false, false);
  }

  lemma FirstBracketAfter(pre: string, rest: string)
    requires (forall i :: 0 <= i < |pre| ==> !IsOpen(pre[i])) && rest != "" && IsOpen(rest[0])
    ensures FirstBracket(pre + rest) == |pre|
  {
    var s := pre + rest;
    assert forall i :: 0 <= i < |pre| ==> s[i] == pre[i];
    assert s[|pre|] == rest[0];
  }

  lemma FirstValueIsFound(pre: string, v: Value, post: string)
    requires Container(v) && forall i :: 0 <= i < |pre| ==> !IsOpen(pre[i])
    ensures FirstValue(pre + Render(v) + post) == Render(v)
  {
    var text, inner := Render(v), Inside(v);
    var open := if v.Array? then '[' else '{';
    RenderedContainer(v);
    InsideIsNeutralToo(Scan(1, false, false), v, open, CloseOf(open));
    FoundBetween(pre, open, inner, post);
  }

  lemma FoundBetween(pre: string, open: char, inner: string, post: string)
    requires Bracket(open, CloseOf(open)) && forall i :: 0 <= i < |pre| ==> !IsOpen(pre[i])
    requires Neutral(Scan(1, false, false), inner, open, CloseOf(open))
    ensures FirstValue(pre + ([open] + inner + [CloseOf(open)]) + post) == [open] + inner + [CloseOf(open)]
  {
    var text := [open] + inner + [CloseOf(open)];
    var s, n := pre + text + post, |pre|;
    assert s == pre + (text + post);
    FirstBracketAfter(pre, text + post);
    assert s[n + 1..n + 1 + |inner|] == inner;
    ScanClosesAfter(s, n, inner, open);
    assert s[n..n + |text|] == text;
  }

  lemma {:induction false} TrimLeftStops(a: string, w: string) returns (k: nat)
    requires w != "" && !IsSpace(w[0])
    ensures k <= |a| && TrimLeft(a + w) == a[k..] + w
  {
    if a != "" && IsSpace(a[0]) {
      assert (a + w)[1..] == a[1..] + w;
      var j := TrimLeftStops(a[1..], w);
      k := j + 1;
      assert a[1..][j..] == a[k..];
    } else {
      k := 0;
      assert a == "" ==> a + w == w;
      assert a[0..] == a;
    }
  }

  lemma {:induction false} TrimRightStops(w: string, b: string) returns (k: nat)
    requires w != "" && !IsSpace(w[|w| - 1])
    ensures k <= |b| && TrimRight(w + b) == w + b[..k]
  {
    if b != "" && IsSpace(b[|b| - 1]) {
      assert (w + b)[..|w + b| - 1] == w + b[..|b| - 1];
      k := TrimRightStops(w, b[..|b| - 1]);
      assert b[..|b| - 1][..k] == b[..k];
    } else {
      k := |b|;
      assert b == "" ==> w + b == w;
      assert b[..k] == b;
    }
  }

  /** Trimming around a text that needs no trimming keeps it and part of what surrounds it. */
  lemma TrimAround(a: string, w: string, b: string) returns (i: nat, j: nat)
    requires w != "" && Trimmed(w)
    ensures i <= |a| && j <= |b| && TrimSpace(a + w + b) == a[i..] + w + b[..j]
  {
    assert a + w + b == a + (w + b);
    i := TrimLeftStops(a, w + b);
    assert a[i..] + (w + b) == (a[i..] + w) + b;
    j := TrimRightStops(a[i..] + w, b);
  }

  lemma ContainerIsTrimmed(v: Value)
    requires Container(v)
    ensures Render(v) != "" && Trimmed(Render(v)) && Render(v)[|Render(v)| - 1] != '`'
  {
    RenderedContainer(v);
  }

  predicate NoBracket(s: string) {
    forall i :: 0 <= i < |s| ==> s[i] != '[' && s[i] != '{'
  }

  /** No bracket, then the text, then anything. */
  ghost predicate HasFirst(s: string, text: string) {
    exists pre, post :: s == pre + text + post && NoBracket(pre)
  }

  lemma TrimmedHasFirst(s: string, text: string)
    requires text != "" && Trimmed(text) && HasFirst(s, text)
    ensures HasFirst(TrimSpace(s), text)
  {
    var pre, post :| s == pre + text + post && NoBracket(pre);
    var i, j := TrimAround(pre, text, post);
    assert TrimSpace(s) == pre[i..] + text + post[..j] && NoBracket(pre[i..]);
  }

  lemma UntrimmedHasFirst(s: string, text: string)
    requires HasFirst(TrimSpace(s), text)
    ensures HasFirst(s, text)
  {
    var pre, post :| TrimSpace(s) == pre + text + post && NoBracket(pre);
    var a, b := TrimParts(s);
    assert NoBracket(a + pre);
    FiveParts(a, pre, text, post, b);
    assert s == (a + pre) + text + (post + b);
  }

  lemma FiveParts(a: string, b: string, c: string, d: string, e: string)
    ensures a + (b + c + d) + e == (a + b) + c + (d + e)
  {
  }

  /** Trimming makes no difference to which value comes first. */
  lemma HasFirstTrimmed(s: string, v: Value)
    requires Container(v)
    ensures HasFirst(TrimSpace(s), Render(v)) <==> HasFirst(s, Render(v))
  {
    ContainerIsTrimmed(v);
    if HasFirst(s, Render(v)) {
      TrimmedHasFirst(s, Render(v));
    } else if HasFirst(TrimSpace(s), Render(v)) {
      UntrimmedHasFirst(s, Render(v));
    }
  }

  lemma FirstValueIsFirst(s: string)
    requires FirstBracket(s) < |s|
    ensures HasFirst(s, FirstValue(s))
  {
    var start := FirstBracket(s);
    var end := ScanEnd(s, start, START, s[start]);
    FirstBetween(s, start, end);
  }

  lemma FirstBetween(s: string, i: nat, j: nat)
    requires i <= j <= |s| && forall k :: 0 <= k < i ==> !IsOpen(s[k])
    ensures HasFirst(s, s[i..j])
  {
    var pre, text, post := s[..i], s[i..j], s[j..];
    assert s == pre + text + post && NoBracket(pre);
  }

  lemma FirstValueExactlyWhenFirst(s: string, v: Value)
    requires Container(v)
    ensures FirstValue(s) == Render(v) <==> HasFirst(s, Render(v))
  {
    if HasFirst(s, Render(v)) {
      var pre, post :| s == pre + Render(v) + post && NoBracket(pre);
      FirstValueIsFound(pre, v, post);
    } else if FirstValue(s) == Render(v) {
      StartsWithBracket(s, v);
      FirstValueIsFirst(s);
    }
  }

  lemma StartsWithBracket(s: string, v: Value)
    requires Container(v) && FirstValue(s) == Render(v)
    ensures FirstBracket(s) < |s|
  {
    RenderedContainer(v);
    assert IsOpen(Render(v)[0]);
  }

  ghost predicate FirstAt(s: string, i: nat, mark: string) {
    At(s, i, mark) && forall k :: 0 <= k < i ==> !At(s, k, mark)
  }

  /** What follows an opening mark, without the rest of its line when there is another. */
  ghost predicate Below(rest: string, inner: string) {
    if Without(rest, '\n') then inner == rest
    else exists info :: Without(info, '\n') && rest == info + "\n" + inner
  }

  /** `held` lies between the first mark of `s`, with its line, and the first mark after that. */
  ghost predicate Holds(s: string, mark: string, held: string) {
    exists head, rest, inner, tail ::
      && s == head + mark + rest && FirstAt(s, |head|, mark)
      && Below(rest, inner)
      && inner == held + mark + tail && FirstAt(inner, |held|, mark)
  }

  lemma FirstIsIndex(s: string, i: nat, mark: string)
    requires mark != ""
    ensures FirstAt(s, i, mark) <==> IndexFrom(s, 0, mark) == i
  {
    var k := IndexFrom(s, 0, mark);
    if FirstAt(s, i, mark) && k != -1 {
      assert At(s, k, mark);
    }
  }

  lemma BelowIs(rest: string, inner: string)
    ensures Below(rest, inner) <==>
      var nl := IndexFrom(rest, 0, "\n"); inner == if nl >= 0 then rest[nl + 1..] else rest
  {
    var nl := IndexFrom(rest, 0, "\n");
    if Without(rest, '\n') {
      NoNewline(rest);
    } else {
      var k :| 0 <= k < |rest| && rest[k] == '\n';
      assert At(rest, k, "\n");
      var info := rest[..nl];
      forall i | 0 <= i < |info| ensures info[i] != '\n' {
        assert !At(rest, i, "\n");
      }
      assert rest == info + "\n" + rest[nl + 1..];
      if Below(rest, inner) {
        var other :| Without(other, '\n') && rest == other + "\n" + inner;
        NewlineIsFound(other, inner);
        AfterParts(other, "\n", inner);
      }
    }
  }

  lemma HeldExactlyWhen(s: string, held: string)
    ensures Held(s) == Some(held) <==> Holds(s, "```", held)
  {
    if Holds(s, FENCE, held) {
      HoldsIsHeld(s, held);
    } else if Held(s) == Some(held) {
      HeldHolds(s, held);
    }
  }

  lemma HoldsIsHeld(s: string, held: string)
    requires Holds(s, FENCE, held)
    ensures Held(s) == Some(held)
  {
    var head, rest, inner, tail :|
      && s == head + FENCE + rest && FirstAt(s, |head|, FENCE)
      && Below(rest, inner)
      && inner == held + FENCE + tail && FirstAt(inner, |held|, FENCE);
    FirstIsIndex(s, |head|, FENCE);
    AfterParts(head, FENCE, rest);
    BelowIs(rest, inner);
    FirstIsIndex(inner, |held|, FENCE);
    assert inner[..|held|] == held;
  }

  lemma HeldHolds(s: string, held: string)
    requires Held(s) == Some(held)
    ensures Holds(s, FENCE, held)
  {
    var i := IndexFrom(s, 0, FENCE);
    var rest := s[i + 3..];
    var nl := IndexFrom(rest, 0, "\n");
    var inner := if nl >= 0 then rest[nl + 1..] else rest;
    BelowIs(rest, inner);
    var end := IndexFrom(inner, 0, FENCE);
    FirstIsIndex(s, i, FENCE);
    FirstIsIndex(inner, end, FENCE);
    FenceParts(s, i, rest, inner, end, held);
  }

  lemma FenceParts(s: string, i: nat, rest: string, inner: string, end: nat, held: string)
    requires FirstAt(s, i, FENCE) && s[i + 3..] == rest && Below(rest, inner)
    requires FirstAt(inner, end, FENCE) && inner[..end] == held
    ensures Holds(s, FENCE, held)
  {
    var head, tail := s[..i], inner[end + 3..];
    assert s == head + FENCE + rest;
    assert inner == held + FENCE + tail;
  }

  /**
   * Whatever the reply, a value is extracted exactly when it is the first of what lies between the first
   * two marks, or, where a mark is missing, of the reply.
   */
  lemma ExtractsExactlyTheFirst(reply: string, v: Value)
    requires Container(v)
    ensures forall held :: Holds(TrimSpace(reply), "```", held) ==>
      (Extracted(reply) == Render(v) <==> HasFirst(held, Render(v)))
    ensures (forall held :: !Holds(TrimSpace(reply), "```", held)) ==>
      (Extracted(reply) == Render(v) <==> HasFirst(reply, Render(v)))
  {
    var s := TrimSpace(reply);
    FirstValueExactlyWhenFirst(Unfenced(s), v);
    forall held | Holds(s, "```", held)
      ensures Extracted(reply) == Render(v) <==> HasFirst(held, Render(v))
    {
      HeldExactlyWhen(s, held);
      HasFirstTrimmed(held, v);
    }
    if forall held :: !Holds(s, "```", held) {
      if Held(s).Some? {
        HeldExactlyWhen(s, Held(s).value);
      }
      HasFirstTrimmed(reply, v);
    }
  }

  lemma NothingHeldWithoutMark(reply: string)
    requires !Contains(reply, "```")
    ensures forall held :: !Holds(TrimSpace(reply), "```", held)
  {
    var pre, post := TrimParts(reply);
    var s := TrimSpace(reply);
    PartContainsLess(pre, s, post, "```");
    forall head, rest | s == head + "```" + rest
      ensures !At(s, |head|, "```")
    {
    }
  }

  /** With no mark in the reply, its first array or object is extracted whole. */
  lemma ExtractsFromProse(prose: string, v: Value, suffix: string)
    requires Container(v) && NoBracket(prose)
    requires !Contains(prose + Render(v) + suffix, "```")
    ensures Extracted(prose + Render(v) + suffix) == Render(v)
  {
    NothingHeldWithoutMark(prose + Render(v) + suffix);
    ExtractsExactlyTheFirst(prose + Render(v) + suffix, v);
  }

  /** A mark that is opened and never closed changes nothing either, whatever its line says. */
  lemma ExtractsFromAnOpenFence(prose: string, info: string, text: string, v: Value, suffix: string)
    requires Container(v) && NoBracket(prose) && NoBracket(info) && NoBracket(text)
    requires !Contains(prose, "```") && (prose != "" ==> prose[|prose| - 1] != '`') && Without(info, '\n')
    requires !Contains(text + Render(v) + suffix, "```")
    ensures Extracted(prose + "```" + (info + "\n" + (text + Render(v) + suffix))) == Render(v)
  {
    var inner := text + Render(v) + suffix;
    var reply := prose + FENCE + (info + "\n" + inner);
    var before := prose + FENCE + (info + "\n" + text);
    OpenFenceParts(prose, FENCE, info + "\n", text, Render(v), suffix);
    assert NoBracket(before);
    assert reply == before + Render(v) + suffix;
    NothingHeldWhenOpen(prose, info, text, v, suffix);
    ExtractsExactlyTheFirst(reply, v);
  }

  lemma NothingHeldWhenOpen(prose: string, info: string, text: string, v: Value, suffix: string)
    requires Container(v)
    requires !Contains(prose, FENCE) && (prose != "" ==> prose[|prose| - 1] != '`') && Without(info, '\n')
    requires !Contains(text + Render(v) + suffix, FENCE)
    ensures forall held :: !Holds(TrimSpace(prose + FENCE + (info + "\n" + (text + Render(v) + suffix))), FENCE, held)
  {
    ContainerIsTrimmed(v);
    var core := FENCE + (info + "\n" + (text + Render(v)));
    assert core[0] == '`' && core[|core| - 1] == Render(v)[|Render(v)| - 1];
    var i, j := TrimAround(prose, core, suffix);
    var head, inner := prose[i..], text + Render(v) + suffix[..j];
    OpenFenceAround(prose, FENCE, info + "\n", text + Render(v), suffix);
    OpenFenceAround(head, FENCE, info + "\n", text + Render(v), suffix[..j]);
    assert prose[..i] + head + "" == prose;
    PartContainsLess(prose[..i], head, "", FENCE);
    assert text + Render(v) + suffix == "" + inner + suffix[j..];
    PartContainsLess("", inner, suffix[j..], FENCE);
    var s := head + FENCE + (info + "\n" + inner);
    OpenFenceHoldsNothing(head, info, inner);
    assert TrimSpace(prose + FENCE + (info + "\n" + (text + Render(v) + suffix))) == s;
    forall held
      ensures !Holds(s, FENCE, held)
    {
      HeldExactlyWhen(s, held);
    }
  }

  lemma OpenFenceAround(a: string, b: string, c: string, d: string, e: string)
    ensures a + (b + (c + d)) + e == a + b + (c + (d + e))
  {
  }

  lemma OpenFenceHoldsNothing(head: string, info: string, inner: string)
    requires !Contains(head, FENCE) && (head != "" ==> head[|head| - 1] != '`') && Without(info, '\n')
    requires !Contains(inner, FENCE)
    ensures Held(head + FENCE + (info + "\n" + inner)) == None
  {
    var rest := info + "\n" + inner;
    FoundRightAfter(head, FENCE, rest);
    AfterParts(head, FENCE, rest);
    NewlineIsFound(info, inner);
    AfterParts(info, "\n", inner);
    assert IndexFrom(inner, 0, FENCE) == -1;
  }

  lemma OnlyQuietStarts(st: Scan, s: string, n: nat, open: char, close: char)
    requires n <= |s| && Quiet(st, s, open, close)
    ensures Quiet(st, s[..n], open, close)
  {
    assert s == s[..n] + s[n..];
    RunConcat(st, s[..n], s[n..], open, close);
  }

  /** A value that is cut off, so that its last bracket is missing, is given back as far as it goes. */
  lemma ACutOffValueIsKept(prose: string, v: Value, n: nat)
    requires Container(v) && NoBracket(prose) && 0 < n < |Render(v)| && !IsSpace(Render(v)[n - 1])
    requires !Contains(prose + Render(v)[..n], "```")
    ensures Extracted(prose + Render(v)[..n]) == Render(v)[..n]
  {
    var part := Render(v)[..n];
    var reply := prose + part;
    RenderedContainer(v);
    NothingHeldWithoutMark(reply);
    if Held(TrimSpace(reply)).Some? {
      HeldExactlyWhen(TrimSpace(reply), Held(TrimSpace(reply)).value);
    }
    assert reply == prose + part + "";
    var i, j := TrimAround(prose, part, "");
    assert TrimSpace(reply) == prose[i..] + part;
    var open := if v.Array? then '[' else '{';
    InsideIsNeutralToo(Scan(1, false, false), v, open, CloseOf(open));
    OnlyQuietStarts(Scan(1, false, false), Inside(v), n - 1, open, CloseOf(open));
    assert part == [open] + Inside(v)[..n - 1];
    CutOffAfter(prose[i..], open, Inside(v)[..n - 1]);
  }

  lemma CutOffAfter(pre: string, open: char, inner: string)
    requires Bracket(open, CloseOf(open)) && NoBracket(pre)
    requires Quiet(Scan(1, false, false), inner, open, CloseOf(open))
    ensures FirstValue(pre + ([open] + inner)) == [open] + inner
  {
    var s, n := pre + ([open] + inner), |pre|;
    FirstBracketAfter(pre, [open] + inner);
    assert s[n + 1..n + 1 + |inner|] == inner;
    assert Step(START, open, open, CloseOf(open)) == Scan(1, false, false);
    ScanPasses(s, n + 1, inner, Scan(1, false, false), open);
    assert s[n..] == [open] + inner;
  }

  /** A reply without a bracket and without a mark is given back, trimmed. */
  lemma ProseIsKept(reply: string)
    requires NoBracket(reply) && !Contains(reply, "```")
    ensures Extracted(reply) == TrimSpace(reply)
  {
    NothingHeldWithoutMark(reply);
    if Held(TrimSpace(reply)).Some? {
      HeldExactlyWhen(TrimSpace(reply), Held(TrimSpace(reply)).value);
    }
    NoBracketInTrimmed(reply);
  }

  lemma OpenFenceParts(a: string, b: string, c: string, d: string, e: string, f: string)
    ensures a + b + (c + (d + e + f)) == (a + b + (c + d)) + e + f
  {
  }

  /** Inside a single code fence only what the fence holds matters, brackets before it included. */
  lemma ExtractsFromFence(pre: string, info: string, before: string, v: Value, after: string, post: string)
    requires Container(v) && (forall i :: 0 <= i < |before| ==> !IsOpen(before[i]))
    requires !Contains(pre, FENCE) && (pre != "" ==> pre[|pre| - 1] != '`') && Without(info, '\n')
    requires !Contains(before + Render(v) + after, FENCE) && (after != "" ==> after[|after| - 1] != '`')
    ensures Extracted(pre + (FENCE + (info + "\n" + (before + Render(v) + after + FENCE))) + post) == Render(v)
  {
    var held := before + Render(v) + after;
    var block := FENCE + (info + "\n" + (held + FENCE));
    ContainerIsTrimmed(v);
    assert block[0] == '`' && block[|block| - 1] == '`';
    var i, j := TrimAround(pre, block, post);
    var head, tail := pre[i..], post[..j];
    assert pre[..i] + head + "" == pre;
    PartContainsLess(pre[..i], head, "", FENCE);
    FenceIsFound(head, info, held, tail);
    var k, l := TrimAround(before, Render(v), after);
    FirstValueIsFound(before[k..], v, after[..l]);
  }

  lemma Regroup(head: string, mark: string, info: string, nl: string, held: string, tail: string)
    ensures head + (mark + (info + nl + (held + mark))) + tail == head + mark + (info + nl + (held + mark + tail))
  {
    var x := info + nl + (held + mark);
    assert x + tail == info + nl + (held + mark + tail);
    RegroupFour(head, mark, x, tail);
  }

  lemma RegroupFour(a: string, b: string, c: string, d: string)
    ensures a + (b + c) + d == a + b + (c + d)
  {
  }

  lemma FenceIsFound(head: string, info: string, held: string, tail: string)
    requires !Contains(head, FENCE) && (head != "" ==> head[|head| - 1] != '`') && Without(info, '\n')
    requires !Contains(held, FENCE) && (held != "" ==> held[|held| - 1] != '`')
    ensures Unfenced(head + (FENCE + (info + "\n" + (held + FENCE))) + tail) == TrimSpace(held)
  {
    var inner := held + FENCE + tail;
    var rest := info + "\n" + inner;
    Regroup(head, FENCE, info, "\n", held, tail);
    FoundRightAfter(head, FENCE, rest);
    NewlineIsFound(info, inner);
    FoundRightAfter(held, FENCE, tail);
    AfterParts(head, FENCE, rest);
    AfterParts(info, "\n", inner);
    AfterParts("", held, FENCE + tail);
    assert inner[..|held|] == held;
    UnfencedIs(head + FENCE + rest, |head|, rest, |info|, inner, |held|);
  }

  lemma AfterParts(a: string, mark: string, b: string)
    ensures (a + mark + b)[|a| + |mark|..] == b
  {
  }

  lemma UnfencedIs(s: string, i: nat, rest: string, nl: nat, inner: string, end: nat)
    requires IndexFrom(s, 0, FENCE) == i && s[i + 3..] == rest
    requires IndexFrom(rest, 0, "\n") == nl && rest[nl + 1..] == inner && IndexFrom(inner, 0, FENCE) == end
    ensures Unfenced(s) == TrimSpace(inner[..end])
  {
  }

  lemma NewlineIsFound(info: string, inner: string)
    requires Without(info, '\n')
    ensures IndexFrom(info + "\n" + inner, 0, "\n") == |info|
  {
    forall i | 0 <= i <= |info| ensures !At(info, i, "\n") {
      if i < |info| {
        assert info[i..i + 1][0] == info[i];
      }
    }
    FoundRightAfter(info, "\n", inner);
  }

  lemma FencePrevails(o: string, w: string, c: string)
    requires !Contains(o, FENCE) && (o != "" ==> o[|o| - 1] != '`')
    requires !Contains(w, FENCE) && (w != "" ==> w[|w| - 1] != '`') && Without(w, '\n') && Without(c, '\n')
    ensures Unfenced(o + FENCE + (w + FENCE + c)) == TrimSpace(w)
  {
    var tail := w + FENCE + c;
    FoundRightAfter(o, FENCE, tail);
    assert (o + FENCE + tail)[|o| + 3..] == tail;
    FoundRightAfter(w, FENCE, c);
    assert tail[..|w|] == w;
    TailIsOneLine(w, FENCE, c);
    UnfencedOnOneLine(o + FENCE + tail, |o|, tail, |w|);
  }

  lemma TailIsOneLine(a: string, b: string, c: string)
    requires Without(a, '\n') && Without(b, '\n') && Without(c, '\n')
    ensures Without(a + b + c, '\n')
  {
  }

  lemma UnfencedOnOneLine(s: string, i: nat, rest: string, end: nat)
    requires IndexFrom(s, 0, FENCE) == i && s[i + 3..] == rest && Without(rest, '\n')
    requires IndexFrom(rest, 0, FENCE) == end
    ensures Unfenced(s) == TrimSpace(rest[..end])
  {
    NoNewline(rest);
  }

  lemma NoBracketInTrimmed(w: string)
    requires forall i :: 0 <= i < |w| ==> !IsOpen(w[i])
    ensures FirstValue(TrimSpace(w)) == TrimSpace(w)
  {
    var t := TrimSpace(w);
    var pre, post := TrimParts(w);
    assert forall i :: 0 <= i < |t| ==> t[i] == w[|pre| + i];
  }

  /**
   * Why a closed fence is not always the one meant: marks inside a string of the value take over, and
   * the array is lost.
   */
  lemma AFenceInsideAValueWins(w: string)
    requires Without(w, '\n') && Without(w, '`') && forall i :: 0 <= i < |w| ==> !IsOpen(w[i])
    ensures Extracted("[\"" + FENCE + (w + FENCE + "\"]")) == TrimSpace(w)
  {
    var s := "[\"" + FENCE + (w + FENCE + "\"]");
    assert s[0] == '[' && s[|s| - 1] == ']';
    TrimFindsCore("", s, "");
    assert "" + s + "" == s;
    LacksMark("[\"", FENCE);
    LacksMark(w, FENCE);
    FencePrevails("[\"", w, "\"]");
    NoBracketInTrimmed(w);
  }

  lemma LacksMark(s: string, mark: string)
    requires mark != "" && Without(s, mark[0])
    ensures !Contains(s, mark)
  {
    forall i | 0 <= i <= |s| ensures !At(s, i, mark) {
      if i < |s| && i + |mark| <= |s| {
        assert s[i..i + |mark|][0] == s[i];
      }
    }
  }

  lemma NoNewline(s: string)
    requires Without(s, '\n')
    ensures IndexFrom(s, 0, "\n") == -1
  {
    LacksMark(s, "\n");
    assert !At(s, |s|, "\n");
    var k := IndexFrom(s, 0, "\n");
    assert k >= 0 ==> At(s, k, "\n");
  }
}
