// The string operations of the standard library that the text-handling components call: trimming white
// space, decimal numbers, finding a text in another, splitting at a character and joining again, and
// texts as lines. Each comes with the few laws the components need, such as that joining undoes
// splitting, that trimming finds a trimmed core, and where a text that was put in is found again.
module Strings {
  datatype Option<+T> = None | Some(value: T)

  /** What `strings.TrimSpace` trims: Unicode white space. */
  predicate IsSpace(c: char) {
    c in {'\t', '\n', '\U{0B}', '\U{0C}', '\r', ' ', '\U{85}', '\U{A0}', '\U{1680}', '\U{2028}', '\U{2029}', '\U{202F}',
          '\U{205F}', '\U{3000}'}
    || '\U{2000}' <= c <= '\U{200A}'
  }

  /** What `\s` matches in a regular expression: ASCII white space without the vertical tab. */
  predicate IsRegexSpace(c: char) {
    c in {'\t', '\n', '\U{0C}', '\r', ' '}
  }

  /** The characters with the Unicode property White_Space, by their codes, and those of them in ASCII. */
  lemma WhiteSpaceCodes(c: char)
    ensures IsSpace(c) <==>
      var code := c as int;
      || 9 <= code <= 13 || code == 32 || code == 133 || code == 160 || code == 5760 || 8192 <= code <= 8202
      || code == 8232 || code == 8233 || code == 8239 || code == 8287 || code == 12288
    ensures IsRegexSpace(c) <==> IsSpace(c) && c as int < 128 && c as int != 11
  {
  }

  predicate AllSpace(s: string) {
    forall i :: 0 <= i < |s| ==> IsSpace(s[i])
  }

  /** Nothing for `TrimSpace` to remove. */
  predicate Trimmed(s: string) {
    s != "" ==> !IsSpace(s[0]) && !IsSpace(s[|s| - 1])
  }

  function TrimLeft(s: string): string {
    if s != "" && IsSpace(s[0]) then TrimLeft(s[1..]) else s
  }

  function TrimRight(s: string): string {
    if s != "" && IsSpace(s[|s| - 1]) then TrimRight(s[..|s| - 1]) else s
  }

  function TrimSpace(s: string): string {
    TrimRight(TrimLeft(s))
  }

  lemma {:induction false} TrimLeftSkips(pre: string, s: string)
    requires AllSpace(pre)
    ensures TrimLeft(pre + s) == TrimLeft(s)
  {
    if pre == "" {
      assert pre + s == s;
    } else {
      assert (pre + s)[1..] == pre[1..] + s;
      TrimLeftSkips(pre[1..], s);
    }
  }

  lemma {:induction false} TrimRightSkips(s: string, post: string)
    requires AllSpace(post)
    ensures TrimRight(s + post) == TrimRight(s)
  {
    if post == "" {
      assert s + post == s;
    } else {
      assert (s + post)[..|s + post| - 1] == s + post[..|post| - 1];
      TrimRightSkips(s, post[..|post| - 1]);
    }
  }

  /** Trimming takes white space off both ends and nothing else. */
  lemma TrimFindsCore(pre: string, s: string, post: string)
    requires AllSpace(pre) && AllSpace(post) && Trimmed(s) && s != ""
    ensures TrimSpace(pre + s + post) == s
  {
    assert pre + s + post == pre + (s + post);
    TrimLeftSkips(pre, s + post);
    TrimRightSkips(s, post);
  }

  lemma {:induction false} TrimLeftParts(s: string) returns (pre: string)
    ensures AllSpace(pre) && s == pre + TrimLeft(s)
    ensures TrimLeft(s) != "" ==> !IsSpace(TrimLeft(s)[0])
  {
    if s != "" && IsSpace(s[0]) {
      var p := TrimLeftParts(s[1..]);
      pre := [s[0]] + p;
    } else {
      pre := "";
    }
  }

  lemma {:induction false} TrimRightParts(s: string) returns (post: string)
    ensures AllSpace(post) && s == TrimRight(s) + post
    ensures TrimRight(s) != "" ==> !IsSpace(TrimRight(s)[|TrimRight(s)| - 1])
  {
    if s != "" && IsSpace(s[|s| - 1]) {
      var p := TrimRightParts(s[..|s| - 1]);
      post := p + [s[|s| - 1]];
    } else {
      post := "";
    }
  }

  /** Every string is its trimmed core between two runs of white space. */
  lemma TrimParts(s: string) returns (pre: string, post: string)
    ensures AllSpace(pre) && AllSpace(post) && s == pre + TrimSpace(s) + post && Trimmed(TrimSpace(s))
  {
    pre := TrimLeftParts(s);
    post := TrimRightParts(TrimLeft(s));
    var core := TrimSpace(s);
    if core != "" {
      assert TrimLeft(s)[0] == core[0];
    }
  }

  // ----- decimal numbers

  predicate IsDigits(s: string) {
    s != "" && forall i :: 0 <= i < |s| ==> '0' <= s[i] <= '9'
  }

  function Digits(s: string): nat
    requires forall i :: 0 <= i < |s| ==> '0' <= s[i] <= '9'
  {
    if s == "" then 0 else Digits(s[..|s| - 1]) * 10 + (s[|s| - 1] as int - '0' as int)
  }

  function Itoa(n: nat): (s: string)
    ensures IsDigits(s)
  {
    (if n < 10 then "" else Itoa(n / 10)) + [(n % 10 + '0' as int) as char]
  }

  lemma {:induction false} DigitsOfItoa(n: nat)
    ensures Digits(Itoa(n)) == n
  {
    var s := Itoa(n);
    assert s[..|s| - 1] == if n < 10 then "" else Itoa(n / 10);
    if n >= 10 {
      DigitsOfItoa(n / 10);
    }
  }

  // ----- searching

  predicate At(s: string, i: nat, pat: string) {
    i + |pat| <= |s| && s[i..i + |pat|] == pat
  }

  predicate Contains(s: string, pat: string) {
    exists i :: 0 <= i <= |s| && At(s, i, pat)
  }

  /** The first occurrence of `pat` at or after `from`, or -1. */
  function IndexFrom(s: string, from: nat, pat: string): (k: int)
    ensures k == -1 || (from <= k <= |s| && At(s, k, pat))
    ensures k == -1 ==> forall i: nat :: from <= i ==> !At(s, i, pat)
    ensures k != -1 ==> forall i: nat :: from <= i < k ==> !At(s, i, pat)
    decreases |s| - from
  {
    if from > |s| then -1
    else if At(s, from, pat) then from
    else IndexFrom(s, from + 1, pat)
  }

  // ----- splitting and joining at one character

  predicate Without(s: string, c: char) {
    forall i :: 0 <= i < |s| ==> s[i] != c
  }

  function Split(s: string, c: char): (parts: seq<string>)
    ensures |parts| > 0
  {
    if s == "" then [""]
    else
      var rest := Split(s[1..], c);
      if s[0] == c then [""] + rest else [[s[0]] + rest[0]] + rest[1..]
  }

  function Join(parts: seq<string>, c: char): string {
    if parts == [] then ""
    else if |parts| == 1 then parts[0]
    else parts[0] + [c] + Join(parts[1..], c)
  }

  lemma {:induction false} SplitParts(s: string, c: char)
    ensures forall i :: 0 <= i < |Split(s, c)| ==> Without(Split(s, c)[i], c)
  {
    if s != "" {
      SplitParts(s[1..], c);
    }
  }

  lemma {:induction false} JoinSplit(s: string, c: char)
    ensures Join(Split(s, c), c) == s
  {
    if s != "" {
      JoinSplit(s[1..], c);
      var rest := Split(s[1..], c);
      if s[0] == c {
        assert ([""] + rest)[1..] == rest;
      } else {
        var parts := [[s[0]] + rest[0]] + rest[1..];
        assert parts[1..] == rest[1..];
      }
    }
  }

  lemma {:induction false} SplitJoin(parts: seq<string>, c: char)
    requires |parts| > 0 && forall p :: p in parts ==> Without(p, c)
    ensures Split(Join(parts, c), c) == parts
  {
    if |parts| == 1 {
      SplitPrefix(parts[0], "", c);
      assert parts[0] + "" == parts[0];
      assert parts[0] in parts;
    } else {
      assert parts[0] in parts;
      SplitJoin(parts[1..], c);
      SplitPrefix(parts[0], [c] + Join(parts[1..], c), c);
      assert parts[0] + ([c] + Join(parts[1..], c)) == Join(parts, c);
      assert ([c] + Join(parts[1..], c))[1..] == Join(parts[1..], c);
      assert ([""] + parts[1..])[1..] == parts[1..];
      assert parts[0] + "" == parts[0];
    }
  }

  /** A separator-free prefix only lengthens the first part. */
  lemma {:induction false} SplitPrefix(p: string, s: string, c: char)
    requires Without(p, c)
    ensures Split(p + s, c) == [p + Split(s, c)[0]] + Split(s, c)[1..]
  {
    if p == "" {
      assert p + s == s;
      assert p + Split(s, c)[0] == Split(s, c)[0];
    } else {
      assert (p + s)[1..] == p[1..] + s;
      SplitPrefix(p[1..], s, c);
      assert [p[0]] + (p[1..] + Split(s, c)[0]) == p + Split(s, c)[0];
    }
  }

  /** Splitting a text at a separator splits its two sides. */
  lemma {:induction false} SplitConcat(a: string, b: string, c: char)
    ensures Split(a + [c] + b, c) == Split(a, c) + Split(b, c)
  {
    if a == "" {
      assert a + [c] + b == [c] + b;
      SplitCons(c, b, c);
    } else {
      var whole := a + [c] + b;
      assert whole == [a[0]] + (a[1..] + [c] + b);
      assert a == [a[0]] + a[1..];
      SplitConcat(a[1..], b, c);
      SplitCons(a[0], a[1..] + [c] + b, c);
      SplitCons(a[0], a[1..], c);
      FirstPartGrows(a[0], Split(a[1..], c), Split(b, c));
    }
  }

  /** One more character in front makes a new part or lengthens the first. */
  lemma SplitCons(x: char, s: string, c: char)
    ensures Split([x] + s, c)
         == if x == c then [""] + Split(s, c) else [[x] + Split(s, c)[0]] + Split(s, c)[1..]
  {
    assert ([x] + s)[1..] == s;
  }

  lemma FirstPartGrows(x: char, parts: seq<string>, more: seq<string>)
    requires parts != []
    ensures [[x] + (parts + more)[0]] + (parts + more)[1..] == ([[x] + parts[0]] + parts[1..]) + more
    ensures [""] + (parts + more) == ([""] + parts) + more
  {
    assert (parts + more)[1..] == parts[1..] + more;
  }

  lemma {:induction false} JoinConcat(a: seq<string>, b: seq<string>, c: char)
    requires a != [] && b != []
    ensures Join(a + b, c) == Join(a, c) + [c] + Join(b, c)
  {
    if |a| == 1 {
      assert (a + b)[1..] == b;
    } else {
      assert (a + b)[1..] == a[1..] + b;
      JoinConcat(a[1..], b, c);
      assert a[0] + [c] + (Join(a[1..], c) + [c] + Join(b, c)) == Join(a, c) + [c] + Join(b, c);
    }
  }

  // ----- lines

  /** Every line followed by a newline, which is what a builder appends. */
  function Unlines(lines: seq<string>): string {
    if lines == [] then "" else lines[0] + "\n" + Unlines(lines[1..])
  }

  lemma {:induction false} UnlinesConcat(a: seq<string>, b: seq<string>)
    ensures Unlines(a + b) == Unlines(a) + Unlines(b)
  {
    if a == [] {
      assert a + b == b;
    } else {
      assert (a + b)[1..] == a[1..] + b;
      UnlinesConcat(a[1..], b);
    }
  }

  lemma {:induction false} UnlinesIsJoin(lines: seq<string>)
    ensures lines != [] ==> Unlines(lines) == Join(lines, '\n') + "\n"
    ensures Unlines(lines) == Join(lines + [""], '\n')
  {
    if lines != [] {
      UnlinesIsJoin(lines[1..]);
      assert (lines + [""])[1..] == lines[1..] + [""];
      if |lines| > 1 {
        assert lines[0] + "\n" + (Join(lines[1..], '\n') + "\n") == lines[0] + "\n" + Join(lines[1..], '\n') + "\n";
      }
    }
  }

  predicate OneLiners(lines: seq<string>) {
    forall i :: 0 <= i < |lines| ==> Without(lines[i], '\n')
  }

  /** Splitting what was written line by line gives back the lines and an empty last one. */
  lemma SplitUnlines(lines: seq<string>)
    requires OneLiners(lines)
    ensures Split(Unlines(lines), '\n') == lines + [""]
  {
    UnlinesIsJoin(lines);
    SplitJoin(lines + [""], '\n');
  }

  // ----- occurrences and separators

  lemma NoOccurrenceOver(s: string, i: nat, pat: string, k: nat)
    requires i <= k < i + |pat| && k < |s| && s[k] !in pat
    ensures !At(s, i, pat)
  {
    if i + |pat| <= |s| {
      assert s[i..i + |pat|][k - i] == s[k];
    }
  }

  lemma AtInPart(a: string, m: string, b: string, i: nat, pat: string)
    requires i + |pat| <= |m|
    ensures At(a + m + b, |a| + i, pat) <==> At(m, i, pat)
  {
    assert (a + m + b)[|a| + i..|a| + i + |pat|] == m[i..i + |pat|];
  }

  /** A pattern that avoids `c` does not occur across a `c`. */
  lemma NoOccurrenceAcross(a: string, c: char, b: string, pat: string)
    requires c !in pat && pat != "" && !Contains(a, pat) && !Contains(b, pat)
    ensures !Contains(a + [c] + b, pat)
  {
    var s := a + [c] + b;
    forall i | 0 <= i <= |s| ensures !At(s, i, pat) {
      if i <= |a| < i + |pat| {
        NoOccurrenceOver(s, i, pat, |a|);
      } else if i + |pat| <= |a| {
        AtInPart("", a, [c] + b, i, pat);
        assert "" + a + ([c] + b) == s;
      } else if i + |pat| <= |s| {
        AtInPart(a + [c], b, "", i - |a| - 1, pat);
        assert (a + [c]) + b + "" == s;
      }
    }
  }

  /** Where the text before it lacks a pattern and ends in a character the pattern avoids, it is found first. */
  lemma FoundRightAfter(pre: string, pat: string, post: string)
    requires pat != "" && !Contains(pre, pat) && (pre != "" ==> pre[|pre| - 1] !in pat)
    ensures IndexFrom(pre + pat + post, 0, pat) == |pre|
  {
    var s := pre + pat + post;
    assert s[|pre|..|pre| + |pat|] == pat;
    assert At(s, |pre|, pat);
    forall i | 0 <= i < |pre| ensures !At(s, i, pat) {
      if i + |pat| <= |pre| {
        AtInPart("", pre, pat + post, i, pat);
        assert "" + pre + (pat + post) == s;
      } else {
        NoOccurrenceOver(s, i, pat, |pre| - 1);
      }
    }
  }

  /** Searching from inside a text is searching its suffix. */
  lemma {:induction false} IndexInSuffix(a: string, b: string, from: nat, pat: string)
    ensures IndexFrom(a + b, |a| + from, pat)
            == (if IndexFrom(b, from, pat) < 0 then -1 else |a| + IndexFrom(b, from, pat))
    decreases |b| - from
  {
    if from <= |b| {
      assert At(a + b, |a| + from, pat) <==> At(b, from, pat) by {
        if from + |pat| <= |b| {
          AtInPart(a, b, "", from, pat);
          assert a + b + "" == a + b;
        }
      }
      IndexInSuffix(a, b, from + 1, pat);
    }
  }

  /** A part of a text contains no more than the text. */
  lemma PartContainsLess(a: string, m: string, b: string, pat: string)
    requires !Contains(a + m + b, pat)
    ensures !Contains(m, pat)
  {
    forall i | 0 <= i <= |m| ensures !At(m, i, pat) {
      if i + |pat| <= |m| {
        AtInPart(a, m, b, i, pat);
      }
    }
  }
}
