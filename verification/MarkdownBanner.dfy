// Where the importer finds an export's banner in a text made of lines: nowhere, when no line holds one and no line
// that ends in an opening comment mark is followed by one that could complete it. Trimming adds none either.
module MarkdownBanner {
  import opened Strings
  import opened MarkdownImport

  const NAME := "dkm-export"

  predicate NoBanner(s: string) {
    forall k :: 0 <= k <= |s| && At(s, k, OPEN) ==> !BannerAt(s, k)
  }

  /** An opening comment mark with nothing but white space after it. */
  predicate OpensAtEnd(line: string) {
    exists k :: 0 <= k <= |line| && At(line, k, OPEN) && SkipRegexSpaces(line, k + 4) == |line|
  }

  /** A line that does not continue a mark left at the end of the line before. */
  predicate StartsOtherwise(line: string) {
    line != "" && !IsRegexSpace(line[0]) && line[0] != 'd'
  }

  predicate Harmless(lines: seq<string>) {
    forall i :: 0 <= i < |lines| ==>
      NoBanner(lines[i]) && (OpensAtEnd(lines[i]) && i + 1 < |lines| ==> StartsOtherwise(lines[i + 1]))
  }

  // ----- what the search finds

  lemma {:induction false} NoBannerIsFound(s: string, from: nat)
    requires NoBanner(s)
    ensures !HasBanner(s, from)
    decreases |s| - from
  {
    var k := IndexFrom(s, from, OPEN);
    if k >= 0 {
      NoBannerIsFound(s, k + 1);
    }
  }

  lemma {:induction false} NoneIsThere(s: string, from: nat, k: nat)
    requires !HasBanner(s, from) && from <= k && At(s, k, OPEN)
    ensures !BannerAt(s, k)
    decreases |s| - from
  {
    var first := IndexFrom(s, from, OPEN);
    if first < k {
      NoneIsThere(s, first + 1, k);
    }
  }

  lemma Mismatch(s: string, i: nat, pat: string, k: nat)
    requires k < |pat| && i + k < |s| && s[i + k] != pat[k]
    ensures !At(s, i, pat)
  {
    if i + |pat| <= |s| {
      assert s[i..i + |pat|][k] == s[i + k];
    }
  }

  // ----- white space and patterns in parts of a text

  lemma AtInSuffix(a: string, b: string, i: nat, pat: string)
    ensures At(a + b, |a| + i, pat) <==> At(b, i, pat)
  {
    if i + |pat| <= |b| {
      AtInPart(a, b, "", i, pat);
      assert a + b + "" == a + b;
    }
  }

  lemma AtInPrefix(a: string, b: string, i: nat, pat: string)
    requires i + |pat| <= |a|
    ensures At(a + b, i, pat) <==> At(a, i, pat)
  {
    AtInPart("", a, b, i, pat);
    assert "" + a + b == a + b;
  }

  lemma {:induction false} SkipInSuffix(a: string, b: string, i: nat)
    requires i <= |b|
    ensures SkipRegexSpaces(a + b, |a| + i) == |a| + SkipRegexSpaces(b, i)
    decreases |b| - i
  {
    if i < |b| && IsRegexSpace(b[i]) {
      SkipInSuffix(a, b, i + 1);
    }
  }

  lemma {:induction false} SkipInPrefix(a: string, b: string, i: nat)
    requires i <= |a|
    ensures SkipRegexSpaces(a + b, i)
         == if SkipRegexSpaces(a, i) < |a| then SkipRegexSpaces(a, i) else |a| + SkipRegexSpaces(b, 0)
    decreases |a| - i
  {
    if i == |a| {
      SkipInSuffix(a, b, 0);
    } else if IsRegexSpace(a[i]) {
      SkipInPrefix(a, b, i + 1);
    }
  }

  // ----- banners in parts of a text

  lemma BannerInSuffix(a: string, b: string, k: nat)
    requires At(b, k, OPEN)
    ensures At(a + b, |a| + k, OPEN) && (BannerAt(a + b, |a| + k) <==> BannerAt(b, k))
  {
    AtInSuffix(a, b, k, OPEN);
    SkipInSuffix(a, b, k + 4);
    AtInSuffix(a, b, SkipRegexSpaces(b, k + 4), NAME);
  }

  /** A banner that starts in a line and has its name there ends there. */
  lemma BannerInLine(line: string, rest: string, k: nat)
    requires At(line, k, OPEN) && SkipRegexSpaces(line, k + 4) < |line|
    ensures At(line + ("\n" + rest), k, OPEN)
    ensures BannerAt(line + ("\n" + rest), k) ==> BannerAt(line, k)
  {
    var s, j := line + ("\n" + rest), SkipRegexSpaces(line, k + 4);
    AtInPrefix(line, "\n" + rest, k, OPEN);
    SkipInPrefix(line, "\n" + rest, k + 4);
    if j + 10 <= |line| {
      AtInPrefix(line, "\n" + rest, j, NAME);
    } else {
      NoNewlineInName();
      NoOccurrenceOver(s, j, NAME, |line|);
    }
  }

  lemma NoNewlineInName()
    ensures '\n' !in NAME && '\n' !in OPEN && NAME[0] == 'd' && |NAME| == 10
  {
  }

  lemma NoBannerAcross(line: string, rest: string, k: nat)
    requires At(line, k, OPEN) && SkipRegexSpaces(line, k + 4) == |line|
    requires rest == "" || StartsOtherwise(rest)
    ensures At(line + ("\n" + rest), k, OPEN) && !BannerAt(line + ("\n" + rest), k)
  {
    var s := line + ("\n" + rest);
    AtInPrefix(line, "\n" + rest, k, OPEN);
    SkipInPrefix(line, "\n" + rest, k + 4);
    SkipInSuffix("\n", rest, 0);
    assert SkipRegexSpaces("\n" + rest, 0) == SkipRegexSpaces("\n" + rest, 1) == 1;
    NoNewlineInName();
    var j := |line| + 1;
    if rest != "" {
      Mismatch(s, j, NAME, 0);
    }
  }

  // ----- lines

  lemma {:induction false} UnlinesHaveNoBanner(lines: seq<string>)
    requires Harmless(lines)
    ensures NoBanner(Unlines(lines))
  {
    if lines != [] {
      var line, rest := lines[0], Unlines(lines[1..]);
      assert Harmless(lines[1..]) by {
        assert forall i :: 0 <= i < |lines[1..]| ==> lines[1..][i] == lines[i + 1];
      }
      UnlinesHaveNoBanner(lines[1..]);
      assert Unlines(lines) == line + ("\n" + rest);
      assert |lines| > 1 ==> rest == lines[1] + "\n" + Unlines(lines[1..][1..]);
      OneMoreLine(line, rest);
    } else {
      assert Unlines(lines) == "";
    }
  }

  lemma OneMoreLine(line: string, rest: string)
    requires NoBanner(line) && NoBanner(rest)
    requires OpensAtEnd(line) ==> rest == "" || StartsOtherwise(rest)
    ensures NoBanner(line + ("\n" + rest))
  {
    var s := line + ("\n" + rest);
    forall k | 0 <= k <= |s| && At(s, k, OPEN)
      ensures !BannerAt(s, k)
    {
      NoNewlineInName();
      if k + 4 <= |line| {
        AtInPrefix(line, "\n" + rest, k, OPEN);
        if SkipRegexSpaces(line, k + 4) < |line| {
          BannerInLine(line, rest, k);
        } else {
          NoBannerAcross(line, rest, k);
        }
      } else if k <= |line| {
        NoOccurrenceOver(s, k, OPEN, |line|);
      } else {
        AtInSuffix(line + "\n", rest, k - |line| - 1, OPEN);
        assert s == (line + "\n") + rest;
        BannerInSuffix(line + "\n", rest, k - |line| - 1);
      }
    }
  }

  lemma HarmlessConcat(a: seq<string>, b: seq<string>)
    requires Harmless(a) && Harmless(b)
    requires a != [] && b != [] && OpensAtEnd(a[|a| - 1]) ==> StartsOtherwise(b[0])
    ensures Harmless(a + b)
  {
  }

  lemma HarmlessPrefix(lines: seq<string>, n: nat)
    requires Harmless(lines) && n <= |lines|
    ensures Harmless(lines[..n])
  {
  }

  lemma WithoutMarkIsHarmless(line: string)
    requires !Contains(line, OPEN)
    ensures NoBanner(line) && !OpensAtEnd(line)
  {
  }

  /** White space around a text makes no difference. */
  lemma TrimmedHasNoBanner(s: string)
    requires NoBanner(s)
    ensures NoBanner(TrimSpace(s))
  {
    var pre, post := TrimParts(s);
    var t := TrimSpace(s);
    forall k | 0 <= k <= |t| && At(t, k, OPEN)
      ensures !BannerAt(t, k)
    {
      BannerBeforeSpace(t, post, k);
      BannerInSuffix(pre, t + post, k);
      assert s == pre + (t + post);
    }
  }

  lemma BannerBeforeSpace(t: string, post: string, k: nat)
    requires AllSpace(post) && At(t, k, OPEN)
    ensures At(t + post, k, OPEN) && (BannerAt(t, k) ==> BannerAt(t + post, k))
  {
    AtInPrefix(t, post, k, OPEN);
    if BannerAt(t, k) {
      var j := SkipRegexSpaces(t, k + 4);
      SkipInPrefix(t, post, k + 4);
      AtInPrefix(t, post, j, NAME);
      assert j + 10 == |t| && post != "" ==> IsSpace(post[0]) && (t + post)[j + 10] == post[0];
    }
  }
}
