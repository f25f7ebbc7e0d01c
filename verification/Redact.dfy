// Which of the overlapping secrets in a text are removed.
module Redact {
  // What each rule matches is taken as given.

  datatype Match = Match(lo: int, hi: int)

  /** A rule with everything it matches; a group that took no part in a match has negative bounds. */
  datatype Rule = Rule(kind: string, matches: seq<Match>)

  datatype Span = Span(start: nat, end: nat, kind: string, rank: nat)

  datatype Finding = Finding(kind: string, offset: nat, length: nat, line: nat, column: nat)

  ghost predicate WithinText(rules: seq<Rule>, s: string) {
    forall i, k :: 0 <= i < |rules| && 0 <= k < |rules[i].matches| ==> rules[i].matches[k].hi <= |s|
  }

  // ----- the candidates -----

  predicate Counts(m: Match) {
    m.lo >= 0 && m.hi > m.lo
  }

  function AsSpan(m: Match, kind: string, rank: nat): Span
    requires Counts(m)
  {
    Span(m.lo, m.hi, kind, rank)
  }

  ghost predicate IsCandidate(rules: seq<Rule>, c: Span) {
    exists k ::
      c.rank < |rules| && 0 <= k < |rules[c.rank].matches| && Counts(rules[c.rank].matches[k])
      && c == AsSpan(rules[c.rank].matches[k], rules[c.rank].kind, c.rank)
  }

  /** Every match that counts, as a span. */
  ghost function Candidates(rules: seq<Rule>): set<Span> {
    set i, k | 0 <= i < |rules| && 0 <= k < |rules[i].matches| && Counts(rules[i].matches[k])
      :: AsSpan(rules[i].matches[k], rules[i].kind, i)
  }

  lemma CandidatesAreTheMatches(rules: seq<Rule>)
    ensures forall c :: c in Candidates(rules) <==> IsCandidate(rules, c)
  {
    forall c | IsCandidate(rules, c)
      ensures c in Candidates(rules)
    {
      var k :| 0 <= k < |rules[c.rank].matches| && Counts(rules[c.rank].matches[k])
               && c == AsSpan(rules[c.rank].matches[k], rules[c.rank].kind, c.rank);
    }
  }

  /** A candidate is a match of a rule that holds something, wherever it starts. */
  lemma CandidateExactlyWhen(rules: seq<Rule>, c: Span)
    ensures c in Candidates(rules) <==>
      && c.rank < |rules| && c.kind == rules[c.rank].kind
      && c.start < c.end && Match(c.start, c.end) in rules[c.rank].matches
  {
    CandidatesAreTheMatches(rules);
    if c.rank < |rules| && c.kind == rules[c.rank].kind && c.start < c.end
        && Match(c.start, c.end) in rules[c.rank].matches {
      var k :| 0 <= k < |rules[c.rank].matches| && rules[c.rank].matches[k] == Match(c.start, c.end);
      assert Counts(rules[c.rank].matches[k]);
    }
  }

  lemma CandidatesAreProper(rules: seq<Rule>, s: string)
    requires WithinText(rules, s)
    ensures Proper(Candidates(rules), rules)
    ensures forall c :: c in Candidates(rules) ==> c.end <= |s|
  {
  }

  ghost predicate AreCandidates(rules: seq<Rule>, all: seq<Span>) {
    forall c :: c in all <==> IsCandidate(rules, c)
  }

  // ----- which candidate goes first -----

  /** The earlier start first, then the longer, then the rule listed first. */
  predicate Before(a: Span, b: Span) {
    if a.start != b.start then a.start < b.start
    else if a.end != b.end then a.end > b.end
    else a.rank < b.rank
  }

  ghost predicate InOrder(all: seq<Span>) {
    forall i, j :: 0 <= i < j < |all| ==> !Before(all[j], all[i])
  }

  function Placed(c: Span, sorted: seq<Span>): seq<Span> {
    if sorted == [] || !Before(sorted[0], c) then [c] + sorted else [sorted[0]] + Placed(c, sorted[1..])
  }

  function Sorted(all: seq<Span>): seq<Span> {
    if all == [] then [] else Placed(all[0], Sorted(all[1..]))
  }

  lemma {:induction false} PlacedKeepsOrder(c: Span, sorted: seq<Span>)
    requires InOrder(sorted)
    ensures InOrder(Placed(c, sorted))
    ensures multiset(Placed(c, sorted)) == multiset(sorted) + multiset{c}
  {
    if sorted != [] {
      assert sorted == [sorted[0]] + sorted[1..];
      if Before(sorted[0], c) {
        PlacedKeepsOrder(c, sorted[1..]);
        HeadStaysFirst(sorted[0], c, sorted[1..], Placed(c, sorted[1..]));
      }
    }
  }

  lemma HeadStaysFirst(head: Span, c: Span, rest: seq<Span>, placed: seq<Span>)
    requires InOrder([head] + rest) && Before(head, c)
    requires multiset(placed) == multiset(rest) + multiset{c} && InOrder(placed)
    ensures InOrder([head] + placed)
  {
    forall k | 0 <= k < |placed|
      ensures !Before(placed[k], head)
    {
      assert placed[k] in multiset(placed);
      if placed[k] != c {
        var m :| 0 <= m < |rest| && rest[m] == placed[k];
        assert !Before(([head] + rest)[m + 1], ([head] + rest)[0]);
      }
    }
  }

  lemma {:induction false} SortedIsInOrder(all: seq<Span>)
    ensures InOrder(Sorted(all)) && multiset(Sorted(all)) == multiset(all)
  {
    if all != [] {
      SortedIsInOrder(all[1..]);
      PlacedKeepsOrder(all[0], Sorted(all[1..]));
      assert all == [all[0]] + all[1..];
    }
  }

  // ----- which candidates are kept -----

  function EndOf(kept: seq<Span>): nat {
    if kept == [] then 0 else kept[|kept| - 1].end
  }

  /** The first, in order, of the candidates that start at `from` or later. */
  ghost predicate IsFirst(c: Span, candidates: set<Span>, from: nat) {
    && c in candidates && c.start >= from
    && forall d :: d in candidates && d.start >= from ==> !Before(d, c)
  }

  /** Each span kept is the first, in order, of the candidates that start no earlier than the span
      before it ends; no candidate starts after the last one ends. */
  ghost predicate Resolves(kept: seq<Span>, candidates: set<Span>) {
    && (forall i :: 0 <= i < |kept| ==> IsFirst(kept[i], candidates, EndOf(kept[..i])))
    && (forall c :: c in candidates ==> c.start < EndOf(kept))
  }

  ghost predicate Proper(candidates: set<Span>, rules: seq<Rule>) {
    forall c :: c in candidates ==> c.start < c.end && c.rank < |rules| && c.kind == rules[c.rank].kind
  }

  /** There is one way to resolve the overlaps, whatever order the matches are found in. */
  lemma ResolutionIsUnique(a: seq<Span>, b: seq<Span>, candidates: set<Span>, rules: seq<Rule>)
    requires Resolves(a, candidates) && Resolves(b, candidates) && Proper(candidates, rules)
    ensures a == b
  {
    SameSoFar(a, b, candidates, rules, |a|);
    SameSoFar(b, a, candidates, rules, |b|);
    assert a[..|a|] == a && b[..|b|] == b;
  }

  lemma {:induction false} SameSoFar(a: seq<Span>, b: seq<Span>, candidates: set<Span>, rules: seq<Rule>, n: nat)
    requires Resolves(a, candidates) && Resolves(b, candidates) && Proper(candidates, rules) && n <= |a|
    ensures n <= |b| && a[..n] == b[..n]
  {
    if n > 0 {
      SameSoFar(a, b, candidates, rules, n - 1);
      NextAgrees(a, b, candidates, rules, n - 1);
      LongerPrefix(a, b, n - 1);
    }
  }

  lemma LongerPrefix(a: seq<Span>, b: seq<Span>, n: nat)
    requires n < |a| && n < |b| && a[..n] == b[..n] && a[n] == b[n]
    ensures a[..n + 1] == b[..n + 1]
  {
  }

  lemma NextAgrees(a: seq<Span>, b: seq<Span>, candidates: set<Span>, rules: seq<Rule>, n: nat)
    requires Resolves(a, candidates) && Resolves(b, candidates) && Proper(candidates, rules)
    requires n < |a| && n <= |b| && a[..n] == b[..n]
    ensures n < |b| && a[n] == b[n]
  {
    var from := EndOf(a[..n]);
    NthIsFirst(a, candidates, n);
    MoreIsKept(b, candidates, n, a[n]);
    NthIsFirst(b, candidates, n);
    OneFirst(a[n], b[n], candidates, rules, from);
  }

  lemma NthIsFirst(kept: seq<Span>, candidates: set<Span>, n: nat)
    requires Resolves(kept, candidates) && n < |kept|
    ensures IsFirst(kept[n], candidates, EndOf(kept[..n]))
  {
  }

  lemma MoreIsKept(kept: seq<Span>, candidates: set<Span>, n: nat, c: Span)
    requires Resolves(kept, candidates) && n <= |kept|
    requires c in candidates && c.start >= EndOf(kept[..n])
    ensures n < |kept|
  {
    assert kept[..|kept|] == kept;
  }

  lemma OneFirst(a: Span, b: Span, candidates: set<Span>, rules: seq<Rule>, from: nat)
    requires Proper(candidates, rules) && IsFirst(a, candidates, from) && IsFirst(b, candidates, from)
    ensures a == b
  {
  }

  /** Kept spans stand in order and do not overlap. */
  lemma {:induction false} KeptAreDisjoint(kept: seq<Span>, candidates: set<Span>, rules: seq<Rule>, i: nat, j: nat)
    requires Resolves(kept, candidates) && Proper(candidates, rules) && i < j < |kept|
    ensures kept[i].start < kept[i].end <= kept[j].start
    decreases j
  {
    NextStartsAfter(kept, candidates, rules, j);
    if i < j - 1 {
      KeptAreDisjoint(kept, candidates, rules, i, j - 1);
    }
  }

  lemma NextStartsAfter(kept: seq<Span>, candidates: set<Span>, rules: seq<Rule>, j: nat)
    requires Resolves(kept, candidates) && Proper(candidates, rules) && 0 < j < |kept|
    ensures kept[j - 1].start < kept[j - 1].end <= kept[j].start && kept[j].start < kept[j].end
  {
    NthIsFirst(kept, candidates, j - 1);
    NthIsFirst(kept, candidates, j);
  }

  /** Every candidate starts inside a kept span that no candidate starting there goes before. */
  lemma {:induction false} EveryCandidateStartsInside(kept: seq<Span>, candidates: set<Span>, c: Span, n: nat)
    returns (k: nat)
    requires Resolves(kept, candidates) && c in candidates
    requires n <= |kept| && c.start < EndOf(kept[..n])
    ensures k < n && kept[k].start <= c.start < kept[k].end && !Before(c, kept[k])
    decreases n
  {
    if c.start < EndOf(kept[..n - 1]) {
      k := EveryCandidateStartsInside(kept, candidates, c, n - 1);
    } else {
      k := n - 1;
      assert kept[..n][n - 1] == kept[n - 1];
    }
  }

  // ----- which candidates are removed whole -----

  predicate Covers(a: Span, b: Span) {
    a.start <= b.start && b.end <= a.end
  }

  /** Every candidate lies inside one kept span. */
  ghost predicate AllCovered(kept: seq<Span>, candidates: set<Span>) {
    forall c :: c in candidates ==> IsCovered(kept, c)
  }

  predicate IsCovered(kept: seq<Span>, c: Span) {
    exists i :: 0 <= i < |kept| && Covers(kept[i], c)
  }

  /** The second starts inside the first and ends after it. */
  predicate Crosses(a: Span, b: Span) {
    a.start < b.start < a.end < b.end
  }

  /** Candidates that cross lie inside a third. */
  ghost predicate CrossingsEnclosed(candidates: set<Span>) {
    forall a, b :: a in candidates && b in candidates && Crosses(a, b) ==> Enclosed(candidates, a, b)
  }

  predicate Enclosed(candidates: set<Span>, a: Span, b: Span) {
    exists d :: d in candidates && d.start <= a.start && b.end <= d.end
  }

  /** When crossing candidates lie inside a third, none leaves the kept span it starts in. */
  lemma {:induction false} NoneLeaves(kept: seq<Span>, candidates: set<Span>, rules: seq<Rule>, k: nat, c: Span)
    requires Resolves(kept, candidates) && Proper(candidates, rules) && CrossingsEnclosed(candidates)
    requires k < |kept| && c in candidates && kept[k].start <= c.start < kept[k].end && !Before(c, kept[k])
    ensures c.end <= kept[k].end
    decreases k
  {
    NthIsFirst(kept, candidates, k);
    var a := kept[k];
    if c.end > a.end {
      assert Enclosed(candidates, a, c) by {
        assert Crosses(a, c);
      }
      var d :| d in candidates && d.start <= a.start && c.end <= d.end;
      if d.start < EndOf(kept[..k]) {
        var m := EveryCandidateStartsInside(kept, candidates, d, k);
        NoneLeaves(kept, candidates, rules, m, d);
        KeptAreDisjoint(kept, candidates, rules, m, k);
      } else {
        assert Before(d, a);
      }
    }
  }

  /** Two candidates that overlap and are covered are covered by the same span. */
  lemma OverlappingShareASpan(kept: seq<Span>, candidates: set<Span>, rules: seq<Rule>, a: Span, b: Span, i: nat,
                              j: nat)
    requires Resolves(kept, candidates) && Proper(candidates, rules)
    requires i < |kept| && j < |kept| && Covers(kept[i], a) && Covers(kept[j], b) && Crosses(a, b)
    ensures i == j
  {
    if i < j {
      KeptAreDisjoint(kept, candidates, rules, i, j);
    } else if j < i {
      KeptAreDisjoint(kept, candidates, rules, j, i);
    }
  }

  lemma KeptAreCandidates(kept: seq<Span>, candidates: set<Span>)
    requires Resolves(kept, candidates)
    ensures forall i :: 0 <= i < |kept| ==> kept[i] in candidates
  {
    forall i | 0 <= i < |kept| ensures kept[i] in candidates {
      NthIsFirst(kept, candidates, i);
    }
  }

  lemma SpanOf(kept: seq<Span>, c: Span) returns (i: nat)
    requires IsCovered(kept, c)
    ensures i < |kept| && Covers(kept[i], c)
  {
    i :| 0 <= i < |kept| && Covers(kept[i], c);
  }

  lemma CrossingIsEnclosed(kept: seq<Span>, candidates: set<Span>, rules: seq<Rule>, a: Span, b: Span) returns (d: Span)
    requires Resolves(kept, candidates) && Proper(candidates, rules) && AllCovered(kept, candidates)
    requires a in candidates && b in candidates && Crosses(a, b)
    ensures d in candidates && d.start <= a.start && b.end <= d.end
  {
    var i := SpanOf(kept, a);
    var j := SpanOf(kept, b);
    OverlappingShareASpan(kept, candidates, rules, a, b, i, j);
    KeptAreCandidates(kept, candidates);
    d := kept[i];
  }

  lemma CoveredMeansEnclosed(kept: seq<Span>, candidates: set<Span>, rules: seq<Rule>)
    requires Resolves(kept, candidates) && Proper(candidates, rules) && AllCovered(kept, candidates)
    ensures CrossingsEnclosed(candidates)
  {
    forall a, b | a in candidates && b in candidates && Crosses(a, b)
      ensures Enclosed(candidates, a, b)
    {
      var d := CrossingIsEnclosed(kept, candidates, rules, a, b);
    }
  }

  lemma EnclosedMeansCovered(kept: seq<Span>, candidates: set<Span>, rules: seq<Rule>)
    requires Resolves(kept, candidates) && Proper(candidates, rules) && CrossingsEnclosed(candidates)
    ensures AllCovered(kept, candidates)
  {
    assert kept[..|kept|] == kept;
    forall c | c in candidates
      ensures IsCovered(kept, c)
    {
      var k := EveryCandidateStartsInside(kept, candidates, c, |kept|);
      NoneLeaves(kept, candidates, rules, k, c);
      assert Covers(kept[k], c);
    }
  }

  /** Each candidate is removed by one kept span exactly when candidates that cross lie inside a third. */
  lemma CoveredExactlyWhenCrossingsEnclosed(kept: seq<Span>, candidates: set<Span>, rules: seq<Rule>)
    requires Resolves(kept, candidates) && Proper(candidates, rules)
    ensures AllCovered(kept, candidates) <==> CrossingsEnclosed(candidates)
  {
    if AllCovered(kept, candidates) {
      CoveredMeansEnclosed(kept, candidates, rules);
    } else if CrossingsEnclosed(candidates) {
      EnclosedMeansCovered(kept, candidates, rules);
    }
  }

  /** Two matches that cross: the second is dropped, and what reaches beyond the first stays in the text. */
  lemma ATailCanSurvive(a: Span, b: Span)
    requires Crosses(a, b)
    ensures Resolves([a], {a, b}) && !CrossingsEnclosed({a, b})
  {
    assert [a][..0] == [];
    assert a in {a, b} && b in {a, b};
  }

  // ----- when the rule listed earlier wins -----

  predicate Overlap(a: Span, b: Span) {
    a.start < b.end && b.start < a.end
  }

  predicate InSpan(c: Span, i: nat) {
    c.start <= i < c.end
  }

  /** Two spans that hold something overlap when they share a place. */
  lemma OverlapMeansSharing(a: Span, b: Span)
    requires a.start < a.end && b.start < b.end
    ensures Overlap(a, b) <==> exists i :: InSpan(a, i) && InSpan(b, i)
  {
    var later := if a.start < b.start then b.start else a.start;
    assert Overlap(a, b) ==> InSpan(a, later) && InSpan(b, later);
  }

  /** Every candidate starts inside a kept span of its own rule or of one listed earlier. */
  ghost predicate EarlierRuleWins(kept: seq<Span>, candidates: set<Span>) {
    forall c :: c in candidates ==> YieldsToRule(kept, c)
  }

  predicate YieldsToRule(kept: seq<Span>, c: Span) {
    exists i :: 0 <= i < |kept| && InSpan(kept[i], c.start) && kept[i].rank <= c.rank
  }

  /** Of two candidates that overlap, the one of the rule listed earlier goes first. */
  ghost predicate RulesInOrder(candidates: set<Span>) {
    forall a, b :: a in candidates && b in candidates && Overlap(a, b) && a.rank < b.rank ==> Before(a, b)
  }

  lemma InOrderMeansEarlierWins(kept: seq<Span>, candidates: set<Span>, rules: seq<Rule>)
    requires Resolves(kept, candidates) && Proper(candidates, rules) && RulesInOrder(candidates)
    ensures EarlierRuleWins(kept, candidates)
  {
    KeptAreCandidates(kept, candidates);
    assert kept[..|kept|] == kept;
    forall c | c in candidates
      ensures YieldsToRule(kept, c)
    {
      var k := EveryCandidateStartsInside(kept, candidates, c, |kept|);
      assert Overlap(c, kept[k]);
    }
  }

  /** Two candidates that overlap, the first in order of a rule listed later: that one is kept. */
  lemma ALaterRuleCanWin(a: Span, b: Span)
    requires Overlap(a, b) && a.rank < b.rank && Before(b, a)
    ensures Resolves([b], {a, b}) && !EarlierRuleWins([b], {a, b})
  {
    assert [b][..0] == [];
    assert a in {a, b} && b in {a, b};
    assert !YieldsToRule([b], a);
  }

  /**
   * Overlaps go to the rule listed earlier, whichever of the candidates are there, exactly when of any two that overlap
   * the earlier rule's comes first.
   */
  lemma EarlierRuleWinsExactlyWhenFirst(candidates: set<Span>, rules: seq<Rule>)
    requires Proper(candidates, rules)
    ensures (forall some, kept :: some <= candidates && Resolves(kept, some) ==> EarlierRuleWins(kept, some))
            <==> RulesInOrder(candidates)
  {
    if RulesInOrder(candidates) {
      forall some, kept | some <= candidates && Resolves(kept, some)
        ensures EarlierRuleWins(kept, some)
      {
        InOrderMeansEarlierWins(kept, some, rules);
      }
    } else {
      var a, b :| a in candidates && b in candidates && Overlap(a, b) && a.rank < b.rank && !Before(a, b);
      ALaterRuleCanWin(a, b);
      assert {a, b} <= candidates;
    }
  }

  // ----- the method -----

  method Collect(rules: seq<Rule>, s: string) returns (kept: seq<Span>)
    requires WithinText(rules, s)
    ensures Resolves(kept, Candidates(rules))
  {
    CandidatesAreTheMatches(rules);
    CandidatesAreProper(rules, s);
    if s == "" {
      return [];
    }
    var all: seq<Span> := [];
    for i := 0 to |rules|
      invariant AreCandidates(rules[..i], all)
    {
      for k := 0 to |rules[i].matches|
        invariant forall c :: c in all <==> IsCandidate(rules[..i], c) || IsMatchOf(rules[i], i, k, c)
      {
        var m := rules[i].matches[k];
        if m.lo < 0 || m.hi <= m.lo {
          continue;
        }
        all := all + [AsSpan(m, rules[i].kind, i)];
      }
      OneMoreRule(rules, i);
    }
    assert rules[..|rules|] == rules;
    SortedIsInOrder(all);
    var sorted := Sorted(all);
    SameMembers(sorted, all);
    assert Among(sorted) == Candidates(rules);
    kept := Resolve(sorted);
  }

  ghost predicate IsMatchOf(rule: Rule, rank: nat, n: nat, c: Span)
    requires n <= |rule.matches|
  {
    exists k :: 0 <= k < n && Counts(rule.matches[k]) && c == AsSpan(rule.matches[k], rule.kind, rank)
  }

  lemma OneMoreRule(rules: seq<Rule>, i: nat)
    requires i < |rules|
    ensures forall c ::
        IsCandidate(rules[..i + 1], c)
        <==> IsCandidate(rules[..i], c) || IsMatchOf(rules[i], i, |rules[i].matches|, c)
  {
    forall c
      ensures IsCandidate(rules[..i + 1], c)
          <==> IsCandidate(rules[..i], c) || IsMatchOf(rules[i], i, |rules[i].matches|, c)
    {
      if c.rank < i {
        assert rules[..i + 1][c.rank] == rules[..i][c.rank];
      }
    }
  }

  lemma SameMembers(a: seq<Span>, b: seq<Span>)
    requires multiset(a) == multiset(b)
    ensures forall c :: c in a <==> c in b
  {
    forall c
      ensures c in a <==> c in b
    {
      assert c in a <==> c in multiset(a);
      assert c in b <==> c in multiset(b);
    }
  }

  /** Keeps a span unless it starts before the one kept last ends. */
  method Resolve(sorted: seq<Span>) returns (kept: seq<Span>)
    requires InOrder(sorted)
    requires forall c :: c in sorted ==> c.start < c.end
    ensures Resolves(kept, Among(sorted))
  {
    kept := [];
    var end: int := -1;
    for n := 0 to |sorted|
      invariant kept == [] ==> end == -1
      invariant kept != [] ==> end == EndOf(kept)
      invariant Resolves(kept, Among(sorted[..n]))
    {
      var c := sorted[n];
      if c.start < end {
        SkipKeeps(kept, sorted, n);
        continue;
      }
      assert c in sorted;
      TakeKeeps(kept, sorted, n);
      kept := kept + [c];
      end := c.end;
    }
    assert sorted[..|sorted|] == sorted;
  }

  function Among(spans: seq<Span>): set<Span> {
    set c | c in spans
  }

  lemma SkipKeeps(kept: seq<Span>, sorted: seq<Span>, n: nat)
    requires n < |sorted| && InOrder(sorted) && Resolves(kept, Among(sorted[..n]))
    requires sorted[n].start < EndOf(kept)
    ensures Resolves(kept, Among(sorted[..n + 1]))
  {
    assert sorted[..n + 1] == sorted[..n] + [sorted[n]];
    forall i | 0 <= i < |kept|
      ensures IsFirst(kept[i], Among(sorted[..n + 1]), EndOf(kept[..i]))
    {
      StaysFirst(kept[i], sorted, n, EndOf(kept[..i]));
    }
  }

  lemma StaysFirst(c: Span, sorted: seq<Span>, n: nat, from: nat)
    requires n < |sorted| && InOrder(sorted) && IsFirst(c, Among(sorted[..n]), from)
    ensures IsFirst(c, Among(sorted[..n + 1]), from)
  {
    assert sorted[..n + 1] == sorted[..n] + [sorted[n]];
    assert c in sorted[..n];
  }

  lemma TakeKeeps(kept: seq<Span>, sorted: seq<Span>, n: nat)
    requires n < |sorted| && InOrder(sorted) && Resolves(kept, Among(sorted[..n]))
    requires sorted[n].start < sorted[n].end && sorted[n].start >= EndOf(kept)
    ensures Resolves(kept + [sorted[n]], Among(sorted[..n + 1]))
  {
    var c := sorted[n];
    var more := kept + [c];
    assert sorted[..n + 1] == sorted[..n] + [c];
    forall i | 0 <= i < |more|
      ensures IsFirst(more[i], Among(sorted[..n + 1]), EndOf(more[..i]))
    {
      assert more[..i] == kept[..i];
      if i < |kept| {
        StaysFirst(kept[i], sorted, n, EndOf(kept[..i]));
      } else {
        assert kept[..i] == kept;
      }
    }
    forall d | d in Among(sorted[..n + 1])
      ensures d.start < EndOf(more)
    {
    }
  }
}
