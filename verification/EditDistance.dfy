// How far apart two words are, and what is suggested.
module EditDistance {
  // The distance is computed twice in the program, each time with two rows.

  function Min(a: nat, b: nat): nat {
    if b < a then b else a
  }

  function Cost(x: char, y: char): nat {
    if x == y then 0 else 1
  }

  function Init(s: string): string
    requires |s| > 0
  {
    s[..|s| - 1]
  }

  function Last(s: string): char
    requires |s| > 0
  {
    s[|s| - 1]
  }

  /** The distance, by the last characters. */
  function Distance(a: string, b: string): nat
    decreases |a| + |b|
  {
    if |a| == 0 then |b|
    else if |b| == 0 then |a|
    else Min(Min(Distance(a, Init(b)) + 1, Distance(Init(a), b) + 1),
        Distance(Init(a), Init(b)) + Cost(Last(a), Last(b)))
  }

  // ----- what the distance means: the fewest edits -----

  datatype Edit = Keep | Insert(c: char) | Delete | Replace(c: char)

  /** Whether the edits, read from the end, turn `a` into `b`. */
  predicate Turns(edits: seq<Edit>, a: string, b: string) {
    if |edits| == 0 then |a| == 0 && |b| == 0
    else
      var rest := edits[..|edits| - 1];
      match edits[|edits| - 1]
      case Keep => |a| > 0 && |b| > 0 && Last(a) == Last(b) && Turns(rest, Init(a), Init(b))
      case Replace(c) => |a| > 0 && |b| > 0 && Last(b) == c && Turns(rest, Init(a), Init(b))
      case Insert(c) => |b| > 0 && Last(b) == c && Turns(rest, a, Init(b))
      case Delete => |a| > 0 && Turns(rest, Init(a), b)
  }

  function Edits(edits: seq<Edit>): nat {
    if |edits| == 0 then 0
    else Edits(edits[..|edits| - 1]) + if edits[|edits| - 1] == Keep then 0 else 1
  }

  /** No list of edits is shorter than the distance, and some list is no longer. */
  lemma DistanceIsFewestEdits(a: string, b: string)
    ensures forall edits :: Turns(edits, a, b) ==> Distance(a, b) <= Edits(edits)
    ensures exists edits :: Turns(edits, a, b) && Edits(edits) == Distance(a, b)
  {
    forall edits | Turns(edits, a, b)
      ensures Distance(a, b) <= Edits(edits)
    {
      NoFewerEdits(edits, a, b);
    }
    var edits := SomeEdits(a, b);
  }

  lemma {:induction false} NoFewerEdits(edits: seq<Edit>, a: string, b: string)
    requires Turns(edits, a, b)
    ensures Distance(a, b) <= Edits(edits)
    decreases |edits|
  {
    if |edits| > 0 {
      var rest := edits[..|edits| - 1];
      match edits[|edits| - 1]
      case Keep => NoFewerEdits(rest, Init(a), Init(b));
      case Replace(_) => NoFewerEdits(rest, Init(a), Init(b));
      case Insert(_) =>
        NoFewerEdits(rest, a, Init(b));
        OneLonger(a, Init(b), b);
      case Delete =>
        NoFewerEdits(rest, Init(a), b);
        OneShorter(a, b);
    }
  }

  lemma OneLonger(a: string, shorter: string, b: string)
    requires |b| > 0 && shorter == Init(b)
    ensures Distance(a, b) <= Distance(a, shorter) + 1
  {
  }

  lemma OneShorter(a: string, b: string)
    requires |a| > 0
    ensures Distance(a, b) <= Distance(Init(a), b) + 1
  {
  }

  lemma OneMoreEdit(rest: seq<Edit>, e: Edit)
    ensures (rest + [e])[..|rest + [e]| - 1] == rest
    ensures Edits(rest + [e]) == Edits(rest) + if e == Keep then 0 else 1
  {
    assert (rest + [e])[..|rest + [e]| - 1] == rest;
  }

  lemma {:induction false} SomeEdits(a: string, b: string) returns (edits: seq<Edit>)
    ensures Turns(edits, a, b) && Edits(edits) == Distance(a, b)
    decreases |a| + |b|
  {
    if |a| == 0 && |b| == 0 {
      edits := [];
    } else if |b| > 0 && (|a| == 0 || Distance(a, b) == Distance(a, Init(b)) + 1) {
      var rest := SomeEdits(a, Init(b));
      OneMoreEdit(rest, Insert(Last(b)));
      edits := rest + [Insert(Last(b))];
    } else if |b| == 0 || Distance(a, b) == Distance(Init(a), b) + 1 {
      var rest := SomeEdits(Init(a), b);
      OneMoreEdit(rest, Delete);
      edits := rest + [Delete];
    } else {
      var e := if Last(a) == Last(b) then Keep else Replace(Last(b));
      var rest := SomeEdits(Init(a), Init(b));
      OneMoreEdit(rest, e);
      edits := rest + [e];
    }
  }

  // ----- the distance measures -----

  /** It is the same both ways, zero between equal words only, and no way round is shorter. */
  lemma DistanceIsAMetric(a: string, b: string, c: string)
    ensures Distance(a, b) == Distance(b, a)
    ensures Distance(a, b) == 0 <==> a == b
    ensures Distance(a, c) <= Distance(a, b) + Distance(b, c)
  {
    Symmetric(a, b);
    ZeroMeansEqual(a, b);
    NoWayRoundIsShorter(a, b, c);
  }

  lemma {:induction false} Symmetric(a: string, b: string)
    ensures Distance(a, b) == Distance(b, a)
    decreases |a| + |b|
  {
    if |a| > 0 && |b| > 0 {
      Symmetric(a, Init(b));
      Symmetric(Init(a), b);
      Symmetric(Init(a), Init(b));
    }
  }

  lemma {:induction false} ZeroMeansEqual(a: string, b: string)
    ensures Distance(a, b) == 0 <==> a == b
    decreases |a| + |b|
  {
    if |a| > 0 && |b| > 0 {
      ZeroMeansEqual(Init(a), Init(b));
      assert a == Init(a) + [Last(a)] && b == Init(b) + [Last(b)];
    }
  }

  /** The distance lies between the difference of the lengths and their sum. */
  lemma {:induction false} NearLength(a: string, b: string)
    ensures |b| <= |a| + Distance(a, b) && |a| <= |b| + Distance(a, b)
    ensures Distance(a, b) <= |a| + |b|
    decreases |a| + |b|
  {
    if |a| > 0 && |b| > 0 {
      NearLength(a, Init(b));
      NearLength(Init(a), b);
      NearLength(Init(a), Init(b));
    }
  }

  lemma {:induction false} NoWayRoundIsShorter(a: string, b: string, c: string)
    ensures Distance(a, c) <= Distance(a, b) + Distance(b, c)
    decreases |a| + |b| + |c|
  {
    if |a| == 0 || |b| == 0 || |c| == 0 {
      NearLength(a, b);
      NearLength(b, c);
      NearLength(a, c);
    } else if Distance(a, b) == Distance(Init(a), b) + 1 {
      NoWayRoundIsShorter(Init(a), b, c);
    } else if Distance(b, c) == Distance(b, Init(c)) + 1 {
      NoWayRoundIsShorter(a, b, Init(c));
    } else if Distance(a, b) == Distance(a, Init(b)) + 1 {
      if Distance(b, c) == Distance(Init(b), c) + 1 {
        NoWayRoundIsShorter(a, Init(b), c);
      } else {
        NoWayRoundIsShorter(a, Init(b), Init(c));
      }
    } else if Distance(b, c) == Distance(Init(b), c) + 1 {
      NoWayRoundIsShorter(Init(a), Init(b), c);
    } else {
      NoWayRoundIsShorter(Init(a), Init(b), Init(c));
    }
  }

  // ----- the two programs -----

  /** A row holds the distances from one word to the beginnings of another. */
  ghost predicate IsRow(row: seq<nat>, a: string, b: string) {
    |row| == |b| + 1 && forall j :: 0 <= j <= |b| ==> row[j] == Distance(a, b[..j])
  }

  /** `next` is the row after `row`, up to its n-th cell, for one more character. */
  ghost predicate Follows(row: seq<nat>, next: seq<nat>, x: char, b: string, n: nat) {
    && |row| == |next| == |b| + 1 && n <= |b| + 1
    && forall j :: 1 <= j < n ==> next[j] == Min3(next[j - 1] + 1, row[j] + 1, row[j - 1] + Cost(x, b[j - 1]))
  }

  lemma OneMoreCell(row: seq<nat>, next: seq<nat>, more: seq<nat>, x: char, b: string, j: nat)
    requires 1 <= j <= |b| && Follows(row, next, x, b, j)
    requires more == next[j := Min3(next[j - 1] + 1, row[j] + 1, row[j - 1] + Cost(x, b[j - 1]))]
    ensures Follows(row, more, x, b, j + 1)
  {
  }

  lemma ByLastCharacters(a: string, b: string, left: nat, up: nat, slant: nat)
    requires |a| > 0 && |b| > 0
    requires left == Distance(a, Init(b)) && up == Distance(Init(a), b) && slant == Distance(Init(a), Init(b))
    ensures Distance(a, b) == Min3(left + 1, up + 1, slant + Cost(Last(a), Last(b)))
  {
  }

  lemma {:induction false} FollowingRow(row: seq<nat>, next: seq<nat>, a: string, b: string, j: nat)
    requires |a| > 0 && IsRow(row, Init(a), b)
    requires Follows(row, next, Last(a), b, |b| + 1) && next[0] == |a|
    requires j <= |b|
    ensures forall k :: 0 <= k <= j ==> next[k] == Distance(a, b[..k])
  {
    if j > 0 {
      FollowingRow(row, next, a, b, j - 1);
      assert Init(b[..j]) == b[..j - 1] && Last(b[..j]) == b[j - 1];
      ByLastCharacters(a, b[..j], next[j - 1], row[j], row[j - 1]);
    }
  }

  function Min3(a: nat, b: nat, c: nat): nat {
    Min(Min(a, b), c)
  }

  method FirstRow(n: nat) returns (row: array<nat>)
    ensures fresh(row) && row.Length == n + 1
    ensures forall j :: 0 <= j <= n ==> row[j] == j
  {
    row := new nat[n + 1];
    for j := 0 to row.Length
      invariant forall k :: 0 <= k < j ==> row[k] == k
    {
      row[j] := j;
    }
  }

  method Levenshtein(a: string, b: string) returns (d: nat)
    ensures d == Distance(a, b)
  {
    if a == b {
      ZeroMeansEqual(a, b);
      return 0;
    }
    if |a| == 0 {
      return |b|;
    }
    if |b| == 0 {
      return |a|;
    }
    var prev := FirstRow(|b|);
    var curr := new nat[|b| + 1];
    for i := 1 to |a| + 1
      invariant prev != curr && prev.Length == curr.Length == |b| + 1 && fresh(prev) && fresh(curr)
      invariant IsRow(prev[..], a[..i - 1], b)
    {
      NextRowByMin3(prev, curr, a[i - 1], b, i);
      assert Init(a[..i]) == a[..i - 1];
      FollowingRow(prev[..], curr[..], a[..i], b, |b|);
      prev, curr := curr, prev;
    }
    assert a[..|a|] == a && b[..|b|] == b;
    d := prev[|b|];
    assert d == prev[..][|b|];
  }

  method NextRowByMin3(prev: array<nat>, curr: array<nat>, x: char, b: string, i: nat)
    requires prev != curr && prev.Length == curr.Length == |b| + 1
    modifies curr
    ensures curr[0] == i && Follows(prev[..], curr[..], x, b, |b| + 1)
  {
    curr[0] := i;
    for j := 1 to |b| + 1
      invariant curr[0] == i && Follows(prev[..], curr[..], x, b, j)
    {
      var cost := 1;
      if x == b[j - 1] {
        cost := 0;
      }
      ghost var cells := curr[..];
      curr[j] := Min3(curr[j - 1] + 1, prev[j] + 1, prev[j - 1] + cost);
      OneMoreCell(prev[..], cells, curr[..], x, b, j);
    }
  }

  method EditDistance(a: string, b: string) returns (d: nat)
    ensures d == Distance(a, b)
  {
    var prev := FirstRow(|b|);
    var curr := new nat[|b| + 1];
    for i := 1 to |a| + 1
      invariant prev != curr && prev.Length == curr.Length == |b| + 1 && fresh(prev) && fresh(curr)
      invariant IsRow(prev[..], a[..i - 1], b)
    {
      NextRowByComparison(prev, curr, a[i - 1], b, i);
      assert Init(a[..i]) == a[..i - 1];
      FollowingRow(prev[..], curr[..], a[..i], b, |b|);
      prev, curr := curr, prev;
    }
    assert a[..|a|] == a && b[..|b|] == b;
    d := prev[|b|];
    assert d == prev[..][|b|];
  }

  method NextRowByComparison(prev: array<nat>, curr: array<nat>, x: char, b: string, i: nat)
    requires prev != curr && prev.Length == curr.Length == |b| + 1
    modifies curr
    ensures curr[0] == i && Follows(prev[..], curr[..], x, b, |b| + 1)
  {
    curr[0] := i;
    for j := 1 to |b| + 1
      invariant curr[0] == i && Follows(prev[..], curr[..], x, b, j)
    {
      var cost := 1;
      if x == b[j - 1] {
        cost := 0;
      }
      var m := curr[j - 1] + 1;
      if prev[j] + 1 < m {
        m := prev[j] + 1;
      }
      if prev[j - 1] + cost < m {
        m := prev[j - 1] + cost;
      }
      assert m == Min3(curr[j - 1] + 1, prev[j] + 1, prev[j - 1] + Cost(x, b[j - 1]));
      ghost var cells := curr[..];
      curr[j] := m;
      OneMoreCell(prev[..], cells, curr[..], x, b, j);
    }
  }

  // ----- suggestions -----

  const FAR := 0x4000_0000

  /** The k-th word is the first of those nearest to `got`. */
  ghost predicate IsNearest(got: string, words: seq<string>, k: nat) {
    && k < |words|
    && (forall j :: 0 <= j < |words| ==> Distance(got, words[k]) <= Distance(got, words[j]))
    && (forall j :: 0 <= j < k ==> Distance(got, words[k]) < Distance(got, words[j]))
  }

  lemma OneIsNearest(got: string, words: seq<string>)
    ensures forall j: nat, k: nat :: IsNearest(got, words, j) && IsNearest(got, words, k) ==> j == k
  {
    forall j: nat, k: nat | IsNearest(got, words, j) && IsNearest(got, words, k)
      ensures j == k
    {
      assert Distance(got, words[j]) == Distance(got, words[k]);
    }
  }

  method Nearest(got: string, words: seq<string>) returns (best: int, distance: nat)
    ensures best == -1 ==> distance == FAR && forall j :: 0 <= j < |words| ==> Distance(got, words[j]) >= FAR
    ensures best != -1 ==> best >= 0 && IsNearest(got, words, best) && distance == Distance(got, words[best]) < FAR
  {
    best, distance := -1, FAR;
    for k := 0 to |words|
      invariant best == -1 ==> distance == FAR && forall j :: 0 <= j < k ==> Distance(got, words[j]) >= FAR
      invariant best != -1 ==>
          0 <= best < k && IsNearest(got, words[..k], best) && distance == Distance(got, words[best]) < FAR
    {
      var d := EditDistance(got, words[k]);
      if d < distance {
        best, distance := k, d;
      }
      assert words[..k + 1] == words[..k] + [words[k]];
    }
    assert words[..|words|] == words;
  }

  /** The k-th word takes at most a given share of its length in edits, and one more. */
  ghost predicate InReach(got: string, words: seq<string>, lengths: seq<nat>, share: nat, k: nat)
    requires |words| == |lengths| && share > 0
  {
    k < |words| && Distance(got, words[k]) < 0x4000_0000 && Distance(got, words[k]) <= lengths[k] / share + 1
  }

  /** What is proposed: the first of the nearest words if it is in reach, in the form shown, and nothing otherwise. */
  ghost predicate IsProposal(got: string, words: seq<string>, shown: seq<string>, lengths: seq<nat>, share: nat,
                             proposed: string)
    requires |words| == |shown| == |lengths| && share > 0
  {
    && (forall k: nat :: IsNearest(got, words, k) ==>
        proposed == if InReach(got, words, lengths, share, k) then shown[k] else "")
    && (words == [] ==> proposed == "")
  }

  function Lengths(words: seq<string>): (r: seq<nat>)
    ensures |r| == |words|
  {
    seq(|words|, i requires 0 <= i < |words| => |words[i]|)
  }

  /** The command proposed for a mistyped one: the first of the nearest, if it takes at most half its
      length in edits, and one more. */
  method NearestCommand(name: string, commands: seq<string>) returns (proposed: string)
    ensures IsProposal(name, commands, commands, Lengths(commands), 2, proposed)
  {
    var best, distance := Nearest(name, commands);
    OneIsNearest(name, commands);
    var word := if best == -1 then "" else commands[best];
    if distance > |word| / 2 + 1 {
      return "";
    }
    return word;
  }

  /** Settings as they are proposed. */
  function Shown(path: string, known: seq<string>): (r: seq<string>)
    ensures |r| == |known|
  {
    seq(|known|, i requires 0 <= i < |known| => if path != "" then path + "." + known[i] else known[i])
  }

  function Lowered(known: seq<string>, lower: string -> string): (r: seq<string>)
    ensures |r| == |known|
  {
    seq(|known|, i requires 0 <= i < |known| => lower(known[i]))
  }

  /** The setting proposed for an unknown one: the first of the nearest regardless of case, if it takes
      at most a quarter of its length in edits, and one more. */
  method Suggest(got: string, known: seq<string>, path: string, lower: string -> string) returns (proposed: string)
    ensures IsProposal(lower(got), Lowered(known, lower), Shown(path, known), Lengths(known), 4, proposed)
    ensures path == "" && proposed != "" ==> proposed in known
    ensures path != "" && proposed != "" ==> exists k :: 0 <= k < |known| && proposed == path + "." + known[k]
  {
    var words := Lowered(known, lower);
    var best, distance := Nearest(lower(got), words);
    OneIsNearest(lower(got), words);
    var word := if best == -1 then "" else known[best];
    if distance > |word| / 4 + 1 {
      return "";
    }
    if path != "" {
      return path + "." + word;
    }
    return word;
  }

  lemma {:induction false} SomeWordIsNearest(got: string, words: seq<string>) returns (k: nat)
    requires words != []
    ensures IsNearest(got, words, k)
    decreases |words|
  {
    var n := |words| - 1;
    if n == 0 {
      k := 0;
    } else {
      var front := words[..n];
      var best := SomeWordIsNearest(got, front);
      assert forall j :: 0 <= j < n ==> front[j] == words[j];
      k := if Distance(got, words[n]) < Distance(got, front[best]) then n else best;
    }
  }

  /** A word in reach is passed over exactly when the first of the nearest words is shorter and not in its own reach. */
  ghost predicate Hidden(got: string, words: seq<string>, lengths: seq<nat>, share: nat)
    requires |words| == |lengths| && share > 0
  {
    exists j: nat, k: nat ::
      && InReach(got, words, lengths, share, j) && IsNearest(got, words, k)
      && lengths[k] < lengths[j] && lengths[k] / share + 1 < Distance(got, words[k])
  }

  lemma NothingProposedExactlyWhenHidden(got: string, words: seq<string>, shown: seq<string>, lengths: seq<nat>,
                                         share: nat, proposed: string)
    requires |words| == |shown| == |lengths| && share > 0 && forall k :: 0 <= k < |shown| ==> shown[k] != ""
    requires IsProposal(got, words, shown, lengths, share, proposed)
    ensures proposed == "" && (exists j: nat :: InReach(got, words, lengths, share, j))
        <==> Hidden(got, words, lengths, share)
  {
    if j: nat :| InReach(got, words, lengths, share, j) {
      var k := SomeWordIsNearest(got, words);
      ShorterShare(lengths[k], lengths[j], share);
      OneIsNearest(got, words);
    }
  }

  lemma ShorterShare(x: nat, y: nat, share: nat)
    requires share > 0
    ensures x / share < y / share ==> x < y
  {
    if x >= y {
      QuotientsGrow(y, x, share);
    }
  }

  lemma QuotientsGrow(x: nat, y: nat, share: nat)
    requires share > 0 && x <= y
    ensures x / share <= y / share
  {
    var p, q := x / share, y / share;
    assert x == p * share + x % share && y == q * share + y % share;
    ProductsGrow(q + 1, p, share);
    assert (q + 1) * share == q * share + share;
  }

  lemma ProductsGrow(a: nat, b: nat, s: nat)
    ensures a <= b ==> a * s <= b * s
  {
  }

  /** For the setting "xy", the settings "ab" and "xyab" are an example: nothing is proposed. */
  lemma AShortWordHidesALongOne(got: string, short: string, long: string, proposed: string)
    requires |got| == |short| == 2 && |long| == 4 && long[..2] == got
    requires forall i, j :: 0 <= i < 2 && 0 <= j < 2 ==> got[i] != short[j]
    requires IsProposal(got, [short, long], [short, long], [2, 4], 4, proposed)
    ensures InReach(got, [short, long], [2, 4], 4, 1) && proposed == ""
  {
    NothingInCommon(got, short);
    assert Init(Init(long)) == got;
    TwoLonger(got, Init(long), long);
    assert IsNearest(got, [short, long], 0);
  }

  lemma TwoLonger(a: string, b: string, c: string)
    requires |c| > 0 && b == Init(c) && |b| > 0 && a == Init(b)
    ensures Distance(a, c) == 2
  {
    ZeroMeansEqual(a, a);
    OneLonger(a, a, b);
    OneLonger(a, b, c);
    NearLength(a, c);
  }

  lemma {:induction false} NothingInCommon(a: string, b: string)
    requires forall i, j :: 0 <= i < |a| && 0 <= j < |b| ==> a[i] != b[j]
    ensures Distance(a, b) == if |a| < |b| then |b| else |a|
    decreases |a| + |b|
  {
    if |a| > 0 && |b| > 0 {
      NothingInCommon(a, Init(b));
      NothingInCommon(Init(a), b);
      NothingInCommon(Init(a), Init(b));
    }
  }
}
