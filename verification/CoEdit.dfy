// Which files were worked on together.
module CoEdit {
  // The files named by the observations of one session are put in order, and paired when they are at
  // most `WINDOW` mentions apart.

  import opened TextOrder

  const WINDOW := 3

  datatype Observation = Observation(session: string, files: seq<string>)
  datatype Mention = Mention(session: string, file: string)
  datatype Pair = Pair(first: string, second: string)

  function Least(a: string, b: string): string {
    if Less(b, a) then b else a
  }

  function Greatest(a: string, b: string): string {
    if Less(b, a) then a else b
  }

  function Between(a: string, b: string): Pair {
    Pair(Least(a, b), Greatest(a, b))
  }

  // ----- the mentions, in the order the statement numbers them -----

  function InOrder(file: string, sorted: seq<string>): seq<string> {
    if sorted == [] || !Less(sorted[0], file) then [file] + sorted
    else [sorted[0]] + InOrder(file, sorted[1..])
  }

  /** The files of one observation, sorted, without the empty file. */
  function Named(files: seq<string>): seq<string> {
    if files == [] then []
    else if files[0] == "" then Named(files[1..])
    else InOrder(files[0], Named(files[1..]))
  }

  function Tagged(session: string, files: seq<string>): seq<Mention> {
    seq(|files|, i requires 0 <= i < |files| => Mention(session, files[i]))
  }

  /** Every mention of a project, its observations being in the order of their identifiers. */
  function Mentions(observations: seq<Observation>): seq<Mention> {
    if observations == [] then []
    else
      var last := observations[|observations| - 1];
      Mentions(observations[..|observations| - 1]) + Tagged(last.session, Named(last.files))
  }

  /** The number of the k-th mention within its session, counted from one. */
  function Number(mentions: seq<Mention>, k: nat): nat
    requires k < |mentions|
  {
    |Steps(mentions[..k + 1], mentions[k].session)|
  }

  /** The files one session mentions. */
  function Steps(mentions: seq<Mention>, session: string): seq<string> {
    if mentions == [] then []
    else
      var last := mentions[|mentions| - 1];
      Steps(mentions[..|mentions| - 1], session) + if last.session == session then [last.file] else []
  }

  predicate Close(mentions: seq<Mention>, i: nat, j: nat)
    requires i < |mentions| && j < |mentions|
  {
    && mentions[j].session == mentions[i].session
    && Number(mentions, i) < Number(mentions, j) <= Number(mentions, i) + WINDOW
    && mentions[i].file != mentions[j].file
  }

  /** The rows of the self-join: pairs of mentions. */
  function Joined(mentions: seq<Mention>): set<(nat, nat)> {
    set i: nat, j: nat | i < |mentions| && j < |mentions| && Close(mentions, i, j) :: (i, j)
  }

  function JoinedFor(mentions: seq<Mention>, pair: Pair): set<(nat, nat)> {
    set p | p in Joined(mentions) && Between(mentions[p.0].file, mentions[p.1].file) == pair
  }

  function Weight(mentions: seq<Mention>, pair: Pair): nat {
    |JoinedFor(mentions, pair)|
  }

  /** The pairs of files that get an edge. */
  function Pairs(mentions: seq<Mention>): set<Pair> {
    set p | p in Joined(mentions) :: Between(mentions[p.0].file, mentions[p.1].file)
  }

  // ----- what a weight means: a walk through the sessions with a window of three -----

  function Hit(earlier: string, file: string, pair: Pair): nat {
    if earlier != file && Between(earlier, file) == pair then 1 else 0
  }

  /** How many of the last `reach` steps make the pair with `file`. */
  function Hits(steps: seq<string>, file: string, pair: Pair, reach: nat): nat {
    if reach == 0 || steps == [] then 0
    else Hits(steps[..|steps| - 1], file, pair, reach - 1) + Hit(steps[|steps| - 1], file, pair)
  }

  /** Each mention looks back at the three before it in its own session. */
  function Walked(mentions: seq<Mention>, pair: Pair): nat {
    if mentions == [] then 0
    else
      var last := mentions[|mentions| - 1];
      var before := mentions[..|mentions| - 1];
      Walked(before, pair) + Hits(Steps(before, last.session), last.file, pair, WINDOW)
  }

  // ----- sessions and their numbering -----

  lemma {:induction false} StepsUpTo(mentions: seq<Mention>, k: nat, session: string)
    requires k <= |mentions|
    ensures Steps(mentions[..k], session) <= Steps(mentions, session)
    decreases |mentions|
  {
    if k == |mentions| {
      assert mentions[..k] == mentions;
    } else {
      var before := mentions[..|mentions| - 1];
      StepsUpTo(before, k, session);
      assert before[..k] == mentions[..k];
    }
  }

  lemma NumberIsItsOwn(mentions: seq<Mention>, k: nat)
    requires k < |mentions|
    ensures Number(mentions, k) == |Steps(mentions[..k], mentions[k].session)| + 1
    ensures Number(mentions, k) <= |Steps(mentions, mentions[k].session)|
    ensures Steps(mentions, mentions[k].session)[Number(mentions, k) - 1] == mentions[k].file
  {
    assert mentions[..k + 1][..k] == mentions[..k];
    StepsUpTo(mentions, k + 1, mentions[k].session);
  }

  lemma NumbersGrow(mentions: seq<Mention>, i: nat, j: nat)
    requires i < j < |mentions| && mentions[i].session == mentions[j].session
    ensures Number(mentions, i) < Number(mentions, j)
  {
    NumberIsItsOwn(mentions, j);
    StepsUpTo(mentions[..j], i + 1, mentions[i].session);
    assert mentions[..j][..i + 1] == mentions[..i + 1];
  }

  lemma {:induction false} StepIsMentioned(mentions: seq<Mention>, session: string, number: nat) returns (k: nat)
    requires 1 <= number <= |Steps(mentions, session)|
    ensures k < |mentions| && mentions[k].session == session && Number(mentions, k) == number
  {
    var before := mentions[..|mentions| - 1];
    if number <= |Steps(before, session)| {
      k := StepIsMentioned(before, session, number);
      assert mentions[..k + 1] == before[..k + 1];
    } else {
      k := |mentions| - 1;
      assert mentions[..k + 1] == mentions;
    }
  }

  lemma NumberIsLocal(mentions: seq<Mention>, k: nat)
    requires k + 1 < |mentions|
    ensures Number(mentions[..|mentions| - 1], k) == Number(mentions, k)
  {
    assert mentions[..|mentions| - 1][..k + 1] == mentions[..k + 1];
  }

  // ----- the weight is the walk -----

  /** The mentions of a session numbered after `total - reach` and up to `total` that make the pair
      with `file`. */
  function Reached(mentions: seq<Mention>, session: string, file: string, pair: Pair, total: nat,
                   reach: nat): set<nat> {
    set i: nat | i < |mentions| && InReach(mentions, session, file, pair, total, reach, i)
  }

  predicate InReach(mentions: seq<Mention>, session: string, file: string, pair: Pair, total: nat, reach: nat, i: nat)
    requires i < |mentions|
  {
    && mentions[i].session == session
    && total < Number(mentions, i) + reach && Number(mentions, i) <= total
    && Hit(mentions[i].file, file, pair) == 1
  }

  lemma {:induction false} ReachedIsHits(mentions: seq<Mention>, session: string, file: string, pair: Pair, total: nat,
                                         reach: nat)
    requires total <= |Steps(mentions, session)|
    ensures |Reached(mentions, session, file, pair, total, reach)|
        == Hits(Steps(mentions, session)[..total], file, pair, reach)
    decreases reach
  {
    var steps := Steps(mentions, session)[..total];
    if reach == 0 || total == 0 {
      assert Reached(mentions, session, file, pair, total, reach) == {};
    } else {
      ReachedIsHits(mentions, session, file, pair, total - 1, reach - 1);
      assert steps[..total - 1] == Steps(mentions, session)[..total - 1];
      var k := StepIsMentioned(mentions, session, total);
      NumberIsItsOwn(mentions, k);
      OneFartherBack(mentions, session, file, pair, total, reach, k);
    }
  }

  lemma OneFartherBack(mentions: seq<Mention>, session: string, file: string, pair: Pair, total: nat, reach: nat,
                       k: nat)
    requires reach > 0 && total > 0
    requires k < |mentions| && mentions[k].session == session && Number(mentions, k) == total
    ensures |Reached(mentions, session, file, pair, total, reach)|
         == |Reached(mentions, session, file, pair, total - 1, reach - 1)| + Hit(mentions[k].file, file, pair)
  {
    var far := Reached(mentions, session, file, pair, total, reach);
    var near := Reached(mentions, session, file, pair, total - 1, reach - 1);
    forall i | i in far && i != k
      ensures i in near
    {
      if i < k {
        NumbersGrow(mentions, i, k);
      } else {
        NumbersGrow(mentions, k, i);
      }
    }
    assert k !in near;
    assert forall i :: i in near ==> i in far;
    assert far == near + if Hit(mentions[k].file, file, pair) == 1 then {k} else {};
  }

  function Ending(starts: set<nat>, end: nat): set<(nat, nat)> {
    set i | i in starts :: (i, end)
  }

  lemma {:induction false} EndingCount(starts: set<nat>, end: nat)
    ensures |Ending(starts, end)| == |starts|
  {
    if starts != {} {
      var i :| i in starts;
      EndingCount(starts - {i}, end);
      assert Ending(starts, end) == Ending(starts - {i}, end) + {(i, end)};
    }
  }

  /** One more mention adds to the join exactly the pairs that end in it. */
  lemma JoinGrows(mentions: seq<Mention>, pair: Pair)
    requires mentions != []
    ensures var n := |mentions| - 1;
            var last := mentions[n];
            var before := mentions[..n];
            JoinedFor(mentions, pair) == JoinedFor(before, pair)
              + Ending(Reached(before, last.session, last.file, pair, |Steps(before, last.session)|, WINDOW), n)
  {
    var n := |mentions| - 1;
    var last := mentions[n];
    var before := mentions[..n];
    var ending := Ending(Reached(before, last.session, last.file, pair, |Steps(before, last.session)|, WINDOW), n);
    var joined := JoinedFor(mentions, pair);
    forall i: nat, j: nat
      ensures (i, j) in joined <==> (i, j) in JoinedFor(before, pair) || (i, j) in ending
    {
      if i < n && j < n {
        CloseBefore(mentions, i, j);
      } else if i < n && j == n {
        CloseToLast(mentions, pair, i);
      } else if i == n && j <= n {
        LastIsFirstOfNone(mentions, j);
      }
    }
  }

  lemma CloseBefore(mentions: seq<Mention>, i: nat, j: nat)
    requires i + 1 < |mentions| && j + 1 < |mentions|
    ensures Close(mentions, i, j) <==> Close(mentions[..|mentions| - 1], i, j)
  {
    NumberIsLocal(mentions, i);
    NumberIsLocal(mentions, j);
  }

  lemma CloseToLast(mentions: seq<Mention>, pair: Pair, i: nat)
    requires i + 1 < |mentions|
    ensures var n := |mentions| - 1;
            var last := mentions[n];
            Close(mentions, i, n) && Between(mentions[i].file, last.file) == pair
            <==> InReach(mentions[..n], last.session, last.file, pair, |Steps(mentions[..n], last.session)|, WINDOW, i)
  {
    var n := |mentions| - 1;
    NumberIsLocal(mentions, i);
    NumberIsItsOwn(mentions, n);
    NumberIsItsOwn(mentions[..n], i);
  }

  lemma LastIsFirstOfNone(mentions: seq<Mention>, j: nat)
    requires j < |mentions|
    ensures !Close(mentions, |mentions| - 1, j)
  {
    var n := |mentions| - 1;
    if j < n && mentions[j].session == mentions[n].session {
      NumbersGrow(mentions, j, n);
    }
  }

  /** The weight the join counts is what a walk with a window of three counts. */
  lemma {:induction false} WeightIsWalked(mentions: seq<Mention>, pair: Pair)
    ensures Weight(mentions, pair) == Walked(mentions, pair)
  {
    if mentions == [] {
      assert JoinedFor(mentions, pair) == {};
    } else {
      var n := |mentions| - 1;
      var last := mentions[n];
      var before := mentions[..n];
      var steps := Steps(before, last.session);
      var starts := Reached(before, last.session, last.file, pair, |steps|, WINDOW);
      WeightIsWalked(before, pair);
      JoinGrows(mentions, pair);
      EndingCount(starts, n);
      ReachedIsHits(before, last.session, last.file, pair, |steps|, WINDOW);
      assert steps[..|steps|] == steps;
      assert JoinedFor(before, pair) !! Ending(starts, n);
    }
  }

  // ----- all weights together -----

  function Summed(mentions: seq<Mention>, pairs: seq<Pair>): nat {
    if pairs == [] then 0 else Weight(mentions, pairs[0]) + Summed(mentions, pairs[1..])
  }

  ghost predicate Distinct(pairs: seq<Pair>) {
    forall i, j :: 0 <= i < j < |pairs| ==> pairs[i] != pairs[j]
  }

  function JoinedForAny(mentions: seq<Mention>, pairs: seq<Pair>): set<(nat, nat)> {
    set p | p in Joined(mentions) && Between(mentions[p.0].file, mentions[p.1].file) in pairs
  }

  lemma {:induction false} SummedIsJoined(mentions: seq<Mention>, pairs: seq<Pair>)
    requires Distinct(pairs)
    ensures Summed(mentions, pairs) == |JoinedForAny(mentions, pairs)|
  {
    if pairs == [] {
      assert JoinedForAny(mentions, pairs) == {};
    } else {
      SummedIsJoined(mentions, pairs[1..]);
      assert pairs == [pairs[0]] + pairs[1..];
      assert pairs[0] !in pairs[1..];
      assert JoinedForAny(mentions, pairs) == JoinedFor(mentions, pairs[0]) + JoinedForAny(mentions, pairs[1..]);
      assert JoinedFor(mentions, pairs[0]) !! JoinedForAny(mentions, pairs[1..]);
    }
  }

  function JoinedFrom(mentions: seq<Mention>, n: nat): set<(nat, nat)> {
    set p | p in Joined(mentions) && p.0 < n
  }

  function Followers(mentions: seq<Mention>, i: nat): set<(nat, nat)> {
    set p | p in Joined(mentions) && p.0 == i
  }

  /** At most three mentions follow a given one closely. */
  lemma FollowersAreFew(mentions: seq<Mention>, i: nat)
    requires i < |mentions|
    ensures |Followers(mentions, i)| <= WINDOW
  {
    var joined := Followers(mentions, i);
    var first := Number(mentions, i);
    forall p, q | p in joined && q in joined && Number(mentions, p.1) == Number(mentions, q.1)
      ensures p == q
    {
      if p.1 < q.1 {
        NumbersGrow(mentions, p.1, q.1);
      } else if q.1 < p.1 {
        NumbersGrow(mentions, q.1, p.1);
      }
    }
    FewByKey(joined, (p: (nat, nat)) => if p.1 < |mentions| then Number(mentions, p.1) else 0, first, WINDOW);
  }

  lemma {:induction false} FewByKey(s: set<(nat, nat)>, key: ((nat, nat)) -> nat, low: nat, width: nat)
    requires forall p :: p in s ==> low < key(p) <= low + width
    requires forall p, q :: p in s && q in s && key(p) == key(q) ==> p == q
    ensures |s| <= width
  {
    if width > 0 {
      var rest := set p | p in s && key(p) < low + width;
      FewByKey(rest, key, low, width - 1);
      if p :| p in s && key(p) == low + width {
        assert s == rest + {p};
      } else {
        assert s == rest;
      }
    } else {
      assert s == {};
    }
  }

  lemma JoinedFromNext(mentions: seq<Mention>, n: nat)
    ensures JoinedFrom(mentions, 0) == {}
    ensures |JoinedFrom(mentions, n + 1)| <= |JoinedFrom(mentions, n)| + |Followers(mentions, n)|
  {
    var joined := Joined(mentions);
    forall p | p in joined
      ensures p in JoinedFrom(mentions, n + 1) <==> p in JoinedFrom(mentions, n) || p in Followers(mentions, n)
    {
    }
    assert JoinedFrom(mentions, n + 1) == JoinedFrom(mentions, n) + Followers(mentions, n);
    assert JoinedFrom(mentions, n) !! Followers(mentions, n);
  }

  lemma {:induction false} JoinedFromIsFew(mentions: seq<Mention>, n: nat)
    requires n <= |mentions|
    ensures |JoinedFrom(mentions, n)| <= WINDOW * n
  {
    JoinedFromNext(mentions, if n == 0 then 0 else n - 1);
    if n > 0 {
      JoinedFromIsFew(mentions, n - 1);
      FollowersAreFew(mentions, n - 1);
    }
  }

  /** All co-editing weights of a project together are at most three for every mention of a file. */
  lemma WeightsAreBounded(mentions: seq<Mention>, pairs: seq<Pair>)
    requires Distinct(pairs)
    ensures Summed(mentions, pairs) <= WINDOW * |mentions|
  {
    SummedIsJoined(mentions, pairs);
    JoinedFromIsFew(mentions, |mentions|);
    var some := JoinedForAny(mentions, pairs);
    var all := JoinedFrom(mentions, |mentions|);
    assert all == some + (all - some);
  }

  function Filed(observations: seq<Observation>): nat {
    if observations == [] then 0
    else Filed(observations[..|observations| - 1]) + |observations[|observations| - 1].files|
  }

  lemma {:induction false} FiledAddsUp(a: seq<Observation>, b: seq<Observation>)
    ensures Filed(a + b) == Filed(a) + Filed(b)
    decreases |b|
  {
    if b == [] {
      assert a + b == a;
    } else {
      var n := |b| - 1;
      FiledAddsUp(a, b[..n]);
      assert (a + b)[..|a + b| - 1] == a + b[..n];
    }
  }

  ghost predicate Sorted(files: seq<string>) {
    forall i, j :: 0 <= i < j < |files| ==> !Less(files[j], files[i])
  }

  /** The mentions of one observation are its files other than the empty one, each as often as it is
      listed, in order. */
  lemma {:induction false} NamedIsSortedFiles(files: seq<string>)
    ensures Sorted(Named(files))
    ensures |Named(files)| <= |files|
    ensures forall f :: multiset(Named(files))[f] == if f == "" then 0 else multiset(files)[f]
  {
    if files != [] {
      NamedIsSortedFiles(files[1..]);
      assert files == [files[0]] + files[1..];
      if files[0] != "" {
        InOrderAdds(files[0], Named(files[1..]));
      }
    }
  }

  lemma {:induction false} InOrderAdds(file: string, sorted: seq<string>)
    requires Sorted(sorted)
    ensures |InOrder(file, sorted)| == |sorted| + 1
    ensures multiset(InOrder(file, sorted)) == multiset(sorted) + multiset{file}
    ensures Sorted(InOrder(file, sorted))
  {
    if sorted != [] {
      assert sorted == [sorted[0]] + sorted[1..];
      if Less(sorted[0], file) {
        InOrderAdds(file, sorted[1..]);
        var rest := InOrder(file, sorted[1..]);
        forall k | 0 <= k < |rest|
          ensures !Less(rest[k], sorted[0])
        {
          assert rest[k] in multiset(rest);
          LessIsTotal(sorted[0], file);
          assert rest[k] == file || rest[k] in sorted[1..];
        }
      } else {
        forall k | 0 <= k < |sorted|
          ensures !Less(sorted[k], file)
        {
          if Less(sorted[k], file) {
            LessIsTotal(sorted[0], sorted[k]);
            if sorted[0] != sorted[k] {
              LessIsTransitive(sorted[0], sorted[k], file);
            }
          }
        }
      }
    }
  }

  lemma {:induction false} MentionsAreFiled(observations: seq<Observation>)
    ensures |Mentions(observations)| <= Filed(observations)
    ensures forall k :: 0 <= k < |Mentions(observations)| ==> Mentions(observations)[k].file != ""
  {
    if observations != [] {
      var last := observations[|observations| - 1];
      MentionsAreFiled(observations[..|observations| - 1]);
      NamedIsSortedFiles(last.files);
      assert forall k :: 0 <= k < |Named(last.files)| ==> Named(last.files)[k] in multiset(Named(last.files));
    }
  }
}
