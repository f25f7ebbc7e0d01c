// The window of co-editing, counted in observations.
module CoEditWindow {
  // The statement counts mentions of files; the constant is documented in observations that touch files.

  import opened TextOrder
  import opened CoEdit

  /** How many observations of a session touch files. */
  function Touching(observations: seq<Observation>, session: string): nat {
    if observations == [] then 0
    else
      var last := observations[|observations| - 1];
      Touching(observations[..|observations| - 1], session)
      + if last.session == session && Named(last.files) != [] then 1 else 0
  }

  /** The number of the k-th mention's observation among those of its session that touch files. */
  function Turn(observations: seq<Observation>, k: nat): nat
    requires k < |Mentions(observations)|
  {
    var n := |observations| - 1;
    if k < |Mentions(observations[..n])| then Turn(observations[..n], k)
    else Touching(observations, observations[n].session)
  }

  lemma {:induction false} StepsOfTagged(mentions: seq<Mention>, owner: string, files: seq<string>, session: string)
    ensures Steps(mentions + Tagged(owner, files), session)
            == Steps(mentions, session) + if owner == session then files else []
  {
    if files == [] {
      assert mentions + Tagged(owner, files) == mentions;
    } else {
      var n := |files| - 1;
      StepsOfTagged(mentions, owner, files[..n], session);
      var all := mentions + Tagged(owner, files);
      assert all[..|all| - 1] == mentions + Tagged(owner, files[..n]);
      assert files[..n] + [files[n]] == files;
    }
  }

  /** The mentions up to the last observation, and those of the last. */
  lemma LastMentions(observations: seq<Observation>, k: nat)
    requires k < |Mentions(observations)|
    ensures
      var n := |observations| - 1;
      var front, mentions := Mentions(observations[..n]), Mentions(observations);
      && n >= 0 && |front| <= |mentions| && mentions[..|front|] == front
      && (k < |front| ==> mentions[k] == front[k] && Number(mentions, k) == Number(front, k))
      && (k >= |front| ==> mentions[k].session == observations[n].session && Named(observations[n].files) != [])
  {
    var n := |observations| - 1;
    var front, mentions := Mentions(observations[..n]), Mentions(observations);
    if k < |front| {
      assert mentions[..k + 1] == front[..k + 1];
    }
  }

  lemma LastSteps(observations: seq<Observation>, session: string)
    requires observations != []
    ensures
      var n := |observations| - 1;
      var last := observations[n];
      Steps(Mentions(observations), session)
      == Steps(Mentions(observations[..n]), session) + if last.session == session then Named(last.files) else []
  {
    var last := observations[|observations| - 1];
    StepsOfTagged(Mentions(observations[..|observations| - 1]), last.session, Named(last.files), session);
  }

  /** From a mention on, a session touches files in no more observations than it mentions files. */
  lemma {:induction false} TurnsLeft(observations: seq<Observation>, k: nat)
    requires k < |Mentions(observations)|
    ensures
      var mentions := Mentions(observations);
      var left := Touching(observations, mentions[k].session) - Turn(observations, k);
      0 <= left <= |Steps(mentions, mentions[k].session)| - Number(mentions, k)
    decreases |observations|
  {
    var n := |observations| - 1;
    LastMentions(observations, k);
    if k < |Mentions(observations[..n])| {
      TurnsLeft(observations[..n], k);
      LastSteps(observations, Mentions(observations)[k].session);
    } else {
      NumberIsItsOwn(Mentions(observations), k);
    }
  }

  /** Two mentions of a session are no farther apart in observations than in mentions. */
  lemma {:induction false} TurnsAreNoFarther(observations: seq<Observation>, i: nat, j: nat)
    requires i < j < |Mentions(observations)| && Mentions(observations)[i].session == Mentions(observations)[j].session
    ensures
      var mentions := Mentions(observations);
      0 <= Turn(observations, j) - Turn(observations, i) <= Number(mentions, j) - Number(mentions, i)
    decreases |observations|
  {
    var n := |observations| - 1;
    var front, mentions := Mentions(observations[..n]), Mentions(observations);
    LastMentions(observations, i);
    LastMentions(observations, j);
    if j < |front| {
      TurnsAreNoFarther(observations[..n], i, j);
    } else if i < |front| {
      TurnsLeft(observations[..n], i);
      NumberIsItsOwn(mentions, j);
      StepsUpTo(mentions[..j], |front|, mentions[j].session);
      assert mentions[..j][..|front|] == front;
    } else {
      NumbersGrow(mentions, i, j);
    }
  }

  /** Two mentions of different files at most three observations apart. */
  predicate NearInTurns(observations: seq<Observation>, i: nat, j: nat)
    requires i < |Mentions(observations)| && j < |Mentions(observations)|
  {
    var mentions := Mentions(observations);
    && mentions[j].session == mentions[i].session && Number(mentions, i) < Number(mentions, j)
    && Turn(observations, j) <= Turn(observations, i) + WINDOW
    && mentions[i].file != mentions[j].file
  }

  function NearFor(observations: seq<Observation>, pair: Pair): set<(nat, nat)> {
    var mentions := Mentions(observations);
    set i: nat, j: nat | i < |mentions| && j < |mentions| && NearInTurns(observations, i, j)
                         && Between(mentions[i].file, mentions[j].file) == pair :: (i, j)
  }

  /** The weight the documentation describes. */
  function TurnWeight(observations: seq<Observation>, pair: Pair): nat {
    |NearFor(observations, pair)|
  }

  lemma NumbersDecideOrder(mentions: seq<Mention>, i: nat, j: nat)
    requires i < |mentions| && j < |mentions| && mentions[i].session == mentions[j].session
    requires Number(mentions, i) < Number(mentions, j)
    ensures i < j
  {
    if j < i {
      NumbersGrow(mentions, j, i);
    }
  }

  lemma CloseIsNearInTurns(observations: seq<Observation>, i: nat, j: nat)
    requires i < |Mentions(observations)| && j < |Mentions(observations)|
    ensures
      var mentions := Mentions(observations);
      Close(mentions, i, j) <==> NearInTurns(observations, i, j) && Number(mentions, j) <= Number(mentions, i) + WINDOW
  {
    var mentions := Mentions(observations);
    if mentions[i].session == mentions[j].session && Number(mentions, i) < Number(mentions, j) {
      NumbersDecideOrder(mentions, i, j);
      TurnsAreNoFarther(observations, i, j);
    }
  }

  /** Two mentions that make the pair, near in observations and not in mentions. */
  ghost predicate CrowdedOut(observations: seq<Observation>, pair: Pair) {
    var mentions := Mentions(observations);
    exists p :: p in NearFor(observations, pair) && Number(mentions, p.1) > Number(mentions, p.0) + WINDOW
  }

  lemma JoinedIsNear(observations: seq<Observation>, pair: Pair, p: (nat, nat))
    ensures
      var mentions := Mentions(observations);
      p in JoinedFor(mentions, pair)
      <==> p in NearFor(observations, pair) && Number(mentions, p.1) <= Number(mentions, p.0) + WINDOW
  {
    var mentions := Mentions(observations);
    if p.0 < |mentions| && p.1 < |mentions| {
      CloseIsNearInTurns(observations, p.0, p.1);
      assert p in JoinedFor(mentions, pair) <==>
          Close(mentions, p.0, p.1) && Between(mentions[p.0].file, mentions[p.1].file) == pair;
    }
  }

  lemma PartOfEqualSize<T>(part: set<T>, whole: set<T>)
    requires part <= whole
    ensures |part| <= |whole| && (|part| == |whole| <==> part == whole)
  {
    assert whole == part + (whole - part);
  }

  /**
   * The weight is never more than the documentation describes, and the same exactly when no two mentions that make the
   * pair are near in observations but crowded out in mentions.
   */
  lemma WindowsAgreeExactlyWhen(observations: seq<Observation>, pair: Pair)
    ensures Weight(Mentions(observations), pair) <= TurnWeight(observations, pair)
    ensures Weight(Mentions(observations), pair) == TurnWeight(observations, pair) <==> !CrowdedOut(observations, pair)
  {
    var joined, near := JoinedFor(Mentions(observations), pair), NearFor(observations, pair);
    forall p ensures p in joined ==> p in near {
      JoinedIsNear(observations, pair, p);
    }
    PartOfEqualSize(joined, near);
    forall p | p in near
      ensures p in joined <==> Number(Mentions(observations), p.1) <= Number(Mentions(observations), p.0) + WINDOW
    {
      JoinedIsNear(observations, pair, p);
    }
  }

  // ----- one file at a time, and five at once -----

  ghost predicate OneFileEach(observations: seq<Observation>) {
    forall i :: 0 <= i < |observations| ==> |Named(observations[i].files)| <= 1
  }

  lemma {:induction false} TurnIsNumber(observations: seq<Observation>, session: string, k: nat)
    requires OneFileEach(observations)
    ensures Touching(observations, session) == |Steps(Mentions(observations), session)|
    ensures k < |Mentions(observations)| ==> Turn(observations, k) == Number(Mentions(observations), k)
    decreases |observations|
  {
    if observations != [] {
      var n := |observations| - 1;
      var mentions := Mentions(observations);
      TurnIsNumber(observations[..n], session, k);
      LastSteps(observations, session);
      if |Mentions(observations[..n])| <= k < |mentions| {
        var owner := observations[n].session;
        TurnIsNumber(observations[..n], owner, k);
        LastSteps(observations, owner);
        LastMentions(observations, k);
        assert k == |mentions| - 1;
        assert mentions[..k + 1] == mentions;
      } else if k < |mentions| {
        LastMentions(observations, k);
      }
    }
  }

  /** When every observation names at most one file the two agree. */
  lemma OneFileEachAgrees(observations: seq<Observation>, pair: Pair)
    requires OneFileEach(observations)
    ensures Weight(Mentions(observations), pair) == TurnWeight(observations, pair)
  {
    forall p | p in NearFor(observations, pair)
      ensures Number(Mentions(observations), p.1) <= Number(Mentions(observations), p.0) + WINDOW
    {
      TurnIsNumber(observations, "", p.0);
      TurnIsNumber(observations, "", p.1);
    }
    WindowsAgreeExactlyWhen(observations, pair);
  }

  ghost predicate Ascending(files: seq<string>) {
    && (forall i :: 0 <= i < |files| ==> files[i] != "")
    && forall i, j :: 0 <= i < j < |files| ==> Less(files[i], files[j])
  }

  lemma {:induction false} NamedOfAscending(files: seq<string>)
    requires Ascending(files)
    ensures Named(files) == files
  {
    if files != [] {
      NamedOfAscending(files[1..]);
      if |files| > 1 {
        LessIsTotal(files[0], files[1]);
      }
    }
  }

  lemma OneObservation(session: string, files: seq<string>, k: nat)
    requires Ascending(files) && k < |files|
    ensures
      var observations := [Observation(session, files)];
      && Mentions(observations) == Tagged(session, files)
      && Number(Mentions(observations), k) == k + 1 && Turn(observations, k) == 1
  {
    var observations := [Observation(session, files)];
    NamedOfAscending(files);
    assert observations[..|observations| - 1] == [];
    assert Touching(observations, session) == 1;
    assert [] + Tagged(session, files) == Tagged(session, files);
    assert Tagged(session, files)[..k + 1] == [] + Tagged(session, files[..k + 1]);
    StepsOfTagged([], session, files[..k + 1], session);
  }

  /** One observation that names five files: the first and the fifth are not counted together. */
  lemma FiveFilesAtOnce(session: string, files: seq<string>)
    requires Ascending(files) && |files| >= 5
    ensures
      var observations := [Observation(session, files)];
      var pair := Between(files[0], files[4]);
      Weight(Mentions(observations), pair) < TurnWeight(observations, pair)
  {
    var observations := [Observation(session, files)];
    var pair := Between(files[0], files[4]);
    OneObservation(session, files, 0);
    OneObservation(session, files, 4);
    LessIsTotal(files[0], files[4]);
    assert (0, 4) in NearFor(observations, pair);
    WindowsAgreeExactlyWhen(observations, pair);
  }
}
