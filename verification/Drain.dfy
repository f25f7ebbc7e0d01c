// Summarising sessions in batches until none is left.
module Drain {
  import opened Strings
  import Retry

  type Id = string

  const BATCH := 25
  const MAX_BATCHES := 200
  const OBSERVATIONS := 400
  const OBSERVATIONS_RETRY := 60

  /** A session: its team, when it ended, what it was summarised as, and how much it recorded. */
  datatype Session = Session(team: string, ended: Option<int>, summary: Option<string>, recorded: nat)
  type Sessions = map<Id, Session>

  /** Closed and not yet summarised, even by an empty summary. */
  predicate Waiting(s: Session) {
    s.ended.Some? && s.summary.None?
  }

  function Queue(sessions: Sessions): set<Id> {
    set id | id in sessions && Waiting(sessions[id])
  }

  function Least(a: nat, b: nat): nat {
    if a < b then a else b
  }

  // ----- taking a batch -----

  ghost predicate Distinct(ids: seq<Id>) {
    forall i, j :: 0 <= i < j < |ids| ==> ids[i] != ids[j]
  }

  /** Waiting sessions, each at least as long as any that is not before it. */
  ghost predicate LongestFirst(sessions: Sessions, batch: seq<Id>) {
    && Distinct(batch)
    && (forall id :: id in batch ==> id in Queue(sessions))
    && (forall i, id :: 0 <= i < |batch| && id in Queue(sessions) && id !in batch[..i] ==>
        NotLater(sessions, batch[i], id))
  }

  ghost predicate IsBatch(sessions: Sessions, batch: seq<Id>, limit: nat) {
    LongestFirst(sessions, batch) && |batch| == Least(limit, |Queue(sessions)|)
  }

  ghost predicate NotLater(sessions: Sessions, a: Id, b: Id) {
    a in sessions && b in sessions && Waiting(sessions[a]) && Waiting(sessions[b])
    && sessions[a].ended.value <= sessions[b].ended.value
  }

  method SessionsAwaitingSummary(sessions: Sessions, asked: int) returns (batch: seq<Id>)
    ensures IsBatch(sessions, batch, if asked <= 0 || asked > 200 then 25 else asked)
  {
    var limit := if asked <= 0 || asked > 200 then 25 else asked;
    batch := [];
    var left := Queue(sessions);
    while |batch| < limit && left != {}
      invariant |batch| <= limit && LongestFirst(sessions, batch)
      invariant left == Queue(sessions) - Ids(batch) && |Queue(sessions)| == |left| + |batch|
      decreases |left|
    {
      var first := LongestWaiting(sessions, left);
      OneMore(sessions, batch, first);
      left := left - {first};
      batch := batch + [first];
    }
  }

  lemma OneMore(sessions: Sessions, batch: seq<Id>, first: Id)
    requires LongestFirst(sessions, batch) && first in Queue(sessions) - Ids(batch)
    requires forall id :: id in Queue(sessions) - Ids(batch) ==> NotLater(sessions, first, id)
    ensures LongestFirst(sessions, batch + [first]) && Ids(batch + [first]) == Ids(batch) + {first}
  {
    var more := batch + [first];
    forall i, id | 0 <= i < |more| && id in Queue(sessions) && id !in more[..i]
      ensures NotLater(sessions, more[i], id)
    {
      assert more[..i] == batch[..i];
      assert batch[..|batch|] == batch;
    }
  }

  function Ids(batch: seq<Id>): set<Id> {
    set id | id in batch
  }

  method LongestWaiting(sessions: Sessions, ids: set<Id>) returns (first: Id)
    requires ids != {} && ids <= Queue(sessions)
    ensures first in ids && forall id :: id in ids ==> NotLater(sessions, first, id)
  {
    first :| first in ids;
    var left := ids - {first};
    while left != {}
      invariant first in ids && left <= ids
      invariant forall id :: id in ids && id !in left ==> NotLater(sessions, first, id)
      decreases left
    {
      var id :| id in left;
      if sessions[id].ended.value < sessions[first].ended.value {
        first := id;
      }
      left := left - {id};
    }
  }

  lemma {:induction false} DistinctCount(ids: seq<Id>)
    requires Distinct(ids)
    ensures |Ids(ids)| == |ids|
  {
    if ids != [] {
      var n := |ids| - 1;
      DistinctCount(ids[..n]);
      assert Ids(ids) == Ids(ids[..n]) + {ids[n]};
    }
  }

  // ----- summarising -----

  /** The sessions after some of them have been marked. */
  ghost predicate MarkedBy(after: Sessions, before: Sessions, marked: set<Id>) {
    && after.Keys == before.Keys
    && marked <= Queue(before)
    && (forall id :: id in before && id !in marked ==> after[id] == before[id])
    && (forall id :: id in marked ==>
        id in before && after[id] == before[id].(summary := after[id].summary) && after[id].summary.Some?)
  }

  /** Marking takes exactly the marked sessions off the queue. */
  lemma MarkedLeaveTheQueue(after: Sessions, before: Sessions, marked: set<Id>)
    requires MarkedBy(after, before, marked)
    ensures Queue(after) == Queue(before) - marked
    ensures |Queue(after)| == |Queue(before)| - |marked|
  {
    assert Queue(before) == Queue(after) + marked;
    assert Queue(after) !! marked;
  }

  /** The provider answers, or spends its budget, but never fails otherwise. */
  ghost predicate Smooth(provider: nat -> Retry.Attempt) {
    forall n: nat :: Retry.Completion(provider, n) != Retry.GaveUp(Retry.BudgetSpent) ==>
        Retry.Completion(provider, n).Got?
  }

  /** The answer that counts for a session: a long one is tried again in short when the first answer
      spends the budget. */
  function AnswerFor(provider: nat -> Retry.Attempt, asked: nat, recorded: nat): Retry.Result {
    var first := Retry.Completion(provider, asked);
    if first == Retry.GaveUp(Retry.BudgetSpent) && recorded > OBSERVATIONS_RETRY
    then Retry.Completion(provider, asked + Retry.Attempts(provider, asked, 0))
    else first
  }

  /** What a session is marked with: nothing when it recorded nothing or no summary could be made. */
  function SummaryFor(provider: nat -> Retry.Attempt, asked: nat, recorded: nat): Option<string> {
    if recorded == 0 then Some("")
    else
      match AnswerFor(provider, asked, recorded)
      case Got(text) => Some(TrimSpace(text))
      case GaveUp(last) => if last.BudgetSpent? then Some("") else None
  }

  datatype Fault = Failed(last: Retry.Attempt)

  class Worker {
    var sessions: Sessions
    var asked: nat
    var completions: nat
    const provider: nat -> Retry.Attempt

    constructor (sessions: Sessions, provider: nat -> Retry.Attempt)
      ensures this.sessions == sessions && this.provider == provider && asked == 0 && completions == 0
    {
      this.sessions, this.provider, asked, completions := sessions, provider, 0, 0;
    }

    method Mark(id: Id, summary: string)
      requires id in sessions
      modifies this`sessions
      ensures sessions == old(sessions)[id := old(sessions)[id].(summary := Some(summary))]
    {
      sessions := sessions[id := sessions[id].(summary := Some(summary))];
    }

    method Complete() returns (result: Retry.Result)
      modifies this`asked, this`completions
      ensures completions == old(completions) + 1
      ensures result == Retry.Completion(provider, old(asked))
          && asked == old(asked) + Retry.Attempts(provider, old(asked), 0)
    {
      var attempts, waits;
      result, attempts, waits := Retry.CompleteWithRetry(provider, asked);
      asked := asked + attempts;
      completions := completions + 1;
    }

    /** A session too large to summarise in one call is tried once more on a shorter slice. */
    method CompleteOrShorter(obs: nat, recorded: nat) returns (result: Retry.Result)
      requires obs == Least(recorded, OBSERVATIONS) > 0
      modifies this`asked, this`completions
      ensures result == AnswerFor(provider, old(asked), recorded)
      ensures old(completions) < completions <= old(completions) + 2
      ensures recorded <= OBSERVATIONS_RETRY ==> completions == old(completions) + 1
    {
      result := Complete();
      if result == Retry.GaveUp(Retry.BudgetSpent) && obs > OBSERVATIONS_RETRY {
        var short := Least(recorded, OBSERVATIONS_RETRY);
        if short > 0 {
          result := Complete();
        }
      }
    }

    /** One session: at most two completions, and a summary unless the provider fails. */
    method Summarise(id: Id) returns (fault: Option<Fault>)
      requires id in Queue(sessions)
      modifies this
      ensures old(completions) <= completions <= old(completions) + 2
      ensures fault.None? ==> MarkedBy(sessions, old(sessions), {id})
      ensures fault.Some? ==> sessions == old(sessions) && !Smooth(provider)
      ensures id in sessions && sessions[id].summary == SummaryFor(provider, old(asked), old(sessions)[id].recorded)
      ensures old(sessions)[id].recorded == 0 ==> sessions[id].summary == Some("")
      ensures old(sessions)[id].recorded > 0 ==>
        match Retry.Completion(provider, old(asked))
        case Got(text) => fault.None? && sessions[id].summary == Some(TrimSpace(text))
        case GaveUp(last) =>
          && (!last.BudgetSpent? ==> fault == Some(Failed(last)))
          && (last.BudgetSpent? && old(sessions)[id].recorded <= 60 ==> sessions[id].summary == Some(""))
          && (last.BudgetSpent? && old(sessions)[id].recorded > 60 ==>
              match Retry.Completion(provider, old(asked) + Retry.Attempts(provider, old(asked), 0))
              case Got(text) => fault.None? && sessions[id].summary == Some(TrimSpace(text))
              case GaveUp(again) =>
                if again.BudgetSpent? then sessions[id].summary == Some("") else fault == Some(Failed(again)))
      ensures old(sessions)[id].recorded == 0 ==> completions == old(completions)
      ensures old(sessions)[id].recorded <= OBSERVATIONS_RETRY ==> completions <= old(completions) + 1
    {
      var obs := Least(sessions[id].recorded, OBSERVATIONS);
      if obs == 0 {
        Mark(id, "");
        return None;
      }
      var result := CompleteOrShorter(obs, sessions[id].recorded);
      match result {
        case Got(text) => Mark(id, TrimSpace(text));
        case GaveUp(last) =>
          if last.BudgetSpent? {
            Mark(id, "");
          } else {
            return Some(Failed(last));
          }
      }
      return None;
    }

    /** One batch. What was taken and how much of it was summarised are told apart when it stops early. */
    method Tier1Once() returns (n: nat, fault: Option<Fault>, ghost batch: seq<Id>, ghost done: nat)
      modifies this
      ensures IsBatch(old(sessions), batch, 25) && n == |batch| && done <= n
      ensures MarkedBy(sessions, old(sessions), Ids(batch[..done]))
      ensures fault.None? ==> done == n
      ensures fault.Some? ==> done < n && !Smooth(provider)
      ensures old(completions) <= completions <= old(completions) + 2 * (if fault.Some? then done + 1 else done)
    {
      var found := SessionsAwaitingSummary(sessions, BATCH);
      batch, done, n, fault := found, 0, |found|, None;
      for i := 0 to |found|
        invariant done == i && fault.None?
        invariant MarkedBy(sessions, old(sessions), Ids(batch[..i]))
        invariant old(completions) <= completions <= old(completions) + 2 * i
      {
        ghost var before := sessions;
        StillWaiting(before, old(sessions), batch, i);
        fault := Summarise(found[i]);
        if fault.Some? {
          return;
        }
        MarkedFurther(sessions, before, old(sessions), batch, i);
        done := done + 1;
      }
    }

    /** Batches until one is not full, and two hundred at most. */
    method DrainTier1() returns (batches: nat, fault: Option<Fault>, ghost visited: seq<Id>)
      modifies this
      ensures batches <= 200 && Distinct(visited)
      ensures MarkedBy(sessions, old(sessions), Ids(visited))
      ensures fault.Some? ==> !Smooth(provider)
      ensures completions <= old(completions) + 2 * (if fault.Some? then |visited| + 1 else |visited|)
      ensures fault.None? ==> Drained(|Queue(old(sessions))|, batches, |Queue(sessions)|)
    {
      ghost var n0 := |Queue(sessions)|;
      batches, visited, fault := 0, [], None;
      NothingMarked(sessions);
      for i := 1 to MAX_BATCHES + 1
        invariant batches == i - 1 && fault.None? && Distinct(visited)
        invariant MarkedBy(sessions, old(sessions), Ids(visited))
        invariant |visited| == BATCH * (i - 1) && |Queue(sessions)| + |visited| == n0
        invariant completions <= old(completions) + 2 * |visited|
      {
        ghost var before := sessions;
        var n;
        ghost var batch, done;
        n, fault, batch, done := Tier1Once();
        batches := i;
        OneMoreBatch(sessions, before, old(sessions), visited, batch, done);
        visited := visited + batch[..done];
        if fault.Some? {
          return;
        }
        if n < BATCH {
          return;
        }
      }
    }
  }

  /** A backlog below the ceiling is emptied, and one more batch than it fills is asked for; above it,
      two hundred full batches are done. */
  ghost predicate Drained(backlog: nat, batches: nat, left: nat) {
    if backlog < 5000 then left == 0 && batches == backlog / 25 + 1
    else left == backlog - 5000 && batches == 200
  }

  lemma NothingMarked(sessions: Sessions)
    ensures MarkedBy(sessions, sessions, Ids([]))
  {
  }

  lemma OneMoreBatch(after: Sessions, now: Sessions, before: Sessions, visited: seq<Id>, batch: seq<Id>, done: nat)
    requires MarkedBy(now, before, Ids(visited)) && Distinct(visited)
    requires done <= |batch| && LongestFirst(now, batch) && MarkedBy(after, now, Ids(batch[..done]))
    ensures MarkedBy(after, before, Ids(visited + batch[..done])) && Distinct(visited + batch[..done])
    ensures |Queue(after)| + |visited + batch[..done]| == |Queue(now)| + |visited|
  {
    var some := batch[..done];
    MarkedMore(after, now, before, Ids(visited), Ids(some));
    DistinctConcat(visited, some);
    DistinctCount(some);
    MarkedLeaveTheQueue(after, now, Ids(some));
  }

  lemma MarkedMore(after: Sessions, now: Sessions, before: Sessions, a: set<Id>, b: set<Id>)
    requires MarkedBy(now, before, a) && MarkedBy(after, now, b)
    ensures MarkedBy(after, before, a + b) && a !! b
  {
    MarkedLeaveTheQueue(now, before, a);
  }

  lemma DistinctConcat(a: seq<Id>, b: seq<Id>)
    requires Distinct(a) && Distinct(b) && Ids(a) !! Ids(b)
    ensures Distinct(a + b) && Ids(a + b) == Ids(a) + Ids(b)
  {
    forall i, j | 0 <= i < |a| && 0 <= j < |b|
      ensures a[i] != b[j]
    {
      assert a[i] in Ids(a) && b[j] in Ids(b);
    }
  }

  lemma StillWaiting(now: Sessions, before: Sessions, batch: seq<Id>, i: nat)
    requires i < |batch| && Distinct(batch) && (forall id :: id in batch ==> id in Queue(before))
    requires MarkedBy(now, before, Ids(batch[..i]))
    ensures batch[i] in Queue(now)
  {
    assert batch[i] in batch;
  }

  lemma MarkedFurther(after: Sessions, now: Sessions, before: Sessions, batch: seq<Id>, i: nat)
    requires i < |batch| && MarkedBy(now, before, Ids(batch[..i])) && MarkedBy(after, now, {batch[i]})
    requires batch[i] in Queue(before)
    ensures MarkedBy(after, before, Ids(batch[..i + 1]))
  {
    assert Ids(batch[..i + 1]) == Ids(batch[..i]) + {batch[i]};
  }

  // ----- progress -----

  function Eligible(sessions: Sessions, team: string): set<Id> {
    set id | id in sessions && sessions[id].team == team && sessions[id].ended.Some?
  }

  function Read(sessions: Sessions, team: string): set<Id> {
    set id | id in sessions && sessions[id].team == team && sessions[id].ended.Some? && sessions[id].summary.Some?
  }

  function QueueOf(sessions: Sessions, team: string): set<Id> {
    set id | id in Queue(sessions) && sessions[id].team == team
  }

  /** What is reported as still to read is the team's part of the queue, and as sessions are marked it
      only shrinks, by what was marked. */
  lemma ProgressIsTheQueue(after: Sessions, before: Sessions, marked: set<Id>, team: string)
    requires MarkedBy(after, before, marked)
    ensures |Eligible(before, team)| - |Read(before, team)| == |QueueOf(before, team)|
    ensures Eligible(after, team) == Eligible(before, team)
    ensures |Read(after, team)| == |Read(before, team)| + |marked * QueueOf(before, team)|
  {
    EligibleIsReadOrWaiting(before, team);
    ReadGrows(after, before, marked, team);
  }

  lemma EligibleIsReadOrWaiting(sessions: Sessions, team: string)
    ensures |Eligible(sessions, team)| == |Read(sessions, team)| + |QueueOf(sessions, team)|
  {
    assert Eligible(sessions, team) == Read(sessions, team) + QueueOf(sessions, team);
    assert Read(sessions, team) !! QueueOf(sessions, team);
  }

  lemma ReadGrows(after: Sessions, before: Sessions, marked: set<Id>, team: string)
    requires MarkedBy(after, before, marked)
    ensures Eligible(after, team) == Eligible(before, team)
    ensures |Read(after, team)| == |Read(before, team)| + |marked * QueueOf(before, team)|
  {
    assert Read(after, team) == Read(before, team) + marked * QueueOf(before, team);
    assert Read(before, team) !! marked * QueueOf(before, team);
  }
}
