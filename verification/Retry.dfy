// Asking a model provider again. Waits are in seconds.
module Retry {
  const MAX_ATTEMPTS := 5
  const BACKOFF_BASE := 3

  /** How one attempt ends. A refused request carries the status and the wait the provider asked for;
      other failures, such as a broken connection, carry nothing. */
  datatype Attempt = Answered(text: string) | BudgetSpent | Refused(status: int, retryAfter: int) | Broken

  datatype Result = Got(text: string) | GaveUp(last: Attempt)

  /** Worth waiting for: too many requests, or trouble on the provider's side. */
  predicate Transient(status: int) {
    status == 429 || 500 <= status <= 599
  }

  /** No later attempt can end otherwise, or none is needed. */
  predicate Final(a: Attempt) {
    a.Answered? || a.BudgetSpent? || (a.Refused? && !Transient(a.status))
  }

  /** An attempt that is worth another: a broken connection, too many requests, or trouble on the other side. */
  ghost predicate AskedAgain(a: Attempt) {
    a.Broken? || (a.Refused? && (a.status == 429 || (a.status >= 500 && a.status < 600)))
  }

  method Backoff(attempt: nat) returns (wait: nat)
    requires attempt > 0
    ensures wait == Tripled(attempt)
  {
    wait := BACKOFF_BASE;
    for i := 1 to attempt
      invariant wait == Tripled(i)
    {
      wait := wait * 3;
    }
  }

  /** Three to the power of the attempt. */
  function Tripled(attempt: nat): nat {
    if attempt == 0 then 1 else 3 * Tripled(attempt - 1)
  }

  /** How many attempts a run of outcomes takes: up to the first final one, and five at most. */
  function Attempts(outcome: nat -> Attempt, from: nat, done: nat): (n: nat)
    requires done < MAX_ATTEMPTS
    ensures n > done
    decreases MAX_ATTEMPTS - done
  {
    if Final(outcome(from)) || done + 1 == MAX_ATTEMPTS then done + 1 else Attempts(outcome, from + 1, done + 1)
  }

  function WaitAfter(a: Attempt, retry: nat): int {
    if a.Refused? && a.retryAfter > Tripled(retry) then a.retryAfter else Tripled(retry)
  }

  /** The wait before a repeated attempt is three seconds, tripled each time, or what the provider asks for if more. */
  lemma WaitsTriple(a: Attempt)
    ensures WaitAfter(a, 1) == (if a.Refused? && a.retryAfter >= 3 then a.retryAfter else 3)
    ensures WaitAfter(a, 2) == (if a.Refused? && a.retryAfter >= 9 then a.retryAfter else 9)
    ensures WaitAfter(a, 3) == (if a.Refused? && a.retryAfter >= 27 then a.retryAfter else 27)
    ensures WaitAfter(a, 4) == (if a.Refused? && a.retryAfter >= 81 then a.retryAfter else 81)
  {
    BackoffsAddUp();
  }

  function Completion(outcome: nat -> Attempt, from: nat): Result {
    var last := outcome(from + Attempts(outcome, from, 0) - 1);
    if last.Answered? then Got(last.text) else GaveUp(last)
  }

  /** `outcome(from + k)` is how the k-th attempt ends. */
  method CompleteWithRetry(outcome: nat -> Attempt, from: nat) returns (result: Result, attempts: nat, waits: seq<int>)
    ensures attempts == Attempts(outcome, from, 0)
    ensures result == Completion(outcome, from)
    ensures |waits| == attempts - 1
    ensures forall k :: 0 <= k < |waits| ==> waits[k] == WaitAfter(outcome(from + k), k + 1)
  {
    waits := [];
    var last := Broken;
    for attempt := 1 to MAX_ATTEMPTS + 1
      invariant attempt <= MAX_ATTEMPTS ==>
          Attempts(outcome, from + attempt - 1, attempt - 1) == Attempts(outcome, from, 0)
      invariant attempt == MAX_ATTEMPTS + 1 ==> Attempts(outcome, from, 0) == MAX_ATTEMPTS
      invariant |waits| == if attempt == 1 then 0 else attempt - 2
      invariant forall k :: 0 <= k < |waits| ==> waits[k] == WaitAfter(outcome(from + k), k + 1)
      invariant attempt > 1 ==> last == outcome(from + attempt - 2) && !last.Answered?
    {
      if attempt > 1 {
        var wait: int := Backoff(attempt - 1);
        if last.Refused? && last.retryAfter > wait {
          wait := last.retryAfter;
        }
        waits := waits + [wait];
      }
      last := outcome(from + attempt - 1);
      if last.Answered? {
        return Got(last.text), attempt, waits;
      }
      if last.BudgetSpent? {
        return GaveUp(last), attempt, waits;
      }
      if last.Refused? && !Transient(last.status) {
        return GaveUp(last), attempt, waits;
      }
    }
    return GaveUp(last), MAX_ATTEMPTS, waits;
  }

  /** It stops at the first final outcome and never before one, unless five attempts are used up. */
  lemma {:induction false} StopsAtTheFirstFinal(outcome: nat -> Attempt, from: nat, done: nat)
    requires done < MAX_ATTEMPTS
    ensures done < Attempts(outcome, from, done) <= MAX_ATTEMPTS
    ensures forall k :: from <= k < from + Attempts(outcome, from, done) - done - 1 ==> !Final(outcome(k))
    ensures Attempts(outcome, from, done) < MAX_ATTEMPTS ==>
        Final(outcome(from + Attempts(outcome, from, done) - 1 - done))
    decreases MAX_ATTEMPTS - done
  {
    if !Final(outcome(from)) && done + 1 < MAX_ATTEMPTS {
      StopsAtTheFirstFinal(outcome, from + 1, done + 1);
    }
  }

  /** It asks again after exactly the attempts that are worth it, and ends with the last one. */
  lemma CompletionSays(outcome: nat -> Attempt, from: nat)
    ensures 1 <= Attempts(outcome, from, 0) <= 5
    ensures var last := from + Attempts(outcome, from, 0) - 1;
      && (forall k :: from <= k < last ==> AskedAgain(outcome(k)))
      && (Attempts(outcome, from, 0) < 5 ==> !AskedAgain(outcome(last)))
      && Completion(outcome, from) == match outcome(last)
        case Answered(text) => Got(text)
        case other => GaveUp(other)
  {
    StopsAtTheFirstFinal(outcome, from, 0);
  }

  // ----- how long the waits are together -----

  /** All waits before attempt `n + 1`. */
  function Waited(outcome: nat -> Attempt, from: nat, n: nat): int {
    if n == 0 then 0 else Waited(outcome, from, n - 1) + WaitAfter(outcome(from + (n - 1)), n)
  }

  /** The provider asked for no longer wait than the program takes anyway. */
  predicate AskedNoLonger(outcome: nat -> Attempt, from: nat, k: nat) {
    outcome(from + k).Refused? ==> outcome(from + k).retryAfter <= Tripled(k + 1)
  }

  predicate NoneLonger(outcome: nat -> Attempt, from: nat, n: nat) {
    forall k :: 0 <= k < n ==> AskedNoLonger(outcome, from, k)
  }

  lemma {:induction false} WaitedAtLeast(outcome: nat -> Attempt, from: nat, n: nat)
    ensures Waited(outcome, from, n) >= Backoffs(n)
    ensures Waited(outcome, from, n) == Backoffs(n) <==> NoneLonger(outcome, from, n)
  {
    if n > 0 {
      WaitedAtLeast(outcome, from, n - 1);
      assert NoneLonger(outcome, from, n) <==> NoneLonger(outcome, from, n - 1) && AskedNoLonger(outcome, from, n - 1);
    }
  }

  function Backoffs(n: nat): nat {
    if n == 0 then 0 else Backoffs(n - 1) + Tripled(n)
  }

  /**
   * The waits of five attempts are two minutes in all, exactly when no longer wait is asked for, and otherwise more;
   * those of up to four attempts, none of them longer, are 39 seconds at most.
   */
  lemma FiveAttemptsWaitTwoMinutes(outcome: nat -> Attempt, from: nat, waits: seq<int>)
    requires |waits| == Attempts(outcome, from, 0) - 1
    requires forall k :: 0 <= k < |waits| ==> waits[k] == WaitAfter(outcome(from + k), k + 1)
    ensures |waits| == 4 ==> Total(waits) >= 120 && (Total(waits) == 120 <==> NoneLonger(outcome, from, 4))
    ensures |waits| < 4 && NoneLonger(outcome, from, |waits|) ==> Total(waits) <= 39
    ensures |waits| <= 4
  {
    StopsAtTheFirstFinal(outcome, from, 0);
    TotalIsWaited(outcome, from, waits);
    WaitedAtLeast(outcome, from, |waits|);
    BackoffsAddUp();
  }

  lemma BackoffsAddUp()
    ensures Backoffs(0) == 0 && Backoffs(1) == 3 && Backoffs(2) == 12 && Backoffs(3) == 39 && Backoffs(4) == 120
  {
    assert Tripled(1) == 3 && Tripled(2) == 9 && Tripled(3) == 27 && Tripled(4) == 81;
  }

  function Total(waits: seq<int>): int {
    if waits == [] then 0 else Total(waits[..|waits| - 1]) + waits[|waits| - 1]
  }

  lemma {:induction false} TotalIsWaited(outcome: nat -> Attempt, from: nat, waits: seq<int>)
    requires forall k :: 0 <= k < |waits| ==> waits[k] == WaitAfter(outcome(from + k), k + 1)
    ensures Total(waits) == Waited(outcome, from, |waits|)
  {
    if waits != [] {
      TotalIsWaited(outcome, from, waits[..|waits| - 1]);
    }
  }
}
