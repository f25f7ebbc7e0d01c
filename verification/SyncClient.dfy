// The client's commands over its mirror and a server: `Save`, `Push`, `Pull` and `Sync`.
module SyncClient {
  import opened Store
  import opened ChangeStream
  import opened Mirror
  import opened SyncProtocol

  /** What the network does with one write request. */
  datatype Delivery = Delivered | RequestLost | ReplyLost | ServerError(ran: bool)

  ghost predicate Exec(c: Config, trace: seq<State>, events: seq<Event>) {
    && |trace| == |events| + 1
    && forall k :: 0 <= k < |events| ==> Step(c, trace[k], events[k], trace[k + 1])
  }

  /** A clock that is ahead of the table and moves with every request. */
  ghost predicate Ticks(rows: seq<Row>, clock: nat -> nat) {
    && (forall i :: 0 <= i < |rows| ==> rows[i].updatedAt < clock(0))
    && (forall k: nat :: clock(k) < clock(k + 1))
  }

  lemma ExecOneMore(c: Config, trace: seq<State>, events: seq<Event>, e: Event, s: State)
    requires Exec(c, trace, events) && Step(c, trace[|events|], e, s)
    ensures Exec(c, trace + [s], events + [e])
    ensures (trace + [s])[0] == trace[0] && (trace + [s])[|events + [e]|] == s
  {
    var trace', events' := trace + [s], events + [e];
    forall k | 0 <= k < |events'| ensures Step(c, trace'[k], events'[k], trace'[k + 1]) {
      if k < |events| {
        assert Step(c, trace[k], events[k], trace[k + 1]);
      }
    }
  }

  lemma {:induction false} ExecKeepsInv(c: Config, trace: seq<State>, events: seq<Event>)
    requires Exec(c, trace, events) && Inv(c, trace[0])
    ensures Inv(c, trace[|events|])
    decreases |events|
  {
    if events != [] {
      var n := |events| - 1;
      assert Exec(c, trace[..n + 1], events[..n]) by {
        forall k | 0 <= k < n ensures Step(c, trace[..n + 1][k], events[..n][k], trace[..n + 1][k + 1]) {
          assert Step(c, trace[k], events[k], trace[k + 1]);
        }
      }
      ExecKeepsInv(c, trace[..n + 1], events[..n]);
      StepKeepsInv(c, trace[n], events[n], trace[n + 1]);
    }
  }

  /** The mirror is the server's visible live rows, no more and no less. */
  ghost predicate Replica(rows: seq<Row>, me: Identity, mirror: map<Id, Row>) {
    && (forall i :: 0 <= i < |rows| && Visible(me, rows[i]) ==> Reflects(mirror, rows[i]))
    && (forall id :: id in mirror ==>
          exists i :: 0 <= i < |rows| && rows[i] == mirror[id] && rows[i].id == id && Visible(me, rows[i])
              && !rows[i].deleted)
  }

  lemma DrainedMirrorIsReplica(rows: seq<Row>, me: Identity, mirror: map<Id, Row>, cursor: Stamp)
    requires MirrorOk(rows, me, mirror, cursor) && Pending(rows, me, cursor) == []
    ensures Replica(rows, me, mirror)
  {
    forall r | r in rows && Visible(me, r) ensures !cursor.Before(StampOf(r)) {
      assert r !in Pending(rows, me, cursor);
    }
    forall id | id in mirror
      ensures exists i ::
          0 <= i < |rows| && rows[i] == mirror[id] && rows[i].id == id && Visible(me, rows[i]) && !rows[i].deleted
    {
      var i :| 0 <= i < |rows| && rows[i].id == id && Visible(me, rows[i]);
      assert Reflects(mirror, rows[i]);
    }
  }

  class SyncingClient {
    const me: Identity
    const store: MemoryStore
    const mirror: LocalMirror
    var offline: bool

    constructor (me: Identity, store: MemoryStore, mirror: LocalMirror)
      ensures this.me == me && this.store == store && this.mirror == mirror && !offline
    {
      this.me, this.store, this.mirror, offline := me, store, mirror, false;
    }

    ghost function Settings(): Config {
      Config(me, mirror.queueMax)
    }

    /** The protocol state this client and its server are in, while in the given phase. */
    ghost function At(phase: Phase): State
      reads store, mirror
    {
      State(store.rows, mirror.queue, AsMap(mirror.memories), mirror.cursor, phase)
    }

    ghost predicate Valid()
      reads store, mirror
    {
      store.Valid() && mirror.Valid() && Inv(Settings(), At(Idle))
    }

    /** One POST of a write, as the network and the server treat it. */
    method Post(w: MemoryInput, how: Delivery, now: nat) returns (seen: Outcome)
      requires store.Valid() && w.id != BLANK
      requires forall i :: 0 <= i < |store.rows| ==> store.rows[i].updatedAt < now
      modifies this`offline, store
      ensures store.Valid()
      ensures forall i :: 0 <= i < |store.rows| ==> store.rows[i].updatedAt <= now
      ensures offline == (old(offline) || seen.Lost?)
      ensures seen.Lost? <==> Unanswered(how)
      ensures seen == Accepted <==> how == Delivered && w.valid
      ensures if seen == Accepted || seen == Refused(true) || seen == Lost(true)
              then Creates(old(store.rows), me, w, now, store.rows) else store.rows == old(store.rows)
    {
      if how != RequestLost && (how.ServerError? ==> how.ran) {
        var _ := store.CreateMemory(me, w, w.id, now);
      }
      match how {
        case Delivered => seen := if w.valid then Accepted else Refused(false);
        case RequestLost => seen, offline := Lost(false), true;
        case ReplyLost => seen, offline := Lost(w.valid), true;
        case ServerError(ran) => seen := Refused(ran && w.valid);
      }
    }

    /** Sends write `k` of the snapshot: one step of the protocol. */
    method SendNext(queue: seq<MemoryInput>, k: nat, how: Delivery, now: nat,
                    ghost done: seq<Id>, ghost trace: seq<State>, ghost events: seq<Event>)
      returns (seen: Outcome, ghost trace': seq<State>, ghost events': seq<Event>)
      requires store.Valid() && QueueIds(queue) && k < |queue|
      requires forall i :: 0 <= i < |store.rows| ==> store.rows[i].updatedAt < now
      requires Exec(Settings(), trace, events) && trace[|events|] == At(Pushing(queue, k, done))
      modifies this`offline, store
      ensures store.Valid()
      ensures forall i :: 0 <= i < |store.rows| ==> store.rows[i].updatedAt <= now
      ensures offline == (old(offline) || seen.Lost?)
      ensures seen.Lost? <==> Unanswered(how)
      ensures seen == Accepted <==> how == Delivered && queue[k].valid
      ensures Exec(Settings(), trace', events') && trace'[0] == trace[0]
      ensures trace'[|events'|] == At(After(queue, k, done, seen))
    {
      ghost var before := At(Pushing(queue, k, done));
      seen := Post(queue[k], how, now);
      assert Step(Settings(), before, Send(seen, now), At(After(queue, k, done, seen)));
      ExecOneMore(Settings(), trace, events, Send(seen, now), At(After(queue, k, done, seen)));
      trace', events' := trace + [At(After(queue, k, done, seen))], events + [Send(seen, now)];
    }

    /** The loop of a push: sends the snapshot in order and stops at the first request that finds no server. */
    method SendAll(queue: seq<MemoryInput>, net: nat -> Delivery, clock: nat -> nat,
                   ghost trace0: seq<State>, ghost events0: seq<Event>)
      returns (done: seq<Id>, failed: nat, cut: bool, ghost trace: seq<State>, ghost events: seq<Event>)
      requires store.Valid() && QueueIds(queue) && Ticks(store.rows, clock)
      requires Exec(Settings(), trace0, events0) && trace0[|events0|] == At(Pushing(queue, 0, []))
      modifies this`offline, store
      ensures store.Valid() && Exec(Settings(), trace, events) && trace[0] == trace0[0]
      ensures trace[|events|] == At(if cut then Idle else Pushing(queue, |queue|, done))
      ensures offline == (old(offline) || cut)
      ensures cut <==> exists k :: 0 <= k < |queue| && Unanswered(net(k))
      ensures !cut ==> done == Landed(queue, |queue|, net) && |done| + failed == |queue|
    {
      done, failed, cut, trace, events := [], 0, false, trace0, events0;
      for k := 0 to |queue|
        invariant store.Valid() && offline == old(offline)
        invariant forall i :: 0 <= i < |store.rows| ==> store.rows[i].updatedAt < clock(k)
        invariant Exec(Settings(), trace, events) && trace[0] == trace0[0]
        invariant trace[|events|] == At(Pushing(queue, k, done))
        invariant |done| + failed == k && done == Landed(queue, k, net)
        invariant forall j :: 0 <= j < k ==> !Unanswered(net(j))
      {
        assert clock(k) < clock(k + 1);
        var seen;
        seen, trace, events := SendNext(queue, k, net(k), clock(k), done, trace, events);
        if seen.Lost? {
          cut := true;
          return;
        }
        if seen == Accepted {
          done := done + [queue[k].id];
        } else {
          failed := failed + 1;
        }
      }
    }

    /** Flushes the offline write queue. */
    method Push(net: nat -> Delivery, clock: nat -> nat)
      returns (pushed: nat, failed: nat, cut: bool, ghost trace: seq<State>, ghost events: seq<Event>)
      requires Valid() && Ticks(store.rows, clock)
      modifies this`offline, store, mirror`queue
      ensures Valid() && mirror.memories == old(mirror.memories) && mirror.cursor == old(mirror.cursor)
      ensures Exec(Settings(), trace, events) && trace[0] == old(At(Idle)) && trace[|events|] == At(Idle)
      ensures offline == (old(offline) || cut)
      ensures cut ==> mirror.queue == old(mirror.queue)
      ensures cut <==> exists k :: 0 <= k < |old(mirror.queue)| && Unanswered(net(k))
      ensures !cut ==> pushed + failed == |old(mirror.queue)| && |mirror.queue| == failed
      ensures forall w :: w in mirror.queue ==> w in old(mirror.queue)
      ensures !cut ==> forall k :: 0 <= k < |old(mirror.queue)| ==>
                (old(mirror.queue)[k] in mirror.queue <==> !Lands(old(mirror.queue), net, k))
    {
      pushed, failed, cut := 0, 0, false;
      var queue := mirror.queue;
      trace, events := [At(Idle)], [];
      if queue == [] {
        return;
      }
      ExecOneMore(Settings(), trace, events, StartPush, At(Pushing(queue, 0, [])));
      var done;
      done, failed, cut, trace, events :=
        SendAll(queue, net, clock, trace + [At(Pushing(queue, 0, []))], events + [StartPush]);
      pushed := |done|;
      if !cut {
        mirror.Dequeue(done);
        LandedTally(queue, |queue|, net);
        TallyEnd(queue, done, net);
        ExecOneMore(Settings(), trace, events, FinishPush, At(Idle));
        trace, events := trace + [At(Idle)], events + [FinishPush];
      }
      ExecKeepsInv(Settings(), trace, events);
    }

    /** One round of a pull: fetch a page, apply it, then save its cursor. */
    method PullPage(ghost trace: seq<State>, ghost events: seq<Event>)
      returns (n: nat, more: bool, ghost trace': seq<State>, ghost events': seq<Event>)
      requires store.Valid() && mirror.Valid()
      requires Exec(Settings(), trace, events) && trace[|events|] == At(Pulling)
      modifies mirror`memories, mirror`cursor
      ensures mirror.Valid()
      ensures Exec(Settings(), trace', events') && trace'[0] == trace[0]
      ensures trace'[|events'|] == At(if more then Pulling else Idle)
      ensures n == |Changes(store.rows, me, old(mirror.cursor), PAGE)|
      ensures more ==> |Pending(store.rows, me, mirror.cursor)| < |Pending(store.rows, me, old(mirror.cursor))|
      ensures !more ==> Pending(store.rows, me, mirror.cursor) == []
    {
      var page := Changes(store.rows, me, mirror.cursor, PAGE);
      var next := NextCursor(page, mirror.cursor);
      PageHoldsEverythingUpToItsCursor(store.rows, me, mirror.cursor, PAGE);
      PageDrainsExactlyWhenPendingFits(store.rows, me, mirror.cursor, PAGE);
      n, more := |page|, HasMore(page, PAGE);
      if page == [] {
        ExecOneMore(Settings(), trace, events, Fetch, At(Idle));
        trace', events' := trace + [At(Idle)], events + [Fetch];
        return;
      }
      PendingShrinks(store.rows, me, mirror.cursor, next, page[0]);
      ghost var fetched := At(Fetched(page, next));
      ExecOneMore(Settings(), trace, events, Fetch, fetched);
      forall ch | ch in page ensures ch.id != BLANK {
        var k :| 0 <= k < |page| && page[k] == ch;
      }
      mirror.Apply(page);
      ghost var applied := At(Applied(next, more));
      ExecOneMore(Settings(), trace + [fetched], events + [Fetch], ApplyPage, applied);
      mirror.SetCursor(next);
      ghost var saved := At(if more then Pulling else Idle);
      ExecOneMore(Settings(), trace + [fetched] + [applied], events + [Fetch] + [ApplyPage], SaveCursor, saved);
      trace', events' := trace + [fetched] + [applied] + [saved], events + [Fetch] + [ApplyPage] + [SaveCursor];
    }

    /** Fetches changes into the mirror, page by page, from a server nobody else writes to meanwhile. */
    method Pull(reachable: nat -> bool)
      returns (total: nat, cut: bool, ghost trace: seq<State>, ghost events: seq<Event>)
      requires Valid()
      modifies this`offline, mirror`memories, mirror`cursor
      ensures Valid() && offline == (old(offline) || cut)
      ensures Exec(Settings(), trace, events) && trace[0] == old(At(Idle)) && trace[|events|] == At(Idle)
      ensures (forall k: nat :: reachable(k)) ==> !cut
      ensures !cut ==> Replica(store.rows, me, AsMap(mirror.memories)) && Pending(store.rows, me, mirror.cursor) == []
    {
      total, cut := 0, false;
      trace, events := [At(Idle)], [];
      ExecOneMore(Settings(), trace, events, StartPull, At(Pulling));
      trace, events := trace + [At(Pulling)], events + [StartPull];
      var request, more := 0, true;
      while more
        invariant mirror.Valid() && offline == old(offline)
        invariant Exec(Settings(), trace, events) && trace[0] == old(At(Idle))
        invariant trace[|events|] == At(if more then Pulling else Idle)
        invariant !more ==> Pending(store.rows, me, mirror.cursor) == []
        decreases more, |Pending(store.rows, me, mirror.cursor)|
      {
        if !reachable(request) {
          offline, cut := true, true;
          ExecOneMore(Settings(), trace, events, Crash, At(Idle));
          trace, events := trace + [At(Idle)], events + [Crash];
          ExecKeepsInv(Settings(), trace, events);
          return;
        }
        var n;
        n, more, trace, events := PullPage(trace, events);
        total, request := total + n, request + 1;
      }
      ExecKeepsInv(Settings(), trace, events);
      DrainedMirrorIsReplica(store.rows, me, AsMap(mirror.memories), mirror.cursor);
    }

    /** Pushes the queue, then pulls: a pass that meets the server throughout ends with mirror and server agreeing. */
    method Sync(net: nat -> Delivery, clock: nat -> nat, reachable: nat -> bool)
      returns (pushed: nat, failed: nat, pulled: nat, cut: bool)
      requires Valid() && Ticks(store.rows, clock)
      modifies this`offline, store, mirror
      ensures Valid() && offline == (old(offline) || cut)
      ensures (forall k: nat :: net(k) == Delivered) && (forall k: nat :: reachable(k)) ==>
                !cut && forall w :: w in mirror.queue ==> w in old(mirror.queue) && !w.valid
      ensures !cut ==> Replica(store.rows, me, AsMap(mirror.memories)) && |mirror.queue| == failed
    {
      ghost var trace, events;
      pulled := 0;
      pushed, failed, cut, trace, events := Push(net, clock);
      if !cut {
        pulled, cut, trace, events := Pull(reachable);
      }
    }

    /** What a request has done to the server by the time it is answered or lost. */
    ghost function AfterPost(rows: seq<Row>, input: MemoryInput, how: Delivery, serverDrawn: Id, now: nat): seq<Row> {
      if Executed(how) && input.valid then Inserted(rows, me, WithId(input, serverDrawn), now) else rows
    }

    /**
     * Writes a memory: to the server, or to the queue when the server does not answer. Both sides draw their own
     * id for a write that brings none. When only the reply was lost, the table as it stands then would take in
     * nothing more if the queued copy were sent at once; module LostReply says what happens later.
     */
    method Save(input: MemoryInput, how: Delivery, drawn: Id, serverDrawn: Id, now: nat)
      returns (queued: bool, failed: bool, ghost trace: seq<State>, ghost events: seq<Event>)
      requires Valid() && drawn != BLANK && serverDrawn != BLANK
      requires forall i :: 0 <= i < |store.rows| ==> store.rows[i].updatedAt < now
      requires !Queued(mirror.queue, WithId(input, drawn).id)
      modifies this`offline, store, mirror`queue
      ensures Valid() && offline == (old(offline) || Unanswered(how))
      ensures Exec(Settings(), trace, events) && trace[0] == old(At(Idle)) && trace[|events|] == At(Idle)
      ensures store.rows == AfterPost(old(store.rows), input, how, serverDrawn, now)
      ensures queued <==> Unanswered(how) && |old(mirror.queue)| < mirror.queueMax
      ensures mirror.queue == if queued then old(mirror.queue) + [WithId(input, drawn)] else old(mirror.queue)
      ensures failed <==> how.ServerError? || (how == Delivered && !input.valid)
                          || (Unanswered(how) && |old(mirror.queue)| >= mirror.queueMax)
      ensures how == RequestLost ==> store.rows == old(store.rows)
      ensures how.ServerError? && !how.ran ==> store.rows == old(store.rows)
      ensures input.valid && (how == Delivered || how == ReplyLost || (how.ServerError? && how.ran)) ==>
        store.rows == Inserted(old(store.rows), me, WithId(input, serverDrawn), now)
      ensures how == Delivered || how.ServerError? ==> !queued && offline == old(offline)
      ensures how == RequestLost || how == ReplyLost ==>
        offline && (queued <==> |old(mirror.queue)| < mirror.queueMax)
      ensures queued && how == ReplyLost && input.valid && !HasId(old(store.rows), serverDrawn) ==>
                && (input.id == BLANK ==> HasTwin(store.rows, me, input.project, input.hash))
                && forall t :: Inserted(store.rows, me, WithId(input, drawn), t) == store.rows
    {
      queued, failed, trace, events := false, false, [At(Idle)], [];
      if Executed(how) {
        var _ := store.CreateMemory(me, input, serverDrawn, now);
        if input.valid {
          ExecOneMore(Settings(), trace, events, OtherCreates(me, WithId(input, serverDrawn), now), At(Idle));
          trace, events := trace + [At(Idle)], events + [OtherCreates(me, WithId(input, serverDrawn), now)];
          if !HasId(old(store.rows), serverDrawn) {
            StoredOnce(old(store.rows), me, input, drawn, serverDrawn, now);
          }
        }
      }
      if Unanswered(how) {
        offline := true;
        var w, ok := mirror.Enqueue(input, drawn);
        queued, failed := ok, !ok;
        if ok {
          ExecOneMore(Settings(), trace, events, SyncProtocol.Enqueue(w), At(Idle));
          trace, events := trace + [At(Idle)], events + [SyncProtocol.Enqueue(w)];
        }
      } else {
        failed := how.ServerError? || !input.valid;
      }
      ExecKeepsInv(Settings(), trace, events);
    }
  }

  /** The server runs the request. */
  predicate Executed(how: Delivery) {
    how != RequestLost && (how.ServerError? ==> how.ran)
  }

  /** A write that was taken in is not taken in again under another id. */
  lemma StoredOnce(rows: seq<Row>, me: Identity, input: MemoryInput, drawn: Id, serverDrawn: Id, now: nat)
    requires !HasId(rows, serverDrawn)
    ensures
      var rows' := Inserted(rows, me, WithId(input, serverDrawn), now);
      && (input.id == BLANK ==> HasTwin(rows', me, input.project, input.hash))
      && forall t :: Inserted(rows', me, WithId(input, drawn), t) == rows'
  {
    var rows' := Inserted(rows, me, WithId(input, serverDrawn), now);
    if rows' != rows {
      assert Holds(rows'[|rows|], me, input.project, input.hash);
    }
  }

  function WithId(input: MemoryInput, id: Id): MemoryInput {
    if input.id == BLANK then input.(id := id) else input
  }

  predicate Unanswered(how: Delivery) {
    how == RequestLost || how == ReplyLost
  }

  function After(queue: seq<MemoryInput>, k: nat, done: seq<Id>, seen: Outcome): Phase
    requires k < |queue|
  {
    match seen
    case Accepted => Pushing(queue, k + 1, done + [queue[k].id])
    case Refused(_) => Pushing(queue, k + 1, done)
    case Lost(_) => Idle
  }

  lemma {:induction false} RemainingIgnoresOtherIds(queue: seq<MemoryInput>, done: set<Id>, id: Id)
    requires !Queued(queue, id)
    ensures Remaining(queue, done + {id}) == Remaining(queue, done)
  {
    if queue != [] {
      var front := queue[..|queue| - 1];
      assert !Queued(front, id) by {
        assert forall i :: 0 <= i < |front| ==> front[i] == queue[i];
      }
      RemainingIgnoresOtherIds(front, done, id);
      assert queue[|queue| - 1].id != id;
    }
  }

  /** What sending one more write of a queue does to what would remain. */
  lemma OneMoreSent(queue: seq<MemoryInput>, k: nat, done: seq<Id>)
    requires QueueIds(queue) && k < |queue|
    requires forall id :: id in done ==> Queued(queue[..k], id)
    ensures queue[k].id !in done
    ensures forall id :: id in done + [queue[k].id] ==> Queued(queue[..k + 1], id)
    ensures |Remaining(queue[..k + 1], IdSet(done + [queue[k].id]))| == |Remaining(queue[..k], IdSet(done))|
    ensures |Remaining(queue[..k + 1], IdSet(done))| == |Remaining(queue[..k], IdSet(done))| + 1
  {
    var w := queue[k];
    assert !Queued(queue[..k], w.id);
    forall id | id in done + [w.id] ensures Queued(queue[..k + 1], id) {
      if id == w.id {
        assert queue[..k + 1][k].id == id;
      } else {
        var j :| 0 <= j < k && queue[..k][j].id == id;
        assert queue[..k + 1][j].id == id;
      }
    }
    assert queue[..k + 1][..k] == queue[..k];
    assert (IdSet(done + [w.id])) == IdSet(done) + {w.id};
    RemainingIgnoresOtherIds(queue[..k], IdSet(done), w.id);
  }

  /** Request `j` of a push is executed and answered. */
  predicate Lands(queue: seq<MemoryInput>, net: nat -> Delivery, j: nat)
    requires j < |queue|
  {
    net(j) == Delivered && queue[j].valid
  }

  /** The loop's account of the first `k` requests: `done` are the accepted ones, the rest would remain. */
  ghost predicate Tally(queue: seq<MemoryInput>, k: nat, done: seq<Id>, net: nat -> Delivery) {
    SentIds(queue, k, done, net) && |Remaining(queue[..k], IdSet(done))| + |done| == k
  }

  ghost predicate SentIds(queue: seq<MemoryInput>, k: nat, done: seq<Id>, net: nat -> Delivery) {
    && k <= |queue|
    && (forall id :: id in done ==> Queued(queue[..k], id))
    && (forall j :: 0 <= j < k ==> (queue[j].id in done <==> Lands(queue, net, j)))
  }

  lemma OneMoreId(queue: seq<MemoryInput>, k: nat, done: seq<Id>, done': seq<Id>, net: nat -> Delivery)
    requires QueueIds(queue) && k < |queue| && SentIds(queue, k, done, net)
    requires done' == if Lands(queue, net, k) then done + [queue[k].id] else done
    ensures SentIds(queue, k + 1, done', net)
  {
    var id := queue[k].id;
    assert queue[..k + 1] == queue[..k] + [queue[k]];
    forall other | other in done ensures Queued(queue[..k + 1], other) && other != id {
      var j :| 0 <= j < k && queue[..k][j].id == other;
      assert queue[..k + 1][j].id == other && queue[j].id == other;
    }
    assert queue[..k + 1][k].id == id;
    forall j | 0 <= j < k + 1 ensures queue[j].id in done' <==> Lands(queue, net, j) {
      assert j < k ==> queue[j].id != id;
    }
  }

  /** The ids accepted among the first `k` requests, in order. */
  function Landed(queue: seq<MemoryInput>, k: nat, net: nat -> Delivery): seq<Id>
    requires k <= |queue|
  {
    if k == 0 then []
    else if Lands(queue, net, k - 1) then Landed(queue, k - 1, net) + [queue[k - 1].id]
    else Landed(queue, k - 1, net)
  }

  lemma {:induction false} LandedIds(queue: seq<MemoryInput>, k: nat, net: nat -> Delivery)
    requires QueueIds(queue) && k <= |queue|
    ensures SentIds(queue, k, Landed(queue, k, net), net)
  {
    if k > 0 {
      LandedIds(queue, k - 1, net);
      OneMoreId(queue, k - 1, Landed(queue, k - 1, net), Landed(queue, k, net), net);
    }
  }

  /** How many of the first `k` writes would remain. */
  function LeftOver(queue: seq<MemoryInput>, k: nat, done: seq<Id>): nat
    requires k <= |queue|
  {
    |Remaining(queue[..k], IdSet(done))|
  }

  lemma OneMoreCounted(queue: seq<MemoryInput>, k: nat, done: seq<Id>, done': seq<Id>, net: nat -> Delivery)
    requires QueueIds(queue) && k < |queue| && SentIds(queue, k, done, net)
    requires done' == if Lands(queue, net, k) then done + [queue[k].id] else done
    ensures LeftOver(queue, k + 1, done') + |done'| == LeftOver(queue, k, done) + |done| + 1
  {
    OneMoreSent(queue, k, done);
  }

  /** How many of the first `k` writes landed or would remain. */
  function Accounted(queue: seq<MemoryInput>, k: nat, net: nat -> Delivery): nat
    requires k <= |queue|
  {
    LeftOver(queue, k, Landed(queue, k, net)) + |Landed(queue, k, net)|
  }

  lemma NothingSent(queue: seq<MemoryInput>, net: nat -> Delivery)
    ensures Accounted(queue, 0, net) == 0
  {
  }

  /** One more request: it lands and is counted, or it would remain. */
  lemma LandedGrows(queue: seq<MemoryInput>, k: nat, net: nat -> Delivery)
    requires QueueIds(queue) && k < |queue|
    ensures Accounted(queue, k + 1, net) == Accounted(queue, k, net) + 1
  {
    LandedIds(queue, k, net);
    OneMoreCounted(queue, k, Landed(queue, k, net), Landed(queue, k + 1, net), net);
  }

  lemma {:induction false} LandedCount(queue: seq<MemoryInput>, k: nat, net: nat -> Delivery)
    requires QueueIds(queue) && k <= |queue|
    ensures Accounted(queue, k, net) == k
  {
    if k == 0 {
      NothingSent(queue, net);
    } else {
      LandedCount(queue, k - 1, net);
      LandedGrows(queue, k - 1, net);
    }
  }

  lemma LandedTally(queue: seq<MemoryInput>, k: nat, net: nat -> Delivery)
    requires QueueIds(queue) && k <= |queue|
    ensures Tally(queue, k, Landed(queue, k, net), net)
  {
    LandedIds(queue, k, net);
    LandedCount(queue, k, net);
  }

  lemma TallyEnd(queue: seq<MemoryInput>, done: seq<Id>, net: nat -> Delivery)
    requires Tally(queue, |queue|, done, net)
    ensures |Remaining(queue, IdSet(done))| + |done| == |queue|
    ensures forall k :: 0 <= k < |queue| ==>
              (queue[k] in Remaining(queue, IdSet(done)) <==> !Lands(queue, net, k))
  {
    assert queue[..|queue|] == queue;
  }
}
