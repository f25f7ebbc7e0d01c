// The offline sync protocol as a state machine.
module SyncProtocol {
  // One client, one server, every interleaving and every cut.

  import opened Store
  import opened ChangeStream
  import opened Mirror

  const PAGE := 200

  /** Where the client's one running command is; a crash or an unreachable server drops it back to Idle. */
  datatype Phase =
    | Idle
    | Pushing(snapshot: seq<MemoryInput>, next: nat, done: seq<Id>)
    | Pulling
    | Fetched(page: seq<Row>, upTo: Stamp)
    | Applied(reached: Stamp, more: bool)

  datatype Config = Config(me: Identity, queueMax: nat)

  datatype State = State(rows: seq<Row>, queue: seq<MemoryInput>, mirror: map<Id, Row>, cursor: Stamp, phase: Phase)

  datatype Outcome =
    | Accepted             // executed, and the client saw the reply
    | Refused(ran: bool)   // an error reply; the insert may or may not have been executed
    | Lost(ran: bool)      // no reply: unreachable, or executed and the reply was lost

  datatype Event =
    | Enqueue(w: MemoryInput)
    | StartPush
    | Send(outcome: Outcome, now: nat)
    | FinishPush
    | StartPull
    | Fetch
    | ApplyPage
    | SaveCursor
    | Crash
    | OtherCreates(who: Identity, w: MemoryInput, now: nat)
    | Edit(i: nat, r: Row)

  ghost predicate Init(s: State) {
    s.rows == [] && s.queue == [] && s.mirror == map[] && s.cursor == BOTTOM && s.phase == Idle
  }

  /** The clock assumption: a write is stamped after everything the table already holds. */
  ghost predicate Newest(rows: seq<Row>, t: Stamp) {
    forall i :: 0 <= i < |rows| ==> StampOf(rows[i]).Before(t)
  }

  ghost predicate Creates(rows: seq<Row>, who: Identity, w: MemoryInput, now: nat, rows': seq<Row>) {
    && w.id != BLANK
    && rows' == Inserted(rows, who, w, now)
    && (rows' != rows ==> Newest(rows, Stamp(now, w.id)))
  }

  /** An edit or a delete: a store update, stamped last, that takes no row out of the client's sight. */
  ghost predicate Edits(rows: seq<Row>, me: Identity, i: nat, r: Row, rows': seq<Row>) {
    && Rewrites(rows, i, r, rows')
    && Newest(rows, StampOf(r))
    && (Visible(me, rows[i]) ==> Visible(me, r))
  }

  ghost predicate Step(c: Config, s: State, e: Event, s': State) {
    match e
    case Enqueue(w) =>
      && |s.queue| < c.queueMax && w.id != BLANK && !Queued(s.queue, w.id)
      && s' == s.(queue := s.queue + [w])
    case StartPush =>
      s.phase == Idle && s' == s.(phase := Pushing(s.queue, 0, []))
    case Send(outcome, now) =>
      && s.phase.Pushing? && s.phase.next < |s.phase.snapshot|
      && var w := s.phase.snapshot[s.phase.next];
      (match outcome
      case Accepted =>
        && Creates(s.rows, c.me, w, now, s'.rows)
        && s' == s.(rows := s'.rows, phase := Pushing(s.phase.snapshot, s.phase.next + 1, s.phase.done + [w.id]))
      case Refused(ran) =>
        && (if ran then Creates(s.rows, c.me, w, now, s'.rows) else s'.rows == s.rows)
        && s' == s.(rows := s'.rows, phase := s.phase.(next := s.phase.next + 1))
      case Lost(ran) =>
        && (if ran then Creates(s.rows, c.me, w, now, s'.rows) else s'.rows == s.rows)
        && s' == s.(rows := s'.rows, phase := Idle))
    case FinishPush =>
      && s.phase.Pushing? && s.phase.next == |s.phase.snapshot|
      && s' == s.(queue := Remaining(s.queue, IdSet(s.phase.done)), phase := Idle)
    case StartPull =>
      s.phase == Idle && s' == s.(phase := Pulling)
    case Fetch =>
      && s.phase == Pulling
      && var page := Changes(s.rows, c.me, s.cursor, PAGE);
      && s' == s.(phase := if page == [] then Idle else Fetched(page, NextCursor(page, s.cursor)))
    case ApplyPage =>
      && s.phase.Fetched?
      && s' == s.(mirror := ApplyAll(s.mirror, s.phase.page),
          phase := Applied(s.phase.upTo, HasMore(s.phase.page, PAGE)))
    case SaveCursor =>
      && s.phase.Applied?
      && s' == s.(cursor := s.phase.reached, phase := if s.phase.more then Pulling else Idle)
    case Crash =>
      s' == s.(phase := Idle)
    case OtherCreates(who, w, now) =>
      Creates(s.rows, who, w, now, s'.rows) && s' == s.(rows := s'.rows)
    case Edit(i, r) =>
      Edits(s.rows, c.me, i, r, s'.rows) && s' == s.(rows := s'.rows)
  }

  // ----- the server half of the invariant

  /** How one step may change the table: nothing, one new row, or one live row rewritten with a later stamp. */
  ghost predicate TableStep(me: Identity, rows: seq<Row>, rows': seq<Row>) {
    || rows' == rows
    || (|rows'| == |rows| + 1 && rows' == rows + [rows'[|rows|]] && Newest(rows, StampOf(rows'[|rows|])))
    || exists i: nat, r :: Edits(rows, me, i, r, rows')
  }

  lemma StepChangesTable(c: Config, s: State, e: Event, s': State)
    requires Step(c, s, e, s') && WellFormed(s.rows)
    requires s.phase.Pushing? ==> QueueIds(s.phase.snapshot)
    ensures TableStep(c.me, s.rows, s'.rows) && WellFormed(s'.rows)
  {
    match e {
      case Send(outcome, now) =>
        InsertKeepsSchema(s.rows, c.me, s.phase.snapshot[s.phase.next], now);
      case OtherCreates(who, w, now) =>
        InsertKeepsSchema(s.rows, who, w, now);
      case Edit(i, r) =>
      case _ =>
    }
  }

  // ----- the push half

  ghost predicate PushOk(c: Config, s: State) {
    && |s.queue| <= c.queueMax && QueueIds(s.queue)
    && (s.phase.Pushing? ==>
          && s.phase.next <= |s.phase.snapshot|
          && QueueIds(s.phase.snapshot)
          && (forall w :: w in s.phase.snapshot ==> w in s.queue)
          && (forall id :: id in s.phase.done ==> Queued(s.phase.snapshot[..s.phase.next], id)))
  }

  lemma PushOkKept(c: Config, s: State, e: Event, s': State)
    requires Step(c, s, e, s') && PushOk(c, s)
    ensures PushOk(c, s')
  {
    match e {
      case Send(outcome, now) =>
        var p := s.phase;
        forall id | Queued(p.snapshot[..p.next], id) ensures Queued(p.snapshot[..p.next + 1], id) {
          var k :| 0 <= k < p.next && p.snapshot[..p.next][k].id == id;
          assert p.snapshot[..p.next + 1][k].id == id;
        }
        assert p.snapshot[..p.next + 1][p.next].id == p.snapshot[p.next].id;
      case FinishPush =>
        RemainingKeepsIdsUnique(s.queue, IdSet(s.phase.done));
      case Enqueue(w) =>
        forall i | 0 <= i < |s.queue| ensures s.queue[i].id != w.id {
        }
      case _ =>
    }
  }

  // ----- the pull half

  predicate Reflects(m: map<Id, Row>, r: Row) {
    if r.deleted then r.id !in m else r.id in m && m[r.id] == r
  }

  /** The invariant of the pull: what is stamped up to the cursor is in the mirror as it is on the server. */
  ghost predicate Current(rows: seq<Row>, me: Identity, mirror: map<Id, Row>, cursor: Stamp) {
    forall i :: 0 <= i < |rows| && Visible(me, rows[i]) && !cursor.Before(StampOf(rows[i])) ==>
        Reflects(mirror, rows[i])
  }

  predicate Sees(rows: seq<Row>, me: Identity, id: Id) {
    exists i :: 0 <= i < |rows| && rows[i].id == id && Visible(me, rows[i])
  }

  ghost predicate Known(rows: seq<Row>, me: Identity, mirror: map<Id, Row>) {
    forall id :: id in mirror ==> mirror[id].id == id && Sees(rows, me, id)
  }

  /** The cursor never runs ahead of the table. */
  ghost predicate Reached(rows: seq<Row>, cursor: Stamp) {
    cursor == BOTTOM || exists i :: 0 <= i < |rows| && !StampOf(rows[i]).Before(cursor)
  }

  ghost predicate MirrorOk(rows: seq<Row>, me: Identity, mirror: map<Id, Row>, cursor: Stamp) {
    Current(rows, me, mirror, cursor) && Known(rows, me, mirror) && Reached(rows, cursor)
  }

  /** The server still holds this version of a row, or a version stamped beyond the page. */
  ghost predicate Traced(rows: seq<Row>, me: Identity, upTo: Stamp, r: Row) {
    exists i :: 0 <= i < |rows| && rows[i].id == r.id && Visible(me, rows[i])
        && (rows[i] == r || upTo.Before(StampOf(rows[i])))
  }

  /** A page in flight: everything visible between the two cursors is in it, and nothing in it is made up. */
  ghost predicate PageOk(rows: seq<Row>, me: Identity, cursor: Stamp, page: seq<Row>, upTo: Stamp) {
    && UniqueIds(page) && cursor.Before(upTo) && Reached(rows, upTo)
    && (forall r :: r in page ==> cursor.Before(StampOf(r)) && Traced(rows, me, upTo, r))
    && (forall i ::
          0 <= i < |rows| && Visible(me, rows[i]) && cursor.Before(StampOf(rows[i])) && !upTo.Before(StampOf(rows[i]))
          ==> rows[i] in page)
  }

  ghost predicate PullOk(c: Config, s: State) {
    && MirrorOk(s.rows, c.me, s.mirror, s.cursor)
    && (s.phase.Fetched? ==> PageOk(s.rows, c.me, s.cursor, s.phase.page, s.phase.upTo))
    && (s.phase.Applied? ==> s.cursor.Before(s.phase.reached) && MirrorOk(s.rows, c.me, s.mirror, s.phase.reached))
  }

  /** A stamp after the whole table is after any cursor the table has reached. */
  lemma NewestIsBeyond(rows: seq<Row>, cursor: Stamp, t: Stamp)
    requires Reached(rows, cursor) && Newest(rows, t) && t.id != BLANK
    ensures cursor.Before(t)
  {
    if cursor != BOTTOM {
      var i :| 0 <= i < |rows| && !StampOf(rows[i]).Before(cursor);
      assert StampOf(rows[i]).Before(t);
    }
  }

  /** Every row present before a table step is still there, possibly rewritten with a stamp beyond the cursor. */
  lemma RowsPersist(me: Identity, rows: seq<Row>, rows': seq<Row>, cursor: Stamp)
    requires WellFormed(rows) && WellFormed(rows') && TableStep(me, rows, rows') && Reached(rows, cursor)
    ensures |rows| <= |rows'| <= |rows| + 1
    ensures forall i :: 0 <= i < |rows'| ==>
              (i < |rows| && rows'[i] == rows[i]) || cursor.Before(StampOf(rows'[i]))
    ensures forall i :: 0 <= i < |rows| ==>
              rows'[i].id == rows[i].id && (Visible(me, rows[i]) ==> Visible(me, rows'[i]))
              && !StampOf(rows'[i]).Before(StampOf(rows[i]))
    ensures Reached(rows', cursor)
  {
    if rows' == rows {
    } else if |rows'| == |rows| + 1 && rows' == rows + [rows'[|rows|]] {
      NewestIsBeyond(rows, cursor, StampOf(rows'[|rows|]));
    } else {
      var i: nat, r :| Edits(rows, me, i, r, rows');
      assert rows'[i] == r && r.id != BLANK;
      NewestIsBeyond(rows, cursor, StampOf(r));
    }
    if cursor != BOTTOM {
      var k :| 0 <= k < |rows| && !StampOf(rows[k]).Before(cursor);
      assert !StampOf(rows'[k]).Before(cursor);
    }
  }

  lemma TableStepKeepsMirror(me: Identity, rows: seq<Row>, rows': seq<Row>, mirror: map<Id, Row>, cursor: Stamp)
    requires WellFormed(rows) && WellFormed(rows') && TableStep(me, rows, rows')
    requires MirrorOk(rows, me, mirror, cursor)
    ensures MirrorOk(rows', me, mirror, cursor)
  {
    RowsPersist(me, rows, rows', cursor);
    forall id | id in mirror ensures Sees(rows', me, id) {
      var i :| 0 <= i < |rows| && rows[i].id == id && Visible(me, rows[i]);
      assert rows'[i].id == id;
    }
  }

  lemma TableStepKeepsPage(me: Identity, rows: seq<Row>, rows': seq<Row>, cursor: Stamp, page: seq<Row>, upTo: Stamp)
    requires WellFormed(rows) && WellFormed(rows') && TableStep(me, rows, rows')
    requires PageOk(rows, me, cursor, page, upTo)
    ensures PageOk(rows', me, cursor, page, upTo)
  {
    RowsPersist(me, rows, rows', upTo);
    forall r | r in page ensures Traced(rows', me, upTo, r) {
      var i :| 0 <= i < |rows| && rows[i].id == r.id && Visible(me, rows[i])
          && (rows[i] == r || upTo.Before(StampOf(rows[i])));
      assert rows'[i].id == r.id;
    }
  }

  lemma FetchedPageOk(rows: seq<Row>, me: Identity, cursor: Stamp)
    requires WellFormed(rows)
    requires Changes(rows, me, cursor, PAGE) != []
    ensures
      var page := Changes(rows, me, cursor, PAGE);
      PageOk(rows, me, cursor, page, NextCursor(page, cursor))
  {
    var page := Changes(rows, me, cursor, PAGE);
    var upTo := NextCursor(page, cursor);
    PageHoldsEverythingUpToItsCursor(rows, me, cursor, PAGE);
    StreamAscends(rows, me, cursor);
    forall r | r in page ensures Traced(rows, me, upTo, r) {
      var i :| 0 <= i < |rows| && rows[i] == r;
    }
    SomeRowsAreUnique(rows, page);
    assert page[|page| - 1] in page;
  }

  /** Rows of a table, in ascending order, have distinct ids as the table's own rows have. */
  lemma SomeRowsAreUnique(rows: seq<Row>, page: seq<Row>)
    requires UniqueIds(rows) && Ascending(page) && forall r :: r in page ==> r in rows
    ensures UniqueIds(page)
  {
    forall i, j | 0 <= i < j < |page| ensures page[i].id != page[j].id {
      assert page[i] in page && page[j] in page;
      var k :| 0 <= k < |rows| && rows[k] == page[i];
      var l :| 0 <= l < |rows| && rows[l] == page[j];
      assert StampOf(page[i]).Before(StampOf(page[j]));
    }
    forall i | 0 <= i < |page| ensures page[i].id != BLANK {
      assert page[i] in page;
    }
  }

  /** A row that the mirror reflected still is, or the page says how it is now. */
  lemma AppliedIsCurrent(rows: seq<Row>, me: Identity, mirror: map<Id, Row>, cursor: Stamp, page: seq<Row>, upTo: Stamp)
    requires WellFormed(rows) && Current(rows, me, mirror, cursor) && PageOk(rows, me, cursor, page, upTo)
    ensures Current(rows, me, ApplyAll(mirror, page), upTo)
  {
    ApplyDecidesNamedIds(mirror, page);
    forall i | 0 <= i < |rows| && Visible(me, rows[i]) && !upTo.Before(StampOf(rows[i]))
      ensures Reflects(ApplyAll(mirror, page), rows[i])
    {
      if HasId(page, rows[i].id) {
        PageIsBeyond(rows, me, cursor, page, upTo, i);
      }
    }
  }

  /** A row that a page names and that is no later than the page is later than the cursor. */
  lemma PageIsBeyond(rows: seq<Row>, me: Identity, cursor: Stamp, page: seq<Row>, upTo: Stamp, i: nat)
    requires UniqueIds(rows) && PageOk(rows, me, cursor, page, upTo)
    requires i < |rows| && !upTo.Before(StampOf(rows[i])) && HasId(page, rows[i].id)
    ensures cursor.Before(StampOf(rows[i]))
  {
    var k :| 0 <= k < |page| && page[k].id == rows[i].id;
    assert page[k] in page;
    var j :| 0 <= j < |rows| && rows[j].id == page[k].id && (rows[j] == page[k] || upTo.Before(StampOf(rows[j])));
  }

  lemma AppliedIsKnown(rows: seq<Row>, me: Identity, mirror: map<Id, Row>, cursor: Stamp, page: seq<Row>, upTo: Stamp)
    requires Known(rows, me, mirror) && PageOk(rows, me, cursor, page, upTo)
    ensures Known(rows, me, ApplyAll(mirror, page))
  {
    var mirror' := ApplyAll(mirror, page);
    ApplyDecidesNamedIds(mirror, page);
    forall id | id in mirror' ensures mirror'[id].id == id && Sees(rows, me, id) {
      if HasId(page, id) {
        var k :| 0 <= k < |page| && page[k].id == id;
        assert page[k] in page;
        var j :| 0 <= j < |rows| && rows[j].id == id && Visible(me, rows[j]);
      }
    }
  }

  /** Applying a page in flight moves the mirror's guarantee from the old cursor to the page's. */
  lemma AppliedPageOk(rows: seq<Row>, me: Identity, mirror: map<Id, Row>, cursor: Stamp, page: seq<Row>, upTo: Stamp)
    requires WellFormed(rows) && MirrorOk(rows, me, mirror, cursor) && PageOk(rows, me, cursor, page, upTo)
    ensures MirrorOk(rows, me, ApplyAll(mirror, page), upTo)
    ensures MirrorOk(rows, me, ApplyAll(mirror, page), cursor)
  {
    AppliedIsCurrent(rows, me, mirror, cursor, page, upTo);
    AppliedIsKnown(rows, me, mirror, cursor, page, upTo);
  }

  // ----- the whole invariant, over every run

  ghost predicate Inv(c: Config, s: State) {
    WellFormed(s.rows) && PushOk(c, s) && PullOk(c, s)
  }

  lemma StepKeepsInv(c: Config, s: State, e: Event, s': State)
    requires Step(c, s, e, s') && Inv(c, s)
    ensures Inv(c, s')
  {
    StepChangesTable(c, s, e, s');
    PushOkKept(c, s, e, s');
    TableStepKeepsMirror(c.me, s.rows, s'.rows, s.mirror, s.cursor);
    match s.phase {
      case Fetched(page, upTo) =>
        TableStepKeepsPage(c.me, s.rows, s'.rows, s.cursor, page, upTo);
      case Applied(reached, more) =>
        TableStepKeepsMirror(c.me, s.rows, s'.rows, s.mirror, reached);
      case _ =>
    }
    if e == Fetch && s'.phase != Idle {
      FetchedPageOk(s.rows, c.me, s.cursor);
    }
    if e == ApplyPage {
      AppliedPageOk(s.rows, c.me, s.mirror, s.cursor, s.phase.page, s.phase.upTo);
    }
  }

  /** A run: states joined by events, from an empty client and an empty server. */
  ghost predicate Run(c: Config, states: seq<State>, events: seq<Event>) {
    && |states| == |events| + 1
    && Init(states[0])
    && forall k :: 0 <= k < |events| ==> Step(c, states[k], events[k], states[k + 1])
  }

  lemma {:induction false} EveryStateOfEveryRun(c: Config, states: seq<State>, events: seq<Event>, k: nat)
    requires Run(c, states, events) && k < |states|
    ensures Inv(c, states[k])
  {
    if k > 0 {
      EveryStateOfEveryRun(c, states, events, k - 1);
      StepKeepsInv(c, states[k - 1], events[k - 1], states[k]);
    }
  }

  // ----- what the runs promise

  /** The server has taken in a queued write: its id is there, or a live row with the same content is. */
  predicate TakenIn(rows: seq<Row>, me: Identity, w: MemoryInput) {
    HasId(rows, w.id) || HasTwin(rows, me, w.project, w.hash)
  }

  /** Rows are never lost, and a deleted row is never touched again: no replay edits it or brings it back. */
  lemma {:induction false} DeletedRowsAreFrozen(c: Config, states: seq<State>, events: seq<Event>, k: nat, l: nat,
                                                i: nat)
    requires Run(c, states, events) && k <= l < |states| && i < |states[k].rows|
    ensures i < |states[l].rows| && states[l].rows[i].id == states[k].rows[i].id
    ensures states[k].rows[i].deleted ==> states[l].rows[i] == states[k].rows[i]
    decreases l - k
  {
    if k < l {
      DeletedRowsAreFrozen(c, states, events, k, l - 1, i);
      EveryStateOfEveryRun(c, states, events, l - 1);
      assert Step(c, states[l - 1], events[l - 1], states[l]);
      StepChangesTable(c, states[l - 1], events[l - 1], states[l]);
    }
  }

  /** Only an edit changes an existing row: sending a write, first time or again, leaves every row as it was. */
  lemma SendingNeverChangesARow(c: Config, s: State, e: Event, s': State, i: nat)
    requires Step(c, s, e, s') && i < |s.rows| && !e.Edit?
    ensures i < |s'.rows| && s'.rows[i] == s.rows[i]
    ensures e.Send? && HasId(s.rows, s.phase.snapshot[s.phase.next].id) ==> s'.rows == s.rows
  {
  }

  /** Every id on the push's done list was taken in by the server at some earlier moment of the run. */
  ghost predicate WasTakenIn(c: Config, states: seq<State>, k: nat, w: MemoryInput)
    requires k < |states|
  {
    exists j :: 0 <= j <= k && TakenIn(states[j].rows, c.me, w)
  }

  lemma {:induction false} DoneWritesWereTakenIn(c: Config, states: seq<State>, events: seq<Event>, k: nat,
                                                 w: MemoryInput)
    requires Run(c, states, events) && k < |states|
    requires states[k].phase.Pushing? && w in states[k].phase.snapshot && w.id in states[k].phase.done
    ensures WasTakenIn(c, states, k, w)
  {
    if k > 0 {
      var s, e, s' := states[k - 1], events[k - 1], states[k];
      assert Step(c, s, e, s');
      EveryStateOfEveryRun(c, states, events, k - 1);
      if s.phase.Pushing? && w.id in s.phase.done {
        DoneWritesWereTakenIn(c, states, events, k - 1, w);
        var j :| 0 <= j <= k - 1 && TakenIn(states[j].rows, c.me, w);
      } else {
        var sent := s.phase.snapshot[s.phase.next];
        assert sent.id == w.id && sent in s.phase.snapshot;
        var i :| 0 <= i < |s.phase.snapshot| && s.phase.snapshot[i] == w;
        assert sent == w;
        InsertKeepsSchema(s.rows, c.me, w, e.now);
        if HasTwin(s.rows, c.me, w.project, w.hash) {
          assert TakenIn(states[k - 1].rows, c.me, w);
        } else {
          assert TakenIn(states[k].rows, c.me, w);
        }
      }
    }
  }

  /** An id on the done list is that of one queued write, which is in the snapshot. */
  lemma DoneIsSnapshot(c: Config, s: State, w: MemoryInput)
    requires PushOk(c, s) && s.phase.Pushing? && w in s.queue && w.id in s.phase.done
    ensures w in s.phase.snapshot
  {
    var i :| 0 <= i < s.phase.next && s.phase.snapshot[..s.phase.next][i].id == w.id;
    var v := s.phase.snapshot[i];
    assert v in s.phase.snapshot && v in s.queue;
    var a :| 0 <= a < |s.queue| && s.queue[a] == v;
    var b :| 0 <= b < |s.queue| && s.queue[b] == w;
    assert v == w;
  }

  /** A write leaves the queue only after the server took it in; until then every command and every cut keeps it. */
  lemma OnlyWritesTakenInLeaveTheQueue(c: Config, states: seq<State>, events: seq<Event>, k: nat, w: MemoryInput)
    requires Run(c, states, events) && k < |events|
    requires w in states[k].queue && w !in states[k + 1].queue
    ensures events[k] == FinishPush && w in states[k].phase.snapshot
    ensures HasId(states[k + 1].rows, w.id)
            || exists j :: 0 <= j <= k && HasTwin(states[j].rows, c.me, w.project, w.hash)
  {
    var s := states[k];
    assert Step(c, s, events[k], states[k + 1]);
    EveryStateOfEveryRun(c, states, events, k);
    assert w.id in IdSet(s.phase.done);
    DoneIsSnapshot(c, s, w);
    DoneWritesWereTakenIn(c, states, events, k, w);
    var j :| 0 <= j <= k && TakenIn(states[j].rows, c.me, w);
    if HasId(states[j].rows, w.id) {
      var x :| 0 <= x < |states[j].rows| && states[j].rows[x].id == w.id;
      DeletedRowsAreFrozen(c, states, events, j, k + 1, x);
    }
  }

  // ----- exactly which writes keep the mirror right

  /** Up to the cursor the mirror is as the server has it, and it holds nothing the client cannot see. */
  ghost predicate Right(rows: seq<Row>, me: Identity, mirror: map<Id, Row>, cursor: Stamp) {
    Current(rows, me, mirror, cursor) && Known(rows, me, mirror)
  }

  /** What a row must meet for the mirror to be right: a version it has, one it will be sent, or one it never had. */
  predicate Settled(me: Identity, mirror: map<Id, Row>, cursor: Stamp, r: Row) {
    if Visible(me, r) then cursor.Before(StampOf(r)) || Reflects(mirror, r) else r.id !in mirror
  }

  lemma OthersAreSettled(rows: seq<Row>, me: Identity, mirror: map<Id, Row>, cursor: Stamp, i: nat, r: Row,
                         rows': seq<Row>)
    requires Right(rows, me, mirror, cursor) && UniqueIds(rows') && i < |rows'| && rows'[i] == r
    requires |rows| <= |rows'| && forall k :: 0 <= k < |rows'| && k != i ==> k < |rows| && rows'[k] == rows[k]
    requires i < |rows| ==> rows[i].id == r.id
    ensures Current(rows', me, mirror, cursor)
        <==> (Visible(me, r) && !cursor.Before(StampOf(r)) ==> Reflects(mirror, r))
    ensures Known(rows', me, mirror) <==> (r.id in mirror ==> Visible(me, r))
  {
    forall id | id in mirror
      ensures mirror[id].id == id && (Sees(rows', me, id) <==> (id == r.id ==> Visible(me, r)))
    {
      var k :| 0 <= k < |rows| && rows[k].id == id && Visible(me, rows[k]);
      if id == r.id {
        assert Visible(me, r) ==> Sees(rows', me, id);
      } else {
        assert rows'[k].id == id;
      }
    }
  }

  /** A rewrite keeps the mirror right exactly when the new version is settled, whatever its stamp. */
  lemma RewriteKeepsMirrorExactlyWhenSettled(rows: seq<Row>, me: Identity, mirror: map<Id, Row>, cursor: Stamp,
                                             i: nat, r: Row, rows': seq<Row>)
    requires Rewrites(rows, i, r, rows') && Right(rows, me, mirror, cursor)
    ensures Right(rows', me, mirror, cursor) <==> Settled(me, mirror, cursor, r)
  {
    OthersAreSettled(rows, me, mirror, cursor, i, r, rows');
  }

  /** A rewrite stamped last keeps the invariant exactly when the row stays in sight or the mirror never had it. */
  lemma LatestRewriteKeepsMirrorExactlyWhenSeen(rows: seq<Row>, me: Identity, mirror: map<Id, Row>, cursor: Stamp,
                                                i: nat, r: Row, rows': seq<Row>)
    requires Rewrites(rows, i, r, rows') && Newest(rows, StampOf(r)) && MirrorOk(rows, me, mirror, cursor)
    ensures MirrorOk(rows', me, mirror, cursor) <==> Visible(me, r) || r.id !in mirror
  {
    assert rows'[i] == r;
    NewestIsBeyond(rows, cursor, StampOf(r));
    RewriteKeepsMirrorExactlyWhenSettled(rows, me, mirror, cursor, i, r, rows');
  }

  /** A rewrite stamped at or before the cursor keeps the mirror right exactly when the mirror shows it already. */
  lemma StampMustPassTheCursor(rows: seq<Row>, me: Identity, mirror: map<Id, Row>, cursor: Stamp,
                               i: nat, r: Row, rows': seq<Row>)
    requires Rewrites(rows, i, r, rows') && Right(rows, me, mirror, cursor) && !cursor.Before(StampOf(r))
    ensures Right(rows', me, mirror, cursor) <==> if Visible(me, r) then Reflects(mirror, r) else r.id !in mirror
    ensures forall p :: p in Pending(rows', me, cursor) ==> p.id != r.id
  {
    RewriteKeepsMirrorExactlyWhenSettled(rows, me, mirror, cursor, i, r, rows');
    forall p | p in Pending(rows', me, cursor) ensures p.id != r.id {
      var k :| 0 <= k < |rows'| && rows'[k] == p;
      assert rows'[i] == r && k != i;
      assert rows'[k].id != rows'[i].id;
    }
  }

  /** A new row keeps the mirror right exactly when it is out of sight, deleted, or stamped beyond the cursor. */
  lemma NewRowMustPassTheCursor(rows: seq<Row>, me: Identity, mirror: map<Id, Row>, cursor: Stamp, r: Row)
    requires UniqueIds(rows + [r]) && Right(rows, me, mirror, cursor)
    ensures Right(rows + [r], me, mirror, cursor) <==> !Visible(me, r) || r.deleted || cursor.Before(StampOf(r))
  {
    var rows' := rows + [r];
    assert rows'[|rows|] == r;
    OthersAreSettled(rows, me, mirror, cursor, |rows|, r, rows');
    forall k | 0 <= k < |rows| ensures rows[k].id != r.id {
      assert rows'[k].id != rows'[|rows|].id;
    }
  }

  /** A clock ahead of every stamp in the table. */
  ghost predicate Ahead(rows: seq<Row>, now: nat) {
    forall i :: 0 <= i < |rows| ==> rows[i].updatedAt < now
  }

  /**
   * A row rewritten while the clock is ahead is pending for everyone who sees it, from every cursor that anyone can
   * have saved so far, and so reaches their mirrors.
   */
  lemma RewrittenRowIsPending(rows: seq<Row>, i: nat, r: Row, rows': seq<Row>, now: nat, viewer: Identity,
                              cursor: Stamp)
    requires Rewrites(rows, i, r, rows') && Ahead(rows, now) && r.updatedAt == now
    requires Visible(viewer, r) && Reached(rows, cursor)
    ensures r in Pending(rows', viewer, cursor)
    ensures forall me :: (Visible(me, rows[i]) ==> Visible(me, r)) ==> Edits(rows, me, i, r, rows')
  {
    assert rows'[i] == r;
    NewestIsBeyond(rows, cursor, StampOf(r));
  }

  /** A row out of sight is in no page, so a mirror that holds it keeps it. */
  lemma HiddenRowsAreNeverSent(rows: seq<Row>, me: Identity, r: Row, since: Stamp, limit: int)
    requires UniqueIds(rows) && r in rows && !Visible(me, r)
    ensures !HasId(Changes(rows, me, since, limit), r.id)
  {
    var page := Changes(rows, me, since, limit);
    PageHoldsEverythingUpToItsCursor(rows, me, since, limit);
    forall k | 0 <= k < |page|
      ensures page[k].id != r.id
    {
      assert page[k] in page;
    }
  }

  /** A shared row its owner takes back is such a row: it stays in a teammate's mirror. */
  lemma UnsharingLeavesAStaleRow(me: Identity, owner: Identity, t0: nat, t1: nat)
    requires me.team == owner.team && me.user != owner.user && 0 < t0 < t1
    ensures
      var r := Row(1, owner, "", "", 0, true, BLANK, false, t0);
      var hidden := r.(shared := false, updatedAt := t1);
      && MirrorOk([r], me, map[1 := r], StampOf(r))
      && Rewrites([r], 0, hidden, [hidden]) && Newest([r], StampOf(hidden))
      && Pending([hidden], me, StampOf(r)) == []
      && !Known([hidden], me, map[1 := r])
  {
    var r := Row(1, owner, "", "", 0, true, BLANK, false, t0);
    var hidden := r.(shared := false, updatedAt := t1);
    assert [r][0 := hidden] == [hidden];
    OneRowReflected(r, me);
    OneRowUnseen(hidden, me);
    NothingPending([hidden], me, StampOf(r));
    assert 1 in map[1 := r];
  }

  lemma OneRowReflected(r: Row, me: Identity)
    requires Visible(me, r) && !r.deleted
    ensures MirrorOk([r], me, map[r.id := r], StampOf(r))
  {
    assert [r][0] == r;
  }

  lemma OneRowUnseen(r: Row, me: Identity)
    requires !Visible(me, r)
    ensures forall id :: !Sees([r], me, id)
  {
  }
}
