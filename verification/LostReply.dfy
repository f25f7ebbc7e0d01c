// A write whose reply was lost is queued too.
module LostReply {
  // What the queued copy does to the server when it is sent later.

  import opened Store
  import opened ChangeStream
  import opened Mirror
  import opened SyncProtocol
  import opened SyncClient

  /** Over any execution a row keeps its place, its id, its owner and its project. */
  lemma {:induction false} RowsKeepTheirPlace(c: Config, trace: seq<State>, events: seq<Event>, k: nat)
    requires Exec(c, trace, events) && Inv(c, trace[0]) && k < |trace[0].rows|
    ensures
      var before, after := trace[0].rows, trace[|events|].rows;
      && k < |after| && after[k].id == before[k].id
      && after[k].owner == before[k].owner && after[k].project == before[k].project
    decreases |events|
  {
    if events != [] {
      var n := |events| - 1;
      var trace', events' := trace[..n + 1], events[..n];
      forall j | 0 <= j < n ensures Step(c, trace'[j], events'[j], trace'[j + 1]) {
        assert Step(c, trace[j], events[j], trace[j + 1]);
      }
      RowsKeepTheirPlace(c, trace', events', k);
      ExecKeepsInv(c, trace', events');
      assert Step(c, trace[n], events[n], trace[n + 1]);
      StepChangesTable(c, trace[n], events[n], trace[n + 1]);
    }
  }

  predicate OtherTwin(rows: seq<Row>, k: nat, me: Identity, w: MemoryInput) {
    exists j :: 0 <= j < |rows| && j != k && Holds(rows[j], me, w.project, w.hash)
  }

  /**
   * After any execution since row `k` was stored for a write, sending the write under another id stores it once more
   * exactly when that id is not taken, the row was deleted or its content changed, and no other live row of the owner
   * has the content.
   */
  lemma StoredAgainExactlyWhenRewritten(c: Config, trace: seq<State>, events: seq<Event>, k: nat, w: MemoryInput,
                                        now: nat)
    requires Exec(c, trace, events) && Inv(c, trace[0])
    requires k < |trace[0].rows| && Holds(trace[0].rows[k], c.me, w.project, w.hash)
    ensures k < |trace[|events|].rows|
    ensures
      var rows := trace[|events|].rows;
      |Inserted(rows, c.me, w, now)| == |rows| + 1
      <==> !HasId(rows, w.id) && (rows[k].deleted || rows[k].hash != w.hash) && !OtherTwin(rows, k, c.me, w)
  {
    RowsKeepTheirPlace(c, trace, events, k);
    var rows := trace[|events|].rows;
    assert Holds(rows[k], c.me, w.project, w.hash) <==> !rows[k].deleted && rows[k].hash == w.hash;
    assert HasTwin(rows, c.me, w.project, w.hash) <==>
        Holds(rows[k], c.me, w.project, w.hash) || OtherTwin(rows, k, c.me, w);
  }

  /** A write that brought its own id is never stored again, whatever becomes of the row. */
  lemma OwnIdIsStoredOnce(c: Config, trace: seq<State>, events: seq<Event>, w: MemoryInput, now: nat)
    requires Exec(c, trace, events) && Inv(c, trace[0]) && HasId(trace[0].rows, w.id)
    ensures Inserted(trace[|events|].rows, c.me, w, now) == trace[|events|].rows
  {
    var k :| 0 <= k < |trace[0].rows| && trace[0].rows[k].id == w.id;
    RowsKeepTheirPlace(c, trace, events, k);
  }

  function StoredAs(me: Identity, input: MemoryInput, id: Id, now: nat): Row {
    Row(id, me, input.project, input.text, input.hash, input.shared, BLANK, false, now)
  }

  /**
   * The input: the server stores the write, the reply is lost, the owner deletes the memory, and a push
   * stores it again.
   */
  lemma ADeletedMemoryComesBack(me: Identity, input: MemoryInput, drawn: Id, serverDrawn: Id, now: nat, later: nat,
                                pushed: nat)
    requires input.id == BLANK && drawn != serverDrawn && serverDrawn != BLANK && now < later
    ensures
      var r := StoredAs(me, input, serverDrawn, now);
      var gone := r.(deleted := true, updatedAt := later);
      && Inserted([], me, WithId(input, serverDrawn), now) == [r]
      && Edits([r], me, 0, gone, [gone])
      && Inserted([gone], me, WithId(input, drawn), pushed) == [gone, StoredAs(me, input, drawn, pushed)]
  {
    var r := StoredAs(me, input, serverDrawn, now);
    var gone := r.(deleted := true, updatedAt := later);
    assert [r][0 := gone] == [gone];
    assert !HasId([gone], drawn) && !HasTwin([gone], me, input.project, input.hash);
  }

  /** The same when the owner edits the memory: the old text is stored beside the new one. */
  lemma AnEditedMemoryIsStoredTwice(me: Identity, input: MemoryInput, drawn: Id, serverDrawn: Id, now: nat, later: nat,
                                    pushed: nat, text: string, hash: int)
    requires input.id == BLANK && drawn != serverDrawn && serverDrawn != BLANK && now < later && hash != input.hash
    ensures
      var r := StoredAs(me, input, serverDrawn, now);
      var edited := r.(text := text, hash := hash, updatedAt := later);
      && Inserted([], me, WithId(input, serverDrawn), now) == [r]
      && Edits([r], me, 0, edited, [edited])
      && Inserted([edited], me, WithId(input, drawn), pushed) == [edited, StoredAs(me, input, drawn, pushed)]
  {
    var r := StoredAs(me, input, serverDrawn, now);
    var edited := r.(text := text, hash := hash, updatedAt := later);
    assert [r][0 := edited] == [edited];
    assert !HasId([edited], drawn) && !HasTwin([edited], me, input.project, input.hash);
  }
}
