// The client's local half: the mirror of memories, the write queue and the sync cursor.
module Mirror {
  import opened Store
  import opened ChangeStream

  // ----- what applying changes means

  function ApplyOne(m: map<Id, Row>, r: Row): map<Id, Row> {
    if r.deleted then m - {r.id} else m[r.id := r]
  }

  function ApplyAll(m: map<Id, Row>, page: seq<Row>): map<Id, Row> {
    if page == [] then m else ApplyOne(ApplyAll(m, page[..|page| - 1]), page[|page| - 1])
  }

  /** A page decides exactly the ids it names; the others keep what the mirror held. */
  lemma {:induction false} ApplyDecidesNamedIds(m: map<Id, Row>, page: seq<Row>)
    requires UniqueIds(page)
    ensures forall r :: r in page ==>
              if r.deleted then r.id !in ApplyAll(m, page)
              else r.id in ApplyAll(m, page) && ApplyAll(m, page)[r.id] == r
    ensures forall k :: !HasId(page, k) ==>
              (k in ApplyAll(m, page) <==> k in m) && (k in m ==> ApplyAll(m, page)[k] == m[k])
  {
    if page != [] {
      var front, last := page[..|page| - 1], page[|page| - 1];
      assert page == front + [last];
      ApplyDecidesNamedIds(m, front);
      forall r | r in front ensures r.id != last.id {
        var i :| 0 <= i < |front| && front[i] == r;
        assert page[i] == r;
      }
      forall k | !HasId(page, k) ensures !HasId(front, k) && k != last.id {
        assert page[|page| - 1].id == last.id;
        assert forall i :: 0 <= i < |front| ==> front[i] == page[i];
      }
    }
  }

  /** Applying the same page again changes nothing, so a page may be applied before its cursor is saved. */
  lemma ApplyTwiceIsApplyOnce(m: map<Id, Row>, page: seq<Row>)
    requires UniqueIds(page)
    ensures ApplyAll(ApplyAll(m, page), page) == ApplyAll(m, page)
  {
    var once := ApplyAll(m, page);
    ApplyDecidesNamedIds(m, page);
    ApplyDecidesNamedIds(once, page);
    forall k ensures k in ApplyAll(once, page) <==> k in once
      ensures k in once ==> ApplyAll(once, page)[k] == once[k]
    {
      if HasId(page, k) {
        var i :| 0 <= i < |page| && page[i].id == k;
        assert page[i] in page;
      }
    }
  }

  /** The rows of a mirror file as a map. */
  function AsMap(s: seq<Row>): map<Id, Row> {
    if s == [] then map[] else AsMap(s[..|s| - 1])[s[|s| - 1].id := s[|s| - 1]]
  }

  lemma {:induction false} AsMapIndexes(s: seq<Row>)
    ensures forall k :: k in AsMap(s) <==> HasId(s, k)
    ensures UniqueIds(s) ==> forall i :: 0 <= i < |s| ==> s[i].id in AsMap(s) && AsMap(s)[s[i].id] == s[i]
  {
    if s != [] {
      var front := s[..|s| - 1];
      AsMapIndexes(front);
      forall k ensures k in AsMap(s) <==> HasId(s, k) {
        if HasId(front, k) {
          var i :| 0 <= i < |front| && front[i].id == k;
          assert s[i].id == k;
        }
        if HasId(s, k) && k != s[|s| - 1].id {
          var i :| 0 <= i < |s| && s[i].id == k;
          assert front[i].id == k;
        }
        assert s[|s| - 1].id == s[|s| - 1].id;
      }
      if UniqueIds(s) {
        forall i | 0 <= i < |s| ensures s[i].id in AsMap(s) && AsMap(s)[s[i].id] == s[i] {
          if i < |front| {
            assert front[i] == s[i];
          }
        }
      }
    }
  }

  /**
   * A half-updated slice: `slots` are the ids its entries were made for, `index` inverts them, and an entry
   * has either its own id or a blank one, which marks it for removal.
   */
  ghost predicate Indexed(existing: seq<Row>, slots: seq<Id>, index: map<Id, int>) {
    && |slots| == |existing|
    && (forall k {:trigger index[k]} :: k in index ==> 0 <= index[k] < |slots| && slots[index[k]] == k)
    && (forall i {:trigger slots[i]} :: 0 <= i < |slots| ==>
          slots[i] != BLANK && slots[i] in index && index[slots[i]] == i)
    && (forall i {:trigger existing[i]} :: 0 <= i < |slots| ==> existing[i].id == slots[i] || existing[i].id == BLANK)
  }

  /** What such a slice stands for: the entries that were not blanked. */
  ghost function View(existing: seq<Row>, slots: seq<Id>, index: map<Id, int>): map<Id, Row>
    requires Indexed(existing, slots, index)
  {
    map k | k in index && existing[index[k]].id == k :: existing[index[k]]
  }

  predicate Queued(queue: seq<MemoryInput>, id: Id) {
    exists i :: 0 <= i < |queue| && queue[i].id == id
  }

  predicate QueueIds(queue: seq<MemoryInput>) {
    && (forall i :: 0 <= i < |queue| ==> queue[i].id != BLANK)
    && (forall i, j :: 0 <= i < j < |queue| ==> queue[i].id != queue[j].id)
  }

  function IdSet(ids: seq<Id>): set<Id> {
    set id | id in ids
  }

  /** The queue without the writes whose ids are done. */
  function Remaining(queue: seq<MemoryInput>, done: set<Id>): (rest: seq<MemoryInput>)
    ensures |rest| <= |queue|
    ensures forall w :: w in rest <==> w in queue && w.id !in done
  {
    if queue == [] then []
    else
      var rest := Remaining(queue[..|queue| - 1], done);
      var last := queue[|queue| - 1];
      assert queue == queue[..|queue| - 1] + [last];
      if last.id in done then rest else rest + [last]
  }

  lemma {:induction false} RemainingKeepsIdsUnique(queue: seq<MemoryInput>, done: set<Id>)
    requires QueueIds(queue)
    ensures QueueIds(Remaining(queue, done))
  {
    if queue != [] {
      var front := queue[..|queue| - 1];
      RemainingKeepsIdsUnique(front, done);
      forall w | w in Remaining(front, done) ensures w.id != queue[|queue| - 1].id {
        var k :| 0 <= k < |front| && front[k] == w;
      }
    }
  }

  /** The mirror directory: three files, each replaced or appended to as one step. */
  class LocalMirror {
    var memories: seq<Row>
    var queue: seq<MemoryInput>
    var cursor: Stamp
    const queueMax: nat

    ghost predicate Valid()
      reads this
    {
      UniqueIds(memories) && |queue| <= queueMax
    }

    constructor (limit: int)
      ensures Valid() && memories == [] && queue == [] && cursor == BOTTOM
      ensures queueMax == if limit < 1 then 1000 else limit
    {
      memories, queue, cursor := [], [], BOTTOM;
      queueMax := if limit < 1 then 1000 else limit;
    }

    /** Merges a page of changes: overwrite through an index, blank deletions, then compact. */
    method Apply(changes: seq<Row>)
      requires Valid() && forall ch :: ch in changes ==> ch.id != BLANK
      modifies this`memories
      ensures Valid()
      ensures AsMap(memories) == ApplyAll(AsMap(old(memories)), changes)
    {
      var existing := memories;
      var index: map<Id, int>;
      ghost var slots;
      index, slots := IndexById(existing);
      for j := 0 to |changes|
        invariant memories == old(memories)
        invariant Indexed(existing, slots, index)
        invariant View(existing, slots, index) == ApplyAll(AsMap(memories), changes[..j])
      {
        assert changes[..j + 1][..j] == changes[..j];
        existing, index, slots := ApplyChange(existing, index, slots, changes[j]);
      }
      assert changes[..|changes|] == changes;
      memories := Compact(existing, slots, index);
    }

    /** Appends a write; `drawn` is the ULID taken when it brings no id. */
    method Enqueue(w: MemoryInput, drawn: Id) returns (queued: MemoryInput, ok: bool)
      requires Valid() && drawn != BLANK
      modifies this`queue
      ensures Valid()
      ensures queued == if w.id == BLANK then w.(id := drawn) else w
      ensures ok <==> |old(queue)| < queueMax
      ensures queue == if ok then old(queue) + [queued] else old(queue)
      ensures old(QueueIds(queue)) && !Queued(old(queue), queued.id) ==> QueueIds(queue)
    {
      queued := if w.id == BLANK then w.(id := drawn) else w;
      ok := |queue| < queueMax;
      if ok {
        queue := queue + [queued];
      }
    }

    /** Removes the writes the server has accepted. */
    method Dequeue(ids: seq<Id>)
      requires Valid()
      modifies this`queue
      ensures Valid()
      ensures queue == Remaining(old(queue), IdSet(ids))
    {
      var done := IdSet(ids);
      var remaining := [];
      for i := 0 to |queue|
        invariant remaining == Remaining(queue[..i], done)
      {
        assert queue[..i + 1][..i] == queue[..i];
        if queue[i].id !in done {
          remaining := remaining + [queue[i]];
        }
      }
      assert queue[..|queue|] == queue;
      queue := remaining;
    }

    method SetCursor(c: Stamp)
      requires Valid()
      modifies this`cursor
      ensures Valid() && cursor == c
    {
      cursor := c;
    }
  }

  method IndexById(existing: seq<Row>) returns (index: map<Id, int>, ghost slots: seq<Id>)
    requires UniqueIds(existing)
    ensures Indexed(existing, slots, index) && View(existing, slots, index) == AsMap(existing)
  {
    index := map[];
    slots := [];
    for i := 0 to |existing|
      invariant Indexed(existing[..i], slots, index)
      invariant forall j :: 0 <= j < i ==> slots[j] == existing[j].id
    {
      SlotAdded(existing[..i], slots, index, existing[i]);
      assert existing[..i + 1] == existing[..i] + [existing[i]];
      index := index[existing[i].id := i];
      slots := slots + [existing[i].id];
    }
    assert existing[..|existing|] == existing;
    IndexedByOwnIds(existing, slots, index);
  }

  lemma IndexedByOwnIds(existing: seq<Row>, slots: seq<Id>, index: map<Id, int>)
    requires UniqueIds(existing) && Indexed(existing, slots, index)
    requires forall j :: 0 <= j < |existing| ==> slots[j] == existing[j].id
    ensures View(existing, slots, index) == AsMap(existing)
  {
    AsMapIndexes(existing);
    forall k ensures k in index <==> k in AsMap(existing) {
      if k in index {
        assert existing[index[k]].id == k;
      }
    }
  }

  /** The body of the merge loop: one change against the slice and its index. */
  method ApplyChange(existing: seq<Row>, index: map<Id, int>, ghost slots: seq<Id>, ch: Row)
    returns (existing': seq<Row>, index': map<Id, int>, ghost slots': seq<Id>)
    requires Indexed(existing, slots, index) && ch.id != BLANK
    ensures Indexed(existing', slots', index')
    ensures View(existing', slots', index') == ApplyOne(View(existing, slots, index), ch)
  {
    existing', index', slots' := existing, index, slots;
    if ch.deleted {
      if ch.id in index {
        SlotSet(existing, slots, index, ch.id, existing[index[ch.id]].(id := BLANK));
        existing' := existing[index[ch.id] := existing[index[ch.id]].(id := BLANK)];
      }
    } else if ch.id in index {
      SlotSet(existing, slots, index, ch.id, ch);
      existing' := existing[index[ch.id] := ch];
    } else {
      SlotAdded(existing, slots, index, ch);
      existing', slots' := existing + [ch], slots + [ch.id];
      index' := index[ch.id := |existing'| - 1];
    }
  }

  lemma SlotSet(existing: seq<Row>, slots: seq<Id>, index: map<Id, int>, id: Id, r: Row)
    requires Indexed(existing, slots, index) && id in index && (r.id == id || r.id == BLANK)
    ensures Indexed(existing[index[id] := r], slots, index)
    ensures View(existing[index[id] := r], slots, index)
            == if r.id == BLANK then View(existing, slots, index) - {id} else View(existing, slots, index)[id := r]
  {
    var existing' := existing[index[id] := r];
    assert forall k :: k in index && k != id ==> existing'[index[k]] == existing[index[k]];
  }

  lemma SlotAdded(existing: seq<Row>, slots: seq<Id>, index: map<Id, int>, r: Row)
    requires Indexed(existing, slots, index) && r.id !in index && r.id != BLANK
    ensures Indexed(existing + [r], slots + [r.id], index[r.id := |existing|])
    ensures View(existing + [r], slots + [r.id], index[r.id := |existing|]) == View(existing, slots, index)[r.id := r]
  {
    var existing', index' := existing + [r], index[r.id := |existing|];
    assert forall k :: k in index ==> existing'[index[k]] == existing[index[k]];
  }

  method Compact(existing: seq<Row>, ghost slots: seq<Id>, ghost index: map<Id, int>) returns (kept: seq<Row>)
    requires Indexed(existing, slots, index)
    ensures UniqueIds(kept) && AsMap(kept) == View(existing, slots, index)
  {
    kept := [];
    assert forall i, l :: 0 <= i < l < |slots| ==> slots[i] != slots[l];
    ghost var from: seq<nat> := [];
    for i := 0 to |existing|
      invariant |from| == |kept|
      invariant forall j :: 0 <= j < |kept| ==>
          from[j] < i && existing[from[j]] == kept[j] && kept[j].id == slots[from[j]]
      invariant UniqueIds(kept)
      invariant forall l :: 0 <= l < i && existing[l].id != BLANK ==> existing[l] in kept
    {
      if existing[i].id != BLANK {
        kept := kept + [existing[i]];
        from := from + [i];
      }
    }
    KeptIsView(existing, slots, index, kept, from);
  }

  lemma KeptIsView(existing: seq<Row>, slots: seq<Id>, index: map<Id, int>, kept: seq<Row>, from: seq<nat>)
    requires Indexed(existing, slots, index) && |from| == |kept| && UniqueIds(kept)
    requires forall j :: 0 <= j < |kept| ==>
        from[j] < |existing| && existing[from[j]] == kept[j] && kept[j].id == slots[from[j]]
    requires forall l :: 0 <= l < |existing| && existing[l].id != BLANK ==> existing[l] in kept
    ensures AsMap(kept) == View(existing, slots, index)
  {
    AsMapIndexes(kept);
    var view := View(existing, slots, index);
    forall j | 0 <= j < |kept| ensures kept[j].id in view && view[kept[j].id] == kept[j] {
      assert index[slots[from[j]]] == from[j];
    }
    forall k | k in view ensures k in AsMap(kept) {
      assert existing[index[k]] in kept;
      var j :| 0 <= j < |kept| && kept[j] == existing[index[k]];
      assert kept[j].id == k;
    }
    forall k | k in AsMap(kept) ensures k in view && view[k] == AsMap(kept)[k] {
      var j :| 0 <= j < |kept| && kept[j].id == k;
    }
  }
}
