// The memories table and the statements run against it.
module Store {
  // Identifiers are numbers: 0 is the empty string and the ULID with value v is v + 1, so comparing
  // numbers is comparing the strings the database compares (module Ulid proves that for encoded ULIDs).

  type Id = nat

  const BLANK: Id := 0

  datatype Identity = Identity(team: string, user: string)

  /** One row of `memories`. `text` stands for the stored columns a reader sees, `hash` for their content hash. */
  datatype Row = Row(id: Id, owner: Identity, project: string, text: string, hash: int,
                     shared: bool, supersededBy: Id, deleted: bool, updatedAt: nat)

  /** A request to store a memory; `valid` is the verdict of the field checks made before any SQL. */
  datatype MemoryInput = MemoryInput(id: Id, project: string, text: string, hash: int, shared: bool, valid: bool)

  datatype Reply = Stored(row: Row, created: bool) | BadRequest | NotFound | Forbidden | Conflict

  // ----- what the schema promises

  /** A position in the change stream, ordered by time and then by id. */
  datatype Stamp = Stamp(at: nat, id: Id) {
    predicate Before(that: Stamp) {
      at < that.at || (at == that.at && id < that.id)
    }
  }

  function StampOf(r: Row): Stamp {
    Stamp(r.updatedAt, r.id)
  }

  /** The tenancy predicate spliced into every read. */
  predicate Visible(me: Identity, r: Row) {
    r.owner.team == me.team && (r.owner.user == me.user || r.shared)
  }

  predicate HasId(rows: seq<Row>, id: Id) {
    exists i :: 0 <= i < |rows| && rows[i].id == id
  }

  /** Row `r` occupies the key of the partial unique index over live rows. */
  predicate Holds(r: Row, owner: Identity, project: string, hash: int) {
    !r.deleted && r.owner == owner && r.project == project && r.hash == hash
  }

  predicate HasTwin(rows: seq<Row>, owner: Identity, project: string, hash: int) {
    exists i :: 0 <= i < |rows| && Holds(rows[i], owner, project, hash)
  }

  /** The caller can read a live row with this id. */
  predicate Readable(rows: seq<Row>, me: Identity, id: Id) {
    exists i :: 0 <= i < |rows| && rows[i].id == id && !rows[i].deleted && Visible(me, rows[i])
  }

  /** The caller owns a live row with this id. */
  predicate Editable(rows: seq<Row>, me: Identity, id: Id) {
    exists i :: 0 <= i < |rows| && rows[i].id == id && !rows[i].deleted && rows[i].owner == me
  }

  predicate UniqueIds(rows: seq<Row>) {
    && (forall i :: 0 <= i < |rows| ==> rows[i].id != BLANK)
    && (forall i, j :: 0 <= i < j < |rows| ==> rows[i].id != rows[j].id)
  }

  predicate UniqueContent(rows: seq<Row>) {
    forall i, j :: 0 <= i < j < |rows| && !rows[i].deleted ==>
      !Holds(rows[j], rows[i].owner, rows[i].project, rows[i].hash)
  }

  predicate WellFormed(rows: seq<Row>) {
    UniqueIds(rows) && UniqueContent(rows)
  }

  // ----- the effect of each statement

  /** `INSERT ... ON CONFLICT DO NOTHING`: both unique keys suppress the insert. */
  function Inserted(rows: seq<Row>, me: Identity, w: MemoryInput, now: nat): seq<Row> {
    if HasId(rows, w.id) || HasTwin(rows, me, w.project, w.hash) then rows
    else rows + [Row(w.id, me, w.project, w.text, w.hash, w.shared, BLANK, false, now)]
  }

  /** What any UPDATE in the store may do to one live row. */
  ghost predicate Rewrites(rows: seq<Row>, i: nat, r: Row, rows': seq<Row>) {
    && i < |rows|
    && !rows[i].deleted
    && r.id == rows[i].id && r.owner == rows[i].owner && r.project == rows[i].project
    && rows' == rows[i := r]
    && WellFormed(rows')
  }

  /** What an edit asks of the visibility: nothing, one of the two, or something else. */
  datatype VisibilityChange = Unchanged | Becomes(shared: bool) | Malformed

  /** A row with its text edited, its hash recomputed and its visibility changed if asked. */
  function Edited(r: Row, edit: string -> string, hashOf: string -> int, visibility: VisibilityChange, now: nat): Row {
    r.(text := edit(r.text), hash := hashOf(edit(r.text)),
       shared := if visibility.Becomes? then visibility.shared else r.shared, updatedAt := now)
  }

  lemma InsertKeepsSchema(rows: seq<Row>, me: Identity, w: MemoryInput, now: nat)
    requires WellFormed(rows) && w.id != BLANK
    ensures WellFormed(Inserted(rows, me, w, now))
    ensures HasId(Inserted(rows, me, w, now), w.id) || HasTwin(rows, me, w.project, w.hash)
    ensures forall i, j :: 0 <= i < |rows| && 0 <= j < |rows| && i != j && !rows[i].deleted && !rows[j].deleted ==>
      rows[i].owner != rows[j].owner || rows[i].project != rows[j].project || rows[i].hash != rows[j].hash
  {
    var rows' := Inserted(rows, me, w, now);
    if rows' != rows {
      assert rows'[|rows|].id == w.id;
      assert forall i :: 0 <= i < |rows| ==> rows'[i] == rows[i];
    }
  }

  /** An insert yields exactly to a row with its identifier and to a live row of the same owner, project and content. */
  lemma InsertYieldsExactlyWhen(rows: seq<Row>, me: Identity, w: MemoryInput, now: nat)
    ensures Inserted(rows, me, w, now) == rows <==> exists i ::
      0 <= i < |rows| &&
      (rows[i].id == w.id
       || (!rows[i].deleted && rows[i].owner == me && rows[i].project == w.project && rows[i].hash == w.hash))
  {
    assert Inserted(rows, me, w, now) == rows <==> HasId(rows, w.id) || HasTwin(rows, me, w.project, w.hash);
  }

  /** What a caller may do with the row of an identifier. */
  lemma RightsOnARow(rows: seq<Row>, me: Identity, i: nat)
    requires UniqueIds(rows) && i < |rows|
    ensures Readable(rows, me, rows[i].id) <==>
      && !rows[i].deleted && rows[i].owner.team == me.team
      && (rows[i].owner.user == me.user || rows[i].shared)
    ensures Editable(rows, me, rows[i].id) <==> !rows[i].deleted && rows[i].owner == me
  {
  }

  lemma NoRightsWithoutARow(rows: seq<Row>, me: Identity, id: Id)
    requires forall i :: 0 <= i < |rows| ==> rows[i].id != id
    ensures !Readable(rows, me, id) && !Editable(rows, me, id)
  {
  }

  /** The server's store: one table, changed one statement at a time. */
  class MemoryStore {
    var rows: seq<Row>

    ghost predicate Valid()
      reads this
    {
      WellFormed(rows)
    }

    constructor ()
      ensures Valid() && rows == []
    {
      rows := [];
    }

    /** The index of the row with this id, or the number of rows. */
    method FindId(id: Id) returns (k: nat)
      ensures k <= |rows|
      ensures k < |rows| <==> HasId(rows, id)
      ensures k < |rows| ==> rows[k].id == id
    {
      k := 0;
      while k < |rows| && rows[k].id != id
        invariant k <= |rows|
        invariant forall i :: 0 <= i < k ==> rows[i].id != id
      {
        k := k + 1;
      }
    }

    method FindTwin(owner: Identity, project: string, hash: int) returns (k: nat)
      ensures k <= |rows|
      ensures k < |rows| <==> HasTwin(rows, owner, project, hash)
      ensures k < |rows| ==> Holds(rows[k], owner, project, hash)
    {
      k := 0;
      while k < |rows| && !Holds(rows[k], owner, project, hash)
        invariant k <= |rows|
        invariant forall i :: 0 <= i < k ==> !Holds(rows[i], owner, project, hash)
      {
        k := k + 1;
      }
    }

    /** Stores a memory. `drawn` is the id the server draws when the request brings none. */
    method CreateMemory(me: Identity, input: MemoryInput, drawn: Id, now: nat) returns (reply: Reply)
      requires Valid() && drawn != BLANK
      modifies this
      ensures Valid()
      ensures !input.valid ==> reply == BadRequest && rows == old(rows)
      ensures input.valid ==>
        var w := if input.id == BLANK then input.(id := drawn) else input;
        && rows == Inserted(old(rows), me, w, now)
        && reply.Stored?
        && (reply.created <==> rows != old(rows))
        && reply.row in rows
        && (if HasId(old(rows), w.id) || reply.created then reply.row.id == w.id
            else Holds(reply.row, me, w.project, w.hash))
        && (reply.created ==>
              && rows == old(rows) + [reply.row]
              && reply.row == Row(w.id, me, w.project, w.text, w.hash, w.shared, BLANK, false, now))
    {
      if !input.valid {
        return BadRequest;
      }
      var w := if input.id == BLANK then input.(id := drawn) else input;
      InsertKeepsSchema(rows, me, w, now);
      var byId := FindId(w.id);
      var twin := FindTwin(me, w.project, w.hash);
      if byId == |rows| && twin == |rows| {
        var row := Row(w.id, me, w.project, w.text, w.hash, w.shared, BLANK, false, now);
        rows := rows + [row];
        return Stored(row, true);
      }
      if byId < |rows| {
        return Stored(rows[byId], false);
      }
      return Stored(rows[twin], false);
    }

    /**
     * Changes text and visibility of a row the caller owns. `edit` makes the new text from the stored one, replacing
     * the fields the request brings, and `hashOf` its content hash.
     */
    method UpdateMemory(me: Identity, id: Id, edit: string -> string, hashOf: string -> int,
                        visibility: VisibilityChange, now: nat)
      returns (reply: Reply)
      requires Valid()
      modifies this
      ensures Valid()
      ensures reply.Stored? ==>
        exists i: nat ::
          && Rewrites(old(rows), i, reply.row, rows)
          && old(rows)[i].id == id
          && old(rows)[i].owner == me
          && reply.row.text == edit(old(rows)[i].text) && reply.row.hash == hashOf(reply.row.text)
          && reply.row.updatedAt == now
          && (visibility == Becomes(true) ==> reply.row.shared)
          && (visibility == Becomes(false) ==> !reply.row.shared)
          && (visibility == Unchanged ==> reply.row.shared == old(rows)[i].shared)
          && reply.row.supersededBy == old(rows)[i].supersededBy && !reply.row.deleted
      ensures !reply.Stored? ==> rows == old(rows)
      ensures reply == BadRequest <==> visibility.Malformed?
      ensures reply == NotFound <==> !visibility.Malformed? && !Readable(old(rows), me, id)
      ensures reply == Forbidden
          <==> !visibility.Malformed? && Readable(old(rows), me, id) && !Editable(old(rows), me, id)
      ensures reply == Conflict ==>
        exists i, j ::
          && 0 <= i < |rows| && rows[i].id == id
          && 0 <= j < |rows| && j != i && Holds(rows[j], me, rows[i].project, hashOf(edit(rows[i].text)))
    {
      if visibility.Malformed? {
        return BadRequest;
      }
      var k := FindId(id);
      if k == |rows| || rows[k].deleted || !Visible(me, rows[k]) {
        return NotFound;
      }
      if rows[k].owner != me {
        return Forbidden;
      }
      var r := Edited(rows[k], edit, hashOf, visibility, now);
      var clash := 0;
      while clash < |rows| && (clash == k || !Holds(rows[clash], me, r.project, r.hash))
        invariant clash <= |rows|
        invariant forall i :: 0 <= i < clash && i != k ==> !Holds(rows[i], me, r.project, r.hash)
      {
        clash := clash + 1;
      }
      if clash < |rows| {
        assert rows[clash].id != id;
        return Conflict;
      }
      ghost var before := rows;
      rows := rows[k := r];
      assert Rewrites(before, k, r, rows);
      return Stored(r, false);
    }

    /** Soft-deletes a row the caller owns. */
    method DeleteMemory(me: Identity, id: Id, now: nat) returns (reply: Reply)
      requires Valid()
      modifies this
      ensures Valid()
      ensures reply.Stored? ==>
        exists i: nat ::
          && Rewrites(old(rows), i, reply.row, rows)
          && old(rows)[i].id == id
          && old(rows)[i].owner == me
          && reply.row == old(rows)[i].(deleted := true, updatedAt := now)
      ensures !reply.Stored? ==> rows == old(rows)
      ensures reply.Stored? <==> Editable(old(rows), me, id)
    {
      var k := FindId(id);
      if k == |rows| || rows[k].deleted || rows[k].owner != me {
        return NotFound;
      }
      ghost var before := rows;
      var r := rows[k].(deleted := true, updatedAt := now);
      rows := rows[k := r];
      assert Rewrites(before, k, r, rows);
      return Stored(r, false);
    }

    /** Marks one memory as replaced by another that the caller can see. */
    method Supersede(me: Identity, oldId: Id, newId: Id, now: nat) returns (reply: Reply)
      requires Valid()
      modifies this
      ensures Valid()
      ensures reply.Stored? ==> oldId != newId && exists n ::
        0 <= n < |old(rows)| && old(rows)[n].id == newId && !old(rows)[n].deleted && Visible(me, old(rows)[n])
      ensures reply.Stored? ==>
        exists i: nat ::
          && Rewrites(old(rows), i, reply.row, rows)
          && old(rows)[i].id == oldId
          && old(rows)[i].owner == me
          && reply.row == old(rows)[i].(supersededBy := newId, updatedAt := now)
      ensures !reply.Stored? ==> rows == old(rows)
      ensures reply == BadRequest <==> oldId == newId
      ensures reply.Stored? <==> oldId != newId && Readable(old(rows), me, newId) && Editable(old(rows), me, oldId)
    {
      if oldId == newId {
        return BadRequest;
      }
      var n := FindId(newId);
      if n == |rows| || rows[n].deleted || !Visible(me, rows[n]) {
        return NotFound;
      }
      var k := FindId(oldId);
      if k == |rows| || rows[k].deleted || rows[k].owner != me {
        return NotFound;
      }
      ghost var before := rows;
      var r := rows[k].(supersededBy := newId, updatedAt := now);
      rows := rows[k := r];
      assert Rewrites(before, k, r, rows);
      return Stored(r, false);
    }

    /** Promotes a private row to team visibility. */
    method Share(me: Identity, id: Id, now: nat) returns (reply: Reply)
      requires Valid()
      modifies this
      ensures Valid()
      ensures reply.Stored? ==>
        exists i: nat ::
          && Rewrites(old(rows), i, reply.row, rows)
          && old(rows)[i].id == id
          && old(rows)[i].owner == me
          && reply.row == old(rows)[i].(shared := true, updatedAt := now)
      ensures !reply.Stored? ==> rows == old(rows)
      ensures reply.Stored? <==> Editable(old(rows), me, id)
    {
      var k := FindId(id);
      if k == |rows| || rows[k].deleted || rows[k].owner != me {
        return NotFound;
      }
      ghost var before := rows;
      var r := rows[k].(shared := true, updatedAt := now);
      rows := rows[k := r];
      assert Rewrites(before, k, r, rows);
      return Stored(r, false);
    }
  }
}
