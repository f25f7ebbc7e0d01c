// Cursor pagination over the memories table: `ListMemories` and the export loop that follows its cursor.
module Paging {
  import opened Store

  /** `ofKind` is the test for one of the kinds asked for, or for any when none is. */
  datatype ListFilter = ListFilter(project: string, ofKind: Row -> bool, includeSuperseded: bool, mineOnly: bool)

  predicate Matches(me: Identity, f: ListFilter, r: Row) {
    && Visible(me, r) && !r.deleted
    && (f.project != "" ==> r.project == f.project)
    && f.ofKind(r)
    && (f.includeSuperseded || r.supersededBy == BLANK)
    && (f.mineOnly ==> r.owner.user == me.user)
  }

  /** A live row of the caller's team, the caller's own or, unless only those are asked for, shared; in the project
      asked for, of a kind asked for, and not replaced by another unless such rows are asked for. */
  lemma MatchesExactlyWhen(me: Identity, f: ListFilter, r: Row)
    ensures Matches(me, f, r) <==>
      && r.owner.team == me.team && (r.owner.user == me.user || (r.shared && !f.mineOnly))
      && !r.deleted
      && (f.project == "" || f.project == r.project)
      && f.ofKind(r)
      && (r.supersededBy == BLANK || f.includeSuperseded)
  {
  }

  /** The WHERE clause of the listing; a blank cursor adds no bound. */
  predicate Listed(me: Identity, f: ListFilter, cursor: Id, r: Row) {
    Matches(me, f, r) && (cursor != BLANK ==> r.id < cursor)
  }

  ghost predicate Descending(s: seq<Row>) {
    forall i, j :: 0 <= i < j < |s| ==> s[i].id > s[j].id
  }

  /** `ORDER BY id DESC` over the rows that pass the WHERE clause. */
  function Selected(rows: seq<Row>, me: Identity, f: ListFilter, cursor: Id): (s: seq<Row>)
    ensures forall r :: r in s <==> r in rows && Listed(me, f, cursor, r)
  {
    if rows == [] then []
    else
      var rest := Selected(rows[1..], me, f, cursor);
      if Listed(me, f, cursor, rows[0]) then Placed(rows[0], rest) else rest
  }

  function Placed(r: Row, s: seq<Row>): (t: seq<Row>)
    ensures forall x :: x in t <==> x == r || x in s
  {
    if s == [] || r.id > s[0].id then [r] + s else [s[0]] + Placed(r, s[1..])
  }

  lemma {:induction false} PlacedDescends(r: Row, s: seq<Row>)
    requires Descending(s) && forall x :: x in s ==> x.id != r.id
    ensures Descending(Placed(r, s))
  {
    if s == [] || r.id > s[0].id {
    } else {
      PlacedDescends(r, s[1..]);
      forall x | x in Placed(r, s[1..]) ensures s[0].id > x.id {
        if x != r {
          var k :| 0 <= k < |s[1..]| && s[1..][k] == x;
        }
      }
    }
  }

  lemma {:induction false} SelectedDescends(rows: seq<Row>, me: Identity, f: ListFilter, cursor: Id)
    requires UniqueIds(rows)
    ensures Descending(Selected(rows, me, f, cursor))
  {
    if rows != [] {
      SelectedDescends(rows[1..], me, f, cursor);
      forall x | x in Selected(rows[1..], me, f, cursor) ensures x.id != rows[0].id {
        var k :| 0 <= k < |rows[1..]| && rows[1..][k] == x;
      }
      if Listed(me, f, cursor, rows[0]) {
        PlacedDescends(rows[0], Selected(rows[1..], me, f, cursor));
      }
    }
  }

  function PageSize(limit: int): nat
    ensures 0 < PageSize(limit) <= 500
  {
    if limit <= 0 || limit > 500 then 50 else limit
  }

  /** One page and the cursor of the next; a blank cursor says there is none. */
  method ListMemories(rows: seq<Row>, me: Identity, f: ListFilter, limit: int, cursor: Id)
    returns (page: seq<Row>, next: Id)
    requires UniqueIds(rows)
    ensures Descending(page) && |page| <= (if 1 <= limit <= 500 then limit else 50)
    ensures forall r :: r in page <==> r in rows && Listed(me, f, cursor, r) && (next != BLANK ==> r.id >= next)
    ensures next != BLANK ==> |page| == (if 1 <= limit <= 500 then limit else 50) && next == page[|page| - 1].id
    ensures next != BLANK <==> |Selected(rows, me, f, cursor)| > PageSize(limit)
  {
    var n := PageSize(limit);
    var all := Selected(rows, me, f, cursor);
    SelectedDescends(rows, me, f, cursor);
    var fetched := if |all| > n + 1 then all[..n + 1] else all;
    page, next := fetched, BLANK;
    if |fetched| > n {
      page := fetched[..n];
      CutDescending(all, n);
      LastIsStored(rows, me, f, cursor, n);
      assert page == all[..n];
      next := page[n - 1].id;
    }
  }

  lemma LastIsStored(rows: seq<Row>, me: Identity, f: ListFilter, cursor: Id, n: nat)
    requires UniqueIds(rows) && 0 < n <= |Selected(rows, me, f, cursor)|
    ensures Selected(rows, me, f, cursor)[n - 1].id != BLANK
  {
    var r := Selected(rows, me, f, cursor)[n - 1];
    assert r in Selected(rows, me, f, cursor);
  }

  /** Cutting a descending list keeps exactly the ids from the last one kept upwards. */
  lemma CutDescending(all: seq<Row>, n: nat)
    requires Descending(all) && 0 < n <= |all|
    ensures forall r :: r in all[..n] <==> r in all && r.id >= all[n - 1].id
  {
    forall r ensures r in all[..n] <==> r in all && r.id >= all[n - 1].id {
      if r in all[..n] {
        var k :| 0 <= k < n && all[..n][k] == r;
      }
      if r in all && r.id >= all[n - 1].id {
        var k :| 0 <= k < |all| && all[k] == r;
        assert all[..n][k] == r;
      }
    }
  }

  lemma {:induction false} DescendingIsUnique(a: seq<Row>, b: seq<Row>)
    requires Descending(a) && Descending(b) && forall r :: r in a <==> r in b
    ensures a == b
  {
    assert a != [] ==> a[0] in b;
    assert b != [] ==> b[0] in a;
    if a != [] {
      var k :| 0 <= k < |b| && b[k] == a[0];
      var l :| 0 <= l < |a| && a[l] == b[0];
      assert a[0].id >= a[l].id && b[0].id >= b[k].id;
      assert k == 0;
      forall r ensures r in a[1..] <==> r in b[1..] {
        if r in a[1..] {
          var i :| 0 <= i < |a[1..]| && a[1..][i] == r;
          assert a[i + 1] == r && r in b && r.id != b[0].id;
        }
        if r in b[1..] {
          var i :| 0 <= i < |b[1..]| && b[1..][i] == r;
          assert b[i + 1] == r && r in a && r.id != a[0].id;
        }
      }
      DescendingIsUnique(a[1..], b[1..]);
    }
  }

  /** A row with this id matches at the time of every request up to the `n`-th. */
  ghost predicate Throughout(tables: nat -> seq<Row>, me: Identity, f: ListFilter, id: Id, n: nat) {
    forall k :: 0 <= k < n ==> exists r :: r in tables(k) && r.id == id && Matches(me, f, r)
  }

  /** A page of a table holds what is listed below its cursor, down to the next one. */
  ghost predicate IsPage(table: seq<Row>, me: Identity, f: ListFilter, cursor: Id, page: seq<Row>, next: Id) {
    && (forall r :: r in page <==> r in table && Listed(me, f, cursor, r) && (next != BLANK ==> r.id >= next))
    && (cursor != BLANK && next != BLANK ==> next < cursor)
  }

  /** What matched at every request, above the bound if there is one, has been written. */
  ghost predicate Found(tables: nat -> seq<Row>, me: Identity, f: ListFilter, n: nat, written: seq<Row>, bound: Id,
                        all: bool) {
    forall id: Id :: id != BLANK && Throughout(tables, me, f, id, n) && (all || (bound != BLANK && id >= bound)) ==>
        HasId(written, id)
  }

  /** What has been written is what a table lists, above the bound if there is one. */
  ghost predicate Complete(table: seq<Row>, me: Identity, f: ListFilter, written: seq<Row>, bound: Id, all: bool) {
    forall r :: r in written <==> r in table && Matches(me, f, r) && (all || (bound != BLANK && r.id >= bound))
  }

  lemma FoundGrows(tables: nat -> seq<Row>, me: Identity, f: ListFilter, n: nat, written: seq<Row>, cursor: Id,
                   page: seq<Row>, next: Id)
    requires Found(tables, me, f, n, written, cursor, false) && IsPage(tables(n), me, f, cursor, page, next)
    ensures Found(tables, me, f, n + 1, written + page, next, next == BLANK)
  {
    forall id: Id | id != BLANK && Throughout(tables, me, f, id, n + 1) && (next != BLANK ==> id >= next)
      ensures HasId(written + page, id)
    {
      assert Throughout(tables, me, f, id, n);
      FoundBeforeOrNow(tables, me, f, id, n, cursor, written, page, next);
    }
  }

  lemma CompleteGrows(table: seq<Row>, me: Identity, f: ListFilter, written: seq<Row>, cursor: Id, page: seq<Row>,
                      next: Id)
    requires Complete(table, me, f, written, cursor, false) && IsPage(table, me, f, cursor, page, next)
    ensures Complete(table, me, f, written + page, next, next == BLANK)
  {
  }

  lemma PagesDescend(written: seq<Row>, page: seq<Row>, cursor: Id)
    requires Descending(written) && Descending(page)
    requires forall r :: r in written ==> r.id >= cursor
    requires written != [] ==> forall r :: r in page ==> r.id < cursor
    ensures Descending(written + page)
  {
  }

  /** Every row written matched in a table asked for. */
  ghost predicate Sourced(tables: nat -> seq<Row>, me: Identity, f: ListFilter, n: nat, written: seq<Row>) {
    forall r :: r in written ==> exists k :: 0 <= k < n && r in tables(k) && Matches(me, f, r)
  }

  lemma SourcedGrows(tables: nat -> seq<Row>, me: Identity, f: ListFilter, n: nat, written: seq<Row>, page: seq<Row>)
    requires Sourced(tables, me, f, n, written) && forall r :: r in page ==> r in tables(n) && Matches(me, f, r)
    ensures Sourced(tables, me, f, n + 1, written + page)
  {
  }

  ghost predicate Fixed(tables: nat -> seq<Row>) {
    forall k: nat :: tables(k) == tables(0)
  }

  /** The state of the export loop after `n` requests. */
  ghost predicate Exporting(tables: nat -> seq<Row>, me: Identity, f: ListFilter, n: nat, written: seq<Row>, cursor: Id,
                            more: bool) {
    && Descending(written) && Sourced(tables, me, f, n, written)
    && (more ==> forall r :: r in written ==> r.id >= cursor)
    && (n == 0 ==> written == [])
    && (n == 0 <==> cursor == BLANK && more)
    && Found(tables, me, f, n, written, cursor, !more)
    && (Fixed(tables) ==> Complete(tables(0), me, f, written, cursor, !more))
  }

  lemma OneMorePage(tables: nat -> seq<Row>, me: Identity, f: ListFilter, n: nat, written: seq<Row>, cursor: Id,
                    page: seq<Row>, next: Id)
    requires Exporting(tables, me, f, n, written, cursor, true)
    requires Descending(page) && IsPage(tables(n), me, f, cursor, page, next)
    ensures Exporting(tables, me, f, n + 1, written + page, next, next != BLANK)
  {
    FoundGrows(tables, me, f, n, written, cursor, page, next);
    if Fixed(tables) {
      CompleteGrows(tables(n), me, f, written, cursor, page, next);
    }
    SourcedGrows(tables, me, f, n, written, page);
    PagesDescend(written, page, cursor);
  }

  lemma ExportIsDone(tables: nat -> seq<Row>, me: Identity, f: ListFilter, n: nat, written: seq<Row>, cursor: Id)
    requires Exporting(tables, me, f, n, written, cursor, false) && UniqueIds(tables(0))
    ensures forall id :: id != BLANK && Throughout(tables, me, f, id, n) ==> HasId(written, id)
    ensures Fixed(tables) ==> written == Selected(tables(0), me, f, BLANK)
  {
    if Fixed(tables) {
      SelectedDescends(tables(0), me, f, BLANK);
      DescendingIsUnique(written, Selected(tables(0), me, f, BLANK));
    }
  }

  /**
   * The export loop. The table may be different at every request; `pages` counts the requests made.
   * Ids only go down, so no memory is written twice, and one that matches throughout is never skipped.
   */
  method Export(tables: nat -> seq<Row>, me: Identity, f: ListFilter, limit: int)
    returns (written: seq<Row>, pages: nat)
    requires forall k: nat :: UniqueIds(tables(k))
    ensures Descending(written)
    ensures Sourced(tables, me, f, pages, written)
    ensures forall id :: id != BLANK && Throughout(tables, me, f, id, pages) ==> HasId(written, id)
    ensures Fixed(tables) ==> written == Selected(tables(0), me, f, BLANK)
  {
    written, pages := [], 0;
    var cursor := BLANK;
    var more := true;
    while more
      invariant Exporting(tables, me, f, pages, written, cursor, more)
      decreases more, pages == 0, cursor
    {
      var page, next := ListMemories(tables(pages), me, f, limit, cursor);
      OneMorePage(tables, me, f, pages, written, cursor, page, next);
      written := written + page;
      pages, more, cursor := pages + 1, next != BLANK, next;
    }
    ExportIsDone(tables, me, f, pages, written, cursor);
  }

  lemma FoundBeforeOrNow(tables: nat -> seq<Row>, me: Identity, f: ListFilter, id: Id, pages: nat, cursor: Id,
                         written: seq<Row>, page: seq<Row>, next: Id)
    requires id != BLANK && Throughout(tables, me, f, id, pages + 1) && (next != BLANK ==> id >= next)
    requires forall r ::
        r in page <==> r in tables(pages) && Listed(me, f, cursor, r) && (next != BLANK ==> r.id >= next)
    requires cursor != BLANK && id >= cursor ==> HasId(written, id)
    ensures HasId(written + page, id)
  {
    if cursor != BLANK && id >= cursor {
      var i :| 0 <= i < |written| && written[i].id == id;
      assert (written + page)[i].id == id;
    } else {
      var r :| r in tables(pages) && r.id == id && Matches(me, f, r);
      assert r in page;
      var i :| 0 <= i < |page| && page[i] == r;
      assert (written + page)[|written| + i].id == id;
    }
  }
}
