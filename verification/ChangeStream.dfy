// The incremental change stream: `Changes` and the `has_more` flag of the sync endpoint.
module ChangeStream {
  import opened Store

  const BOTTOM := Stamp(0, BLANK)

  /** The rows of the query before ordering: visible and strictly after the cursor. */
  function Pending(rows: seq<Row>, me: Identity, since: Stamp): (p: seq<Row>)
    ensures forall r :: r in p <==> r in rows && Visible(me, r) && since.Before(StampOf(r))
  {
    if rows == [] then []
    else
      var last := rows[|rows| - 1];
      var rest := Pending(rows[..|rows| - 1], me, since);
      assert rows == rows[..|rows| - 1] + [last];
      if Visible(me, last) && since.Before(StampOf(last)) then rest + [last] else rest
  }

  lemma {:induction false} PendingUnique(rows: seq<Row>, me: Identity, since: Stamp)
    requires UniqueIds(rows)
    ensures UniqueIds(Pending(rows, me, since))
  {
    if rows != [] {
      var rest := Pending(rows[..|rows| - 1], me, since);
      PendingUnique(rows[..|rows| - 1], me, since);
      forall r | r in rest ensures r.id != rows[|rows| - 1].id {
        var k :| 0 <= k < |rows| - 1 && rows[..|rows| - 1][k] == r;
      }
    }
  }

  lemma {:induction false} NothingPending(rows: seq<Row>, me: Identity, since: Stamp)
    requires forall r :: r in rows && Visible(me, r) ==> !since.Before(StampOf(r))
    ensures Pending(rows, me, since) == []
  {
    if rows != [] {
      NothingPending(rows[..|rows| - 1], me, since);
      assert rows[|rows| - 1] in rows;
    }
  }

  /** A later cursor never has more pending, and has less once it passes a pending row. */
  lemma {:induction false} PendingShrinks(rows: seq<Row>, me: Identity, since: Stamp, next: Stamp, passed: Row)
    requires since.Before(next)
    ensures |Pending(rows, me, next)| <= |Pending(rows, me, since)|
    ensures passed in rows && Visible(me, passed) && since.Before(StampOf(passed)) && !next.Before(StampOf(passed)) ==>
              |Pending(rows, me, next)| < |Pending(rows, me, since)|
  {
    if rows != [] {
      PendingShrinks(rows[..|rows| - 1], me, since, next, passed);
      assert rows == rows[..|rows| - 1] + [rows[|rows| - 1]];
    }
  }

  ghost predicate Ascending(s: seq<Row>) {
    forall i, j :: 0 <= i < j < |s| ==> StampOf(s[i]).Before(StampOf(s[j]))
  }

  /** `ORDER BY updated_at, id`. */
  function Ordered(s: seq<Row>): (t: seq<Row>)
    ensures forall r :: r in t <==> r in s
    ensures |t| == |s|
  {
    if s == [] then [] else Placed(s[0], Ordered(s[1..]))
  }

  function Placed(r: Row, s: seq<Row>): (t: seq<Row>)
    ensures forall x :: x in t <==> x == r || x in s
    ensures |t| == |s| + 1
  {
    if s == [] || StampOf(r).Before(StampOf(s[0])) then [r] + s else [s[0]] + Placed(r, s[1..])
  }

  lemma {:induction false} PlacedAscending(r: Row, s: seq<Row>)
    requires Ascending(s)
    requires forall x :: x in s ==> x.id != r.id
    ensures Ascending(Placed(r, s))
  {
    if s == [] || StampOf(r).Before(StampOf(s[0])) {
    } else {
      PlacedAscending(r, s[1..]);
      forall x | x in Placed(r, s[1..]) ensures StampOf(s[0]).Before(StampOf(x)) {
        if x != r {
          var k :| 0 <= k < |s[1..]| && s[1..][k] == x;
        }
      }
    }
  }

  lemma {:induction false} OrderedAscending(s: seq<Row>)
    requires UniqueIds(s)
    ensures Ascending(Ordered(s))
  {
    if s != [] {
      OrderedAscending(s[1..]);
      forall x | x in Ordered(s[1..]) ensures x.id != s[0].id {
        var k :| 0 <= k < |s[1..]| && s[1..][k] == x;
      }
      PlacedAscending(s[0], Ordered(s[1..]));
    }
  }

  /** The limit the query runs with. */
  function QueryLimit(limit: int): nat {
    if limit <= 0 || limit > 1000 then 200 else limit
  }

  function Changes(rows: seq<Row>, me: Identity, since: Stamp, limit: int): seq<Row> {
    var all := Ordered(Pending(rows, me, since));
    if |all| <= QueryLimit(limit) then all else all[..QueryLimit(limit)]
  }

  function NextCursor(page: seq<Row>, since: Stamp): Stamp {
    if page == [] then since else StampOf(page[|page| - 1])
  }

  /** The flag the endpoint computes: the page is exactly as long as the limit that was asked for. */
  predicate HasMore(page: seq<Row>, limit: int) {
    |page| == limit
  }

  /** Every pending row, in stream order. */
  function Stream(rows: seq<Row>, me: Identity, since: Stamp): seq<Row> {
    Ordered(Pending(rows, me, since))
  }

  lemma StreamAscends(rows: seq<Row>, me: Identity, since: Stamp)
    requires UniqueIds(rows)
    ensures Ascending(Stream(rows, me, since))
    ensures |Stream(rows, me, since)| == |Pending(rows, me, since)|
    ensures forall r :: r in Stream(rows, me, since) <==> r in rows && Visible(me, r) && since.Before(StampOf(r))
  {
    PendingUnique(rows, me, since);
    OrderedAscending(Pending(rows, me, since));
  }

  /** Cutting an ordered stream after `n` rows puts the cursor exactly between what is kept and what is not. */
  lemma CutAtCursor(all: seq<Row>, since: Stamp, n: nat)
    requires Ascending(all) && n <= |all|
    requires forall k :: 0 <= k < |all| ==> since.Before(StampOf(all[k]))
    ensures forall k :: 0 <= k < |all| ==> (k < n <==> !NextCursor(all[..n], since).Before(StampOf(all[k])))
    ensures n > 0 ==> since.Before(NextCursor(all[..n], since))
  {
    if n > 0 {
      assert NextCursor(all[..n], since) == StampOf(all[n - 1]);
    }
  }

  /** A page is in order, and holds exactly the visible rows between its two cursors. */
  lemma PageHoldsEverythingUpToItsCursor(rows: seq<Row>, me: Identity, since: Stamp, limit: int)
    requires UniqueIds(rows)
    ensures
      var page := Changes(rows, me, since, limit);
      var next := NextCursor(page, since);
      && Ascending(page)
      && |page| <= QueryLimit(limit)
      && (page != [] ==> since.Before(next))
      && (forall r :: r in page <==>
           r in rows && Visible(me, r) && since.Before(StampOf(r)) && !next.Before(StampOf(r)))
  {
    var all := Stream(rows, me, since);
    StreamAscends(rows, me, since);
    var page := Changes(rows, me, since, limit);
    var next := NextCursor(page, since);
    assert page == all[..|page|];
    CutAtCursor(all, since, |page|);
    forall r ensures r in page <==> r in all && !next.Before(StampOf(r)) {
      if r in page {
        var k :| 0 <= k < |page| && page[k] == r;
        assert all[k] == r;
      }
      if r in all && !next.Before(StampOf(r)) {
        var k :| 0 <= k < |all| && all[k] == r;
        assert page[k] == r;
      }
    }
  }

  /** Nothing is left beyond the page exactly when everything pending fitted the query's limit. */
  lemma PageDrainsExactlyWhenPendingFits(rows: seq<Row>, me: Identity, since: Stamp, limit: int)
    requires UniqueIds(rows)
    ensures
      var page := Changes(rows, me, since, limit);
      && (|Pending(rows, me, since)| <= QueryLimit(limit) <==> Pending(rows, me, NextCursor(page, since)) == [])
      && |page| == (if |Pending(rows, me, since)| <= QueryLimit(limit) then |Pending(rows, me, since)|
          else QueryLimit(limit))
  {
    var all := Stream(rows, me, since);
    StreamAscends(rows, me, since);
    var page := Changes(rows, me, since, limit);
    var next := NextCursor(page, since);
    assert page == all[..|page|];
    CutAtCursor(all, since, |page|);
    var later := Pending(rows, me, next);
    if |all| > QueryLimit(limit) {
      assert all[|page|] in all;
      assert all[|page|] in later;
    } else {
      forall r | r in rows && Visible(me, r) ensures !next.Before(StampOf(r)) {
        if since.Before(StampOf(r)) {
          assert r in all;
          var k :| 0 <= k < |all| && all[k] == r;
        }
      }
      NothingPending(rows, me, next);
    }
  }

  /**
   * The flag never hides a further change, whatever the table holds, exactly when the requested limit is one
   * the query accepts; otherwise exactly when what is pending fits the limit that replaces it.
   */
  lemma HasMoreIsHonestExactlyWithinLimits(rows: seq<Row>, me: Identity, since: Stamp, limit: int)
    requires UniqueIds(rows)
    ensures
      var page := Changes(rows, me, since, limit);
      (!HasMore(page, limit) ==> Pending(rows, me, NextCursor(page, since)) == [])
      <==> 1 <= limit <= 1000 || |Pending(rows, me, since)| <= 200
  {
    PageDrainsExactlyWhenPendingFits(rows, me, since, limit);
  }
}
