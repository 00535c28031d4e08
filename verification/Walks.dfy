/**
 Whole client walks: a client follows the cursors of one direction from page to page while rows are
 inserted and deleted between requests. Each visit carries the table of its own moment, so a walk
 ranges over every interleaving of requests with changes to the data. Nothing is assumed about ties; the
 driver is assumed exact on the tables met, and `Reliability` says how far that can be relaxed.
 */
module Walks {
  import opened Common
  import opened Ordering
  import opened SeekPredicate
  import opened PageQuery
  import opened Paginator

  datatype Visit = Visit(table: set<Row>, limit: nat, page: Page)

  /** The cursor that continues a walk in direction `d`. */
  function Onward(d: Direction, p: Page): Option<Cursor> {
    if d.Forward? then p.next else p.prev
  }

  /** `r` lies on the far side of a request's cursor, in the order of the cursor's direction. */
  ghost predicate Beyond(ord: seq<OrderKey>, cursor: Option<Cursor>, r: Row) {
    cursor.Some? ==>
      && |ord| == |r.keys| == |cursor.value.values|
      && (|| Before(QueryOrdering(ord, cursor.value.direction), cursor.value.values, r.keys)
          || (cursor.value.boundary.Inclusive? && r.keys == cursor.value.values))
  }

  ghost predicate StrictlySorted(q: seq<OrderKey>, rows: seq<Row>) {
    forall i, j :: 0 <= i < j < |rows| ==> RowBefore(q, rows[i], rows[j])
  }

  /** `v` may be the visit made with cursor `c`, on a walk in direction `d`. */
  ghost predicate Serves(drv: Driver, ord: seq<OrderKey>, d: Direction, c: Option<Cursor>, v: Visit) {
    && CursorDirection(c) == d && CursorFits(c, ord) && Fits(v.table, ord) && v.limit >= 1
    && Step(drv, ord, v.table, v.limit, c, Ok(v.page))
  }

  /** A walk in direction `d` from `start`; every page was served and all but the last offer a cursor. */
  ghost predicate Walk(drv: Driver, ord: seq<OrderKey>, d: Direction, start: Option<Cursor>, visits: seq<Visit>)
    decreases |visits|
  {
    visits == [] ||
    var v := visits[0];
    && Serves(drv, ord, d, start, v)
    && (|visits| > 1 ==> Onward(d, v.page).Some?)
    && Walk(drv, ord, d, Onward(d, v.page), visits[1..])
  }

  /** The walk ended: its last page offers no further cursor in its direction. */
  ghost predicate Complete(d: Direction, visits: seq<Visit>) {
    visits != [] && Onward(d, visits[|visits| - 1].page).None?
  }

  /** All rows a walk returned, in the order it met them. */
  ghost function Collected(d: Direction, visits: seq<Visit>): seq<Row> {
    if visits == [] then [] else Canonical(d, visits[0].page.items) + Collected(d, visits[1..])
  }

  /** The driver is exact on every table the walk meets. */
  ghost predicate ExactVisits(drv: Driver, visits: seq<Visit>) {
    forall i :: 0 <= i < |visits| ==> Exact(drv, visits[i].table)
  }

  ghost predicate PresentThroughout(r: Row, visits: seq<Visit>) {
    forall i :: 0 <= i < |visits| ==> r in visits[i].table
  }

  lemma SelectedMeaning(ord: seq<OrderKey>, table: set<Row>, cursor: Option<Cursor>)
    requires Fits(table, ord) && CursorFits(cursor, ord)
    ensures Selected(ord, table, cursor) == (set r | r in table && Beyond(ord, cursor, r))
  {
    if cursor.Some? {
      forall r | r in table
        ensures r in Selected(ord, table, cursor) <==> Beyond(ord, cursor, r)
      {
        SeekMeaning(QueryOrdering(ord, cursor.value.direction), cursor.value.values, cursor.value.boundary, r.keys);
      }
    }
  }

  /** Comparing neighbours is enough: a sorted window without an adjacent tie is strictly sorted. */
  lemma {:induction false} NoAdjacentTie(q: seq<OrderKey>, w: seq<Row>)
    requires forall r :: r in w ==> |r.keys| == |q|
    requires forall i, j :: 0 <= i < j < |w| ==> !RowBefore(q, w[j], w[i])
    requires !AdjacentTie(w)
    ensures StrictlySorted(q, w)
  {
    if |w| > 1 {
      var front := w[..|w| - 1];
      assert !AdjacentTie(front) by {
        forall i ensures !TiedWithNext(front, i) {
          assert !TiedWithNext(w, i);
        }
      }
      NoAdjacentTie(q, front);
      var last, before := w[|w| - 1], w[|w| - 2];
      assert !TiedWithNext(w, |w| - 2);
      RowBeforeTotal(q, before, last);
      forall i | 0 <= i < |w| - 1 ensures RowBefore(q, w[i], last) {
        if i < |w| - 2 {
          assert RowBefore(q, front[i], front[|w| - 2]);
          RowBeforeTransitive(q, w[i], before, last);
        }
      }
    }
  }

  lemma WindowIsSorted(ord: seq<OrderKey>, table: set<Row>, limit: nat, cursor: Option<Cursor>, w: seq<Row>)
    requires Fits(table, ord) && CursorFits(cursor, ord)
    requires IsWindow(ord, table, limit, cursor, w) && !AdjacentTie(w)
    ensures StrictlySorted(QueryOrdering(ord, CursorDirection(cursor)), w)
    ensures forall r :: r in w ==> r in table && Beyond(ord, cursor, r)
  {
    SelectedMeaning(ord, table, cursor);
    NoAdjacentTie(QueryOrdering(ord, CursorDirection(cursor)), w);
  }

  lemma SortedFront(q: seq<OrderKey>, w: seq<Row>, n: nat)
    requires StrictlySorted(q, w)
    ensures StrictlySorted(q, Take(w, n))
    ensures forall r :: r in Take(w, n) ==> r in w
  {
  }

  /** A served page, in query order: strictly sorted rows of the table beyond the cursor. */
  lemma PageIsSorted(drv: Driver, ord: seq<OrderKey>, table: set<Row>, limit: nat, cursor: Option<Cursor>, p: Page)
    requires Fits(table, ord) && CursorFits(cursor, ord)
    requires Exact(drv, table) && Step(drv, ord, table, limit, cursor, Ok(p))
    ensures StrictlySorted(QueryOrdering(ord, CursorDirection(cursor)), Canonical(CursorDirection(cursor), p.items))
    ensures forall r :: r in Canonical(CursorDirection(cursor), p.items) ==> r in table && Beyond(ord, cursor, r)
  {
    var w := WindowOfPage(drv, ord, table, limit, cursor, p);
    WindowIsSorted(ord, table, limit, cursor, w);
    SortedFront(QueryOrdering(ord, CursorDirection(cursor)), w, limit);
  }

  /** The rows a window leaves out all lie strictly after the last row kept from it. */
  lemma WindowLeavesNoGap(q: seq<OrderKey>, rows: set<Row>, limit: nat, w: seq<Row>)
    requires Fits(rows, q) && limit >= 1
    requires IsTop(q, rows, limit + 1, w) && !AdjacentTie(w)
    ensures |w| <= limit ==> forall r :: r in rows ==> r in w
    ensures |w| > limit ==> forall r :: r in rows && r !in w[..limit] ==> RowBefore(q, w[limit - 1], r)
  {
    NoAdjacentTie(q, w);
    if |w| <= limit {
      DistinctCoversAll(w, rows);
    } else {
      var last, over := w[limit - 1], w[limit];
      assert RowBefore(q, last, over);
      forall r | r in rows && r !in w[..limit] ensures RowBefore(q, last, r) {
        if r in w {
          var i :| 0 <= i < |w| && w[i] == r;
          assert forall j :: 0 <= j < limit ==> w[j] in w[..limit];
          assert i == limit;
        } else {
          assert !RowBefore(q, r, over);
          RowBeforeTotal(q, r, over);
          if RowBefore(q, over, r) {
            RowBeforeTransitive(q, last, over, r);
          }
        }
      }
    }
  }

  /** What a page leaves behind: nothing when it offers no onward cursor, and otherwise only rows
      strictly after its last row - which is where the onward cursor points. */
  lemma PageLeavesNoGap(drv: Driver, ord: seq<OrderKey>, table: set<Row>, limit: nat, cursor: Option<Cursor>, p: Page)
    requires Fits(table, ord) && CursorFits(cursor, ord) && limit >= 1
    requires Exact(drv, table) && Step(drv, ord, table, limit, cursor, Ok(p))
    ensures OnwardIsLast(ord, CursorDirection(cursor), p)
    ensures forall r :: r in table && Beyond(ord, cursor, r) && r !in Canonical(CursorDirection(cursor), p.items) ==>
              Onward(CursorDirection(cursor), p).Some? && Beyond(ord, Onward(CursorDirection(cursor), p), r)
  {
    var d := CursorDirection(cursor);
    var w := WindowOfPage(drv, ord, table, limit, cursor, p);
    var rows := Selected(ord, table, cursor);
    SelectedMeaning(ord, table, cursor);
    OnwardOfPage(limit, cursor, p, w);
    WindowLeavesNoGap(QueryOrdering(ord, d), rows, limit, w);
    forall r | r in table && Beyond(ord, cursor, r) && r !in Canonical(d, p.items)
      ensures Onward(d, p).Some? && Beyond(ord, Onward(d, p), r)
    {
      assert r in rows;
      assert |w| > limit;
      assert RowBefore(QueryOrdering(ord, d), w[limit - 1], r);
    }
  }

  /** The window a served page was cut from. */
  lemma WindowOfPage(drv: Driver, ord: seq<OrderKey>, table: set<Row>, limit: nat, cursor: Option<Cursor>, p: Page) returns (w: seq<Row>)
    requires Fits(table, ord) && CursorFits(cursor, ord)
    requires Exact(drv, table) && Step(drv, ord, table, limit, cursor, Ok(p))
    ensures IsWindow(ord, table, limit, cursor, w) && !AdjacentTie(w)
    ensures Canonical(CursorDirection(cursor), p.items) == Take(w, limit)
    ensures (p.next, p.prev) == Neighbours(p.items, |w| > limit, cursor)
  {
    StepIsIdeal(drv, ord, table, limit, cursor, Ok(p));
    w :| IsWindow(ord, table, limit, cursor, w) && Ok(p) == AssembleIdeal(w, limit, cursor);
    CanonicalTwice(CursorDirection(cursor), Take(w, limit));
  }

  /** The cursors of a page are those of its items, with or without more rows behind them. */
  lemma PageCursors(drv: Driver, ord: seq<OrderKey>, table: set<Row>, limit: nat, cursor: Option<Cursor>, p: Page) returns (hasMore: bool)
    requires Fits(table, ord) && CursorFits(cursor, ord)
    requires Exact(drv, table) && Step(drv, ord, table, limit, cursor, Ok(p))
    ensures (p.next, p.prev) == Neighbours(p.items, hasMore, cursor)
  {
    var w := WindowOfPage(drv, ord, table, limit, cursor, p);
    hasMore := |w| > limit;
  }

  lemma CanonicalTwice(d: Direction, rows: seq<Row>)
    ensures Canonical(d, Canonical(d, rows)) == rows
  {
  }

  /** In either direction the onward cursor is there iff more rows are, and points at the last fetched. */
  lemma OnwardOfFetched(d: Direction, fetched: seq<Row>, hasMore: bool, cursor: Option<Cursor>)
    requires d == CursorDirection(cursor) && fetched != []
    ensures var cursors := Neighbours(Canonical(d, fetched), hasMore, cursor);
            (if d.Forward? then cursors.0 else cursors.1) ==
              if hasMore then Some(Cursor(d, Exclusive, fetched[|fetched| - 1].keys)) else None
  {
  }

  lemma OnwardOfPage(limit: nat, cursor: Option<Cursor>, p: Page, w: seq<Row>)
    requires limit >= 1 && Canonical(CursorDirection(cursor), p.items) == Take(w, limit)
    requires (p.next, p.prev) == Neighbours(p.items, |w| > limit, cursor)
    ensures Onward(CursorDirection(cursor), p) ==
              if |w| > limit then Some(Cursor(CursorDirection(cursor), Exclusive, w[limit - 1].keys)) else None
  {
    var d := CursorDirection(cursor);
    CanonicalTwice(d, p.items);
    if w != [] {
      OnwardOfFetched(d, Take(w, limit), |w| > limit, cursor);
    }
  }

  /** An onward cursor points, exclusively, at the last row fetched. */
  ghost predicate OnwardIsLast(ord: seq<OrderKey>, d: Direction, p: Page) {
    var fetched := Canonical(d, p.items);
    Onward(d, p).Some? ==>
      && fetched != [] && |fetched[|fetched| - 1].keys| == |ord|
      && Onward(d, p) == Some(Cursor(d, Exclusive, fetched[|fetched| - 1].keys))
  }

  /** |rows| distinct rows of a set are all of it. */
  lemma {:induction false} DistinctCoversAll(w: seq<Row>, rows: set<Row>)
    requires forall i, j :: 0 <= i < j < |w| ==> w[i] != w[j]
    requires forall i :: 0 <= i < |w| ==> w[i] in rows
    requires |w| >= |rows|
    ensures forall r :: r in rows ==> r in w
    ensures |w| == |rows|
  {
    if w != [] {
      var last := w[|w| - 1];
      DistinctCoversAll(w[..|w| - 1], rows - {last});
      assert w == w[..|w| - 1] + [last];
    }
  }

  /** Rows beyond a page's onward cursor come after every row of the page and beyond its own cursor. */
  lemma BeyondOnward(ord: seq<OrderKey>, cursor: Option<Cursor>, p: Page, r: Row)
    requires var d := CursorDirection(cursor);
             && StrictlySorted(QueryOrdering(ord, d), Canonical(d, p.items))
             && (forall x :: x in Canonical(d, p.items) ==> Beyond(ord, cursor, x))
             && OnwardIsLast(ord, d, p) && Onward(d, p).Some? && Beyond(ord, Onward(d, p), r)
    ensures forall x :: x in Canonical(CursorDirection(cursor), p.items) ==> RowBefore(QueryOrdering(ord, CursorDirection(cursor)), x, r)
    ensures Beyond(ord, cursor, r)
  {
    var d := CursorDirection(cursor);
    var q, fetched := QueryOrdering(ord, d), Canonical(d, p.items);
    var last := fetched[|fetched| - 1];
    assert last in fetched && RowBefore(q, last, r);
    forall x | x in fetched ensures RowBefore(q, x, r) {
      var i :| 0 <= i < |fetched| && fetched[i] == x;
      if i < |fetched| - 1 {
        RowBeforeTransitive(q, x, last, r);
      }
    }
    if cursor.Some? && Before(q, cursor.value.values, last.keys) {
      BeforeTransitive(q, cursor.value.values, last.keys, r.keys);
    }
  }

  lemma SortedConcat(q: seq<OrderKey>, a: seq<Row>, b: seq<Row>)
    requires StrictlySorted(q, a) && StrictlySorted(q, b)
    requires forall x, y :: x in a && y in b ==> RowBefore(q, x, y)
    ensures StrictlySorted(q, a + b)
  {
  }

  lemma SortedIsDistinct(q: seq<OrderKey>, s: seq<Row>)
    requires StrictlySorted(q, s)
    ensures forall i, j :: 0 <= i < j < |s| ==> s[i] != s[j]
  {
    forall i, j | 0 <= i < j < |s| ensures s[i] != s[j] {
      assert RowBefore(q, s[i], s[j]);
      RowBeforeTotal(q, s[i], s[j]);
    }
  }

  /** Over a whole walk, keys strictly increase (decrease, going backward) within and across pages,
      every row returned lies beyond the starting cursor, and no row is returned twice. */
  lemma {:induction false} WalkIsStrictlySorted(drv: Driver, ord: seq<OrderKey>, d: Direction, start: Option<Cursor>, visits: seq<Visit>)
    requires Walk(drv, ord, d, start, visits) && ExactVisits(drv, visits)
    ensures StrictlySorted(QueryOrdering(ord, d), Collected(d, visits))
    ensures forall r :: r in Collected(d, visits) ==> |r.keys| == |ord| && Beyond(ord, start, r)
    ensures forall i, j :: 0 <= i < j < |Collected(d, visits)| ==> Collected(d, visits)[i] != Collected(d, visits)[j]
    decreases |visits|
  {
    if visits != [] {
      var v, q := visits[0], QueryOrdering(ord, d);
      var fetched, later := Canonical(d, v.page.items), Collected(d, visits[1..]);
      PageIsSorted(drv, ord, v.table, v.limit, start, v.page);
      PageLeavesNoGap(drv, ord, v.table, v.limit, start, v.page);
      WalkIsStrictlySorted(drv, ord, d, Onward(d, v.page), visits[1..]);
      forall y | y in later
        ensures forall x :: x in fetched ==> RowBefore(q, x, y)
        ensures Beyond(ord, start, y)
      {
        BeyondOnward(ord, start, v.page, y);
      }
      SortedConcat(q, fetched, later);
    }
    SortedIsDistinct(QueryOrdering(ord, d), Collected(d, visits));
  }

  lemma PresentLater(r: Row, visits: seq<Visit>)
    requires visits != [] && PresentThroughout(r, visits)
    ensures r in visits[0].table && PresentThroughout(r, visits[1..])
  {
  }

  /** A walk that ends without a cursor returned every row that was there all along. */
  lemma {:induction false} CompleteWalkMissesNothing(drv: Driver, ord: seq<OrderKey>, d: Direction, start: Option<Cursor>, visits: seq<Visit>, r: Row)
    requires Walk(drv, ord, d, start, visits) && Complete(d, visits) && ExactVisits(drv, visits)
    requires PresentThroughout(r, visits) && Beyond(ord, start, r)
    ensures r in Collected(d, visits)
    decreases |visits|
  {
    var v, rest := visits[0], visits[1..];
    PresentLater(r, visits);
    if r !in Canonical(d, v.page.items) {
      PageLeavesNoGap(drv, ord, v.table, v.limit, start, v.page);
      assert rest != [];
      assert Complete(d, rest);
      CompleteWalkMissesNothing(drv, ord, d, Onward(d, v.page), rest, r);
    }
  }

  /** The forward walk from the first page, under arbitrary inserts and deletes: rows come in strictly
      increasing canonical order, so none twice; at the end, each row present throughout came exactly once. */
  lemma ForwardWalk(drv: Driver, ord: seq<OrderKey>, visits: seq<Visit>)
    requires Walk(drv, ord, Forward, None, visits) && ExactVisits(drv, visits)
    ensures StrictlySorted(ord, Collected(Forward, visits))
    ensures Complete(Forward, visits) ==>
              forall r :: PresentThroughout(r, visits) ==> multiset(Collected(Forward, visits))[r] == 1
  {
    WalkIsStrictlySorted(drv, ord, Forward, None, visits);
    if Complete(Forward, visits) {
      forall r | PresentThroughout(r, visits) ensures multiset(Collected(Forward, visits))[r] == 1 {
        CompleteWalkMissesNothing(drv, ord, Forward, None, visits, r);
        DistinctCount(Collected(Forward, visits), r);
      }
    }
  }

  lemma {:induction false} DistinctCount(s: seq<Row>, r: Row)
    requires forall i, j :: 0 <= i < j < |s| ==> s[i] != s[j]
    requires r in s
    ensures multiset(s)[r] == 1
  {
    var k :| 0 <= k < |s| && s[k] == r;
    assert s == s[..k] + [r] + s[k + 1..];
    assert r !in s[..k] && r !in s[k + 1..];
    assert multiset(s[..k])[r] == 0 && multiset(s[k + 1..])[r] == 0;
  }

  /** Some outcome of every request exists, so a walk never gets stuck before it ends. */
  lemma StepExists(drv: Driver, ord: seq<OrderKey>, table: set<Row>, limit: nat, cursor: Option<Cursor>)
    requires Fits(table, ord) && CursorFits(cursor, ord)
    ensures exists out :: Step(drv, ord, table, limit, cursor, out)
  {
    var q := QueryOrdering(ord, CursorDirection(cursor));
    var w := TopExists(q, Selected(ord, table, cursor), limit + 1);
    assert IsWindow(ord, table, limit, cursor, w);
    assert Step(drv, ord, table, limit, cursor, Assemble(drv, w, limit, cursor));
  }

  // ---- ties

  /** Tied rows that stay in the table are never both served: a walk that completes met no tie. Where
      two rows tie throughout, the walk must therefore have failed, whatever order ties came back in. */
  lemma CompleteWalkHasNoTies(drv: Driver, ord: seq<OrderKey>, visits: seq<Visit>, r: Row, s: Row)
    requires Walk(drv, ord, Forward, None, visits) && Complete(Forward, visits) && ExactVisits(drv, visits)
    requires PresentThroughout(r, visits) && PresentThroughout(s, visits) && r != s
    ensures r.keys != s.keys
  {
    CompleteWalkMissesNothing(drv, ord, Forward, None, visits, r);
    CompleteWalkMissesNothing(drv, ord, Forward, None, visits, s);
    WalkIsStrictlySorted(drv, ord, Forward, None, visits);
    var c := Collected(Forward, visits);
    var i :| 0 <= i < |c| && c[i] == r;
    var j :| 0 <= j < |c| && c[j] == s;
    RowBeforeTotal(ord, r, s);
    assert if i < j then RowBefore(ord, c[i], c[j]) else RowBefore(ord, c[j], c[i]);
  }

  ghost predicate UniqueKeys(table: set<Row>) {
    forall r, s :: r in table && s in table && r.keys == s.keys ==> r == s
  }

  /** The error is never spurious: it is raised only on a table that does hold tied rows. */
  lemma ErrorMeansTie(drv: Driver, ord: seq<OrderKey>, table: set<Row>, limit: nat, cursor: Option<Cursor>, e: ConfigurationError)
    requires Fits(table, ord) && CursorFits(cursor, ord) && Exact(drv, table)
    requires Step(drv, ord, table, limit, cursor, Err(e)) && e != Unserializable
    ensures e == OrderingNotUnique && !UniqueKeys(table)
  {
    StepIsIdeal(drv, ord, table, limit, cursor, Err(e));
    var w: seq<Row> :| IsWindow(ord, table, limit, cursor, w) && Err(e) == AssembleIdeal(w, limit, cursor);
    var i :| TiedWithNext(w, i);
    WindowOfTable(ord, table, limit, cursor, w);
    assert w[i] in table && w[i + 1] in table && w[i] != w[i + 1];
  }

  /** Only a row that cannot be serialised stops a request for that reason. */
  lemma UnserializableMeansRow(drv: Driver, ord: seq<OrderKey>, table: set<Row>, limit: nat, cursor: Option<Cursor>)
    requires Fits(table, ord) && CursorFits(cursor, ord)
    requires Step(drv, ord, table, limit, cursor, Err(Unserializable))
    ensures exists r :: r in table && !drv.writes(r)
  {
    assert LookInside(true);
    var w: seq<Row> :| IsWindow(ord, table, limit, cursor, w) && Err(Unserializable) == Assemble(drv, w, limit, cursor);
    WindowOfTable(ord, table, limit, cursor, w);
    var r :| r in w && !drv.writes(r);
    assert r in table;
  }

  ghost predicate FixedTable(table: set<Row>, visits: seq<Visit>) {
    forall i :: 0 <= i < |visits| ==> visits[i].table == table
  }

  /** On unchanging data a walk cannot go on for ever: every page but the last brings new rows. */
  lemma {:induction false} WalkIsBounded(drv: Driver, ord: seq<OrderKey>, d: Direction, start: Option<Cursor>, table: set<Row>, visits: seq<Visit>)
    requires Walk(drv, ord, d, start, visits) && FixedTable(table, visits) && ExactVisits(drv, visits)
    ensures |Collected(d, visits)| <= |table|
    ensures |visits| <= |table| + 1
  {
    WalkIsStrictlySorted(drv, ord, d, start, visits);
    CollectedFromTable(drv, ord, d, start, table, visits);
    DistinctFits(Collected(d, visits), table);
  }

  lemma {:induction false} CollectedFromTable(drv: Driver, ord: seq<OrderKey>, d: Direction, start: Option<Cursor>, table: set<Row>, visits: seq<Visit>)
    requires Walk(drv, ord, d, start, visits) && FixedTable(table, visits) && ExactVisits(drv, visits)
    ensures forall r :: r in Collected(d, visits) ==> r in table
    ensures |visits| <= |Collected(d, visits)| + 1
    ensures visits != [] && Reached(d, start, visits).Some? ==> |visits| <= |Collected(d, visits)|
    decreases |visits|
  {
    if visits != [] {
      var v := visits[0];
      assert v.table == table;
      PageOfTable(drv, ord, d, start, v);
      assert FixedTable(table, visits[1..]);
      CollectedFromTable(drv, ord, d, Onward(d, v.page), table, visits[1..]);
    }
  }

  /** A page holds rows of its table, and at least one if it offers an onward cursor. */
  lemma PageOfTable(drv: Driver, ord: seq<OrderKey>, d: Direction, c: Option<Cursor>, v: Visit)
    requires Serves(drv, ord, d, c, v) && Exact(drv, v.table)
    ensures forall r :: r in Canonical(d, v.page.items) ==> r in v.table
    ensures Onward(d, v.page).Some? ==> |Canonical(d, v.page.items)| >= 1
  {
    PageIsSorted(drv, ord, v.table, v.limit, c, v.page);
    PageLeavesNoGap(drv, ord, v.table, v.limit, c, v.page);
  }

  lemma {:induction false} DistinctFits(w: seq<Row>, rows: set<Row>)
    requires forall i, j :: 0 <= i < j < |w| ==> w[i] != w[j]
    requires forall r :: r in w ==> r in rows
    ensures |w| <= |rows|
  {
    if w != [] {
      var last := w[|w| - 1];
      DistinctFits(w[..|w| - 1], rows - {last});
    }
  }

  // ---- runs: requests until one fails or offers no cursor

  /** The cursor a client holds after some visits of a walk. */
  function Reached(d: Direction, start: Option<Cursor>, visits: seq<Visit>): Option<Cursor> {
    if visits == [] then start else Onward(d, visits[|visits| - 1].page)
  }

  lemma WalkCons(drv: Driver, ord: seq<OrderKey>, d: Direction, start: Option<Cursor>, v: Visit, rest: seq<Visit>)
    requires Serves(drv, ord, d, start, v) && (rest != [] ==> Onward(d, v.page).Some?)
    requires Walk(drv, ord, d, Onward(d, v.page), rest)
    ensures Walk(drv, ord, d, start, [v] + rest)
  {
    assert ([v] + rest)[1..] == rest;
  }

  lemma ReachedLater(d: Direction, start: Option<Cursor>, visits: seq<Visit>)
    requires visits != []
    ensures Reached(d, start, visits) == Reached(d, Onward(d, visits[0].page), visits[1..])
  {
  }

  /** A walk goes on with a visit made with the cursor it has reached. */
  lemma {:induction false} WalkSnoc(drv: Driver, ord: seq<OrderKey>, d: Direction, start: Option<Cursor>, visits: seq<Visit>, v: Visit)
    requires Walk(drv, ord, d, start, visits)
    requires visits != [] ==> Reached(d, start, visits).Some?
    requires Serves(drv, ord, d, Reached(d, start, visits), v)
    ensures Walk(drv, ord, d, start, visits + [v])
    decreases |visits|
  {
    if visits == [] {
      WalkCons(drv, ord, d, start, v, []);
      assert [] + [v] == [v] + [];
    } else {
      var first, rest := visits[0], visits[1..];
      ReachedLater(d, start, visits);
      WalkSnoc(drv, ord, d, Onward(d, first.page), rest, v);
      WalkCons(drv, ord, d, start, first, rest + [v]);
      assert visits + [v] == [first] + (rest + [v]);
    }
  }

  /** A client's run on an unchanging table, from the first page: the pages served, each with a next
      cursor, and then one more request with its outcome. */
  ghost predicate Run(drv: Driver, ord: seq<OrderKey>, table: set<Row>, visits: seq<Visit>, limit: nat, out: Outcome)
    requires Fits(table, ord)
  {
    var c := Reached(Forward, None, visits);
    && Walk(drv, ord, Forward, None, visits) && FixedTable(table, visits)
    && (visits != [] ==> c.Some?) && CursorFits(c, ord) && CursorDirection(c).Forward?
    && limit >= 1 && Step(drv, ord, table, limit, c, out)
  }

  /** Nothing is left to request: the outcome is an error or a page without a next cursor. */
  predicate Ended(out: Outcome) {
    out.Err? || out.value.next.None?
  }

  /** On a fixed table a run that has ended failed with the non-unique-ordering error exactly when two
      rows tie, whatever order the ties came back in and whatever page sizes were asked for; it took
      at most |table| + 1 requests. */
  lemma FullWalkFailsExactlyOnTies(drv: Driver, ord: seq<OrderKey>, table: set<Row>, visits: seq<Visit>, limit: nat, out: Outcome)
    requires Fits(table, ord) && Exact(drv, table) && forall r :: r in table ==> drv.writes(r)
    requires Run(drv, ord, table, visits, limit, out) && Ended(out)
    ensures out == Err(OrderingNotUnique) <==> !UniqueKeys(table)
    ensures out.Ok? <==> UniqueKeys(table)
    ensures |visits| <= |table|
  {
    RunIsBounded(drv, ord, table, visits);
    match out {
      case Err(e) =>
        if e == Unserializable {
          UnserializableMeansRow(drv, ord, table, limit, Reached(Forward, None, visits));
        }
        ErrorMeansTie(drv, ord, table, limit, Reached(Forward, None, visits), e);
      case Ok(p) =>
        var all := visits + [Visit(table, limit, p)];
        WalkSnoc(drv, ord, Forward, None, visits, Visit(table, limit, p));
        forall r, s | r in table && s in table && r != s ensures r.keys != s.keys {
          CompleteWalkHasNoTies(drv, ord, all, r, s);
        }
    }
  }

  lemma RunIsBounded(drv: Driver, ord: seq<OrderKey>, table: set<Row>, visits: seq<Visit>)
    requires Exact(drv, table) && Walk(drv, ord, Forward, None, visits) && FixedTable(table, visits)
    requires visits != [] ==> Reached(Forward, None, visits).Some?
    ensures |visits| <= |table|
  {
    assert ExactVisits(drv, visits);
    WalkIsStrictlySorted(drv, ord, Forward, None, visits);
    CollectedFromTable(drv, ord, Forward, None, table, visits);
    DistinctFits(Collected(Forward, visits), table);
  }

  /** From wherever a client stands, asking for `limit` rows at a time, the run comes to an end. */
  lemma RunEnds(drv: Driver, ord: seq<OrderKey>, table: set<Row>, limit: nat, visits: seq<Visit>) returns (all: seq<Visit>, out: Outcome)
    requires Fits(table, ord) && Exact(drv, table) && limit >= 1
    requires Walk(drv, ord, Forward, None, visits) && FixedTable(table, visits)
    requires visits != [] ==> Reached(Forward, None, visits).Some?
    ensures visits <= all && Run(drv, ord, table, all, limit, out) && Ended(out)
    decreases |table| - |visits|
  {
    RunIsBounded(drv, ord, table, visits);
    all := visits;
    var c := Reached(Forward, None, visits);
    ReachedFits(drv, ord, table, visits);
    StepExists(drv, ord, table, limit, c);
    out :| Step(drv, ord, table, limit, c, out);
    if !Ended(out) {
      var v := Visit(table, limit, out.value);
      WalkSnoc(drv, ord, Forward, None, visits, v);
      RunIsBounded(drv, ord, table, visits + [v]);
      all, out := RunEnds(drv, ord, table, limit, visits + [v]);
    }
  }

  lemma {:induction false} ReachedFits(drv: Driver, ord: seq<OrderKey>, table: set<Row>, visits: seq<Visit>)
    requires Exact(drv, table) && Walk(drv, ord, Forward, None, visits) && FixedTable(table, visits)
    ensures CursorFits(Reached(Forward, None, visits), ord) && CursorDirection(Reached(Forward, None, visits)).Forward?
  {
    if visits != [] {
      LastStep(drv, ord, Forward, None, visits);
      var n := |visits| - 1;
      var c := Reached(Forward, None, visits[..n]);
      assert visits[n].table == table;
      PageLeavesNoGap(drv, ord, table, visits[n].limit, c, visits[n].page);
    }
  }

  /** The last visit of a walk is a step from the cursor reached before it. */
  lemma {:induction false} LastStep(drv: Driver, ord: seq<OrderKey>, d: Direction, start: Option<Cursor>, visits: seq<Visit>)
    requires Walk(drv, ord, d, start, visits) && visits != []
    ensures var n := |visits| - 1;
            Serves(drv, ord, d, Reached(d, start, visits[..n]), visits[n])
    decreases |visits|
  {
    var n := |visits| - 1;
    if n == 0 {
      assert visits[..0] == [];
    } else {
      var rest := visits[1..];
      LastStep(drv, ord, d, Onward(d, visits[0].page), rest);
      assert rest[n - 1] == visits[n];
      ReachedLater(d, start, visits[..n]);
      assert visits[..n][1..] == rest[..n - 1];
    }
  }
}
