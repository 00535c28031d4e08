/**
 Pages over unchanging data with unique keys: the fetched page is determined, backward pages are the
 rows just before the cursor, browsing moves between aligned blocks, and a page found empty recovers.
 */
module Blocks {
  import opened Common
  import opened Ordering
  import opened SeekPredicate
  import opened PageQuery
  import opened Paginator
  import opened Walks

  /** `s` lists the rows of `table` in strictly increasing order. */
  ghost predicate Listing(s: seq<Row>, q: seq<OrderKey>, table: set<Row>) {
    StrictlySorted(q, s) && forall r :: r in s <==> r in table
  }

  function Final<T>(s: seq<T>, n: nat): seq<T> { if n <= |s| then s[|s| - n..] else s }

  lemma ListingSize(s: seq<Row>, q: seq<OrderKey>, table: set<Row>)
    requires Listing(s, q, table)
    ensures |s| == |table|
  {
    SortedIsDistinct(q, s);
    DistinctFits(s, table);
    CoveringSize(s, table);
  }

  lemma {:induction false} CoveringSize(w: seq<Row>, rows: set<Row>)
    requires forall r :: r in rows ==> r in w
    ensures |rows| <= |w|
  {
    if w != [] {
      var last := w[|w| - 1];
      assert w == w[..|w| - 1] + [last];
      CoveringSize(w[..|w| - 1], rows - {last});
    } else {
      assert rows == {};
    }
  }

  /** A table without ties has a listing. */
  lemma ListingExists(q: seq<OrderKey>, table: set<Row>) returns (s: seq<Row>)
    requires Fits(table, q) && UniqueKeys(table)
    ensures Listing(s, q, table)
  {
    s := TopExists(q, table, |table|);
    DistinctCoversAll(s, table);
    assert !AdjacentTie(s) by {
      forall i ensures !TiedWithNext(s, i) {
        assert 0 <= i < |s| - 1 ==> s[i] in table && s[i + 1] in table && s[i] != s[i + 1];
      }
    }
    NoAdjacentTie(q, s);
  }

  /** Without ties a query has one answer: the front of the sorted listing. */
  lemma TopOfListing(q: seq<OrderKey>, rows: set<Row>, t: seq<Row>, n: nat, w: seq<Row>)
    requires Fits(rows, q) && Listing(t, q, rows) && IsTop(q, rows, n, w)
    ensures w == Take(t, n)
  {
    ListingSize(t, q, rows);
    TopAgrees(q, rows, t, n, w, |w|);
  }

  lemma NotYetTaken(q: seq<OrderKey>, t: seq<Row>, w: seq<Row>, k: nat)
    requires StrictlySorted(q, t) && k < |t| && k < |w| && w[..k] == t[..k]
    requires forall i, j :: 0 <= i < j < |w| ==> w[i] != w[j]
    ensures forall i :: 0 <= i < k ==> w[i] == t[i] && w[i] != t[k] && t[i] != w[k]
  {
    SortedIsDistinct(q, t);
    forall i | 0 <= i < k ensures w[i] == t[i] && w[i] != t[k] && t[i] != w[k] {
      assert w[i] == w[..k][i] == t[..k][i] == t[i];
    }
  }

  lemma TopNext(q: seq<OrderKey>, rows: set<Row>, t: seq<Row>, n: nat, w: seq<Row>, k: nat)
    requires Fits(rows, q) && Listing(t, q, rows) && IsTop(q, rows, n, w) && |t| == |rows| && k < |w|
    requires w[..k] == t[..k]
    ensures w[k] == t[k]
  {
    NotYetTaken(q, t, w, k);
    assert w[k] in rows && t[k] in t;
    assert !RowBefore(q, t[k], w[k]) by {
      RowBeforeTotal(q, w[k], w[k]);
      if t[k] in w {
        var m :| 0 <= m < |w| && w[m] == t[k];
        assert m >= k;
      }
    }
    var j :| 0 <= j < |t| && t[j] == w[k];
    assert j >= k;
    assert j <= k;
  }

  lemma {:induction false} TopAgrees(q: seq<OrderKey>, rows: set<Row>, t: seq<Row>, n: nat, w: seq<Row>, i: nat)
    requires Fits(rows, q) && Listing(t, q, rows) && IsTop(q, rows, n, w) && |t| == |rows| && i <= |w|
    ensures w[..i] == t[..i]
  {
    if i > 0 {
      TopAgrees(q, rows, t, n, w, i - 1);
      TopNext(q, rows, t, n, w, i - 1);
    }
  }

  /** The page that the rows `t` beyond a cursor, listed in query order, give. */
  function PageOf(t: seq<Row>, limit: nat, cursor: Option<Cursor>): Page {
    var items := Canonical(CursorDirection(cursor), Take(t, limit));
    var cursors := Neighbours(items, |t| > limit, cursor);
    Page(items, cursors.0, cursors.1)
  }

  /** With unique keys a request never fails and has one possible page. */
  lemma DeterminedPage(drv: Driver, ord: seq<OrderKey>, table: set<Row>, limit: nat, cursor: Option<Cursor>, t: seq<Row>, out: Outcome)
    requires Fits(table, ord) && CursorFits(cursor, ord)
    requires Listing(t, QueryOrdering(ord, CursorDirection(cursor)), set r | r in table && Beyond(ord, cursor, r))
    requires Exact(drv, table) && Step(drv, ord, table, limit, cursor, out) && out != Err(Unserializable)
    ensures out == Ok(PageOf(t, limit, cursor))
  {
    var q := QueryOrdering(ord, CursorDirection(cursor));
    StepIsIdeal(drv, ord, table, limit, cursor, out);
    var w: seq<Row> :| IsWindow(ord, table, limit, cursor, w) && out == AssembleIdeal(w, limit, cursor);
    SelectedMeaning(ord, table, cursor);
    TopOfListing(q, Selected(ord, table, cursor), t, limit + 1, w);
    SortedHasNoTie(q, t, limit + 1);
    AssembleListing(t, limit, cursor);
  }

  lemma SortedHasNoTie(q: seq<OrderKey>, t: seq<Row>, n: nat)
    requires StrictlySorted(q, t)
    ensures !AdjacentTie(Take(t, n))
  {
    forall i ensures !TiedWithNext(Take(t, n), i) {
      if 0 <= i < |t| - 1 {
        assert RowBefore(q, t[i], t[i + 1]);
        RowBeforeTotal(q, t[i], t[i + 1]);
      }
    }
  }

  lemma AssembleListing(t: seq<Row>, limit: nat, cursor: Option<Cursor>)
    requires !AdjacentTie(Take(t, limit + 1))
    ensures AssembleIdeal(Take(t, limit + 1), limit, cursor) == Ok(PageOf(t, limit, cursor))
  {
    var w := Take(t, limit + 1);
    assert Take(w, limit) == Take(t, limit);
  }

  /** A cursor splits the listing: the first `m` rows are not beyond it going forward, the rest are. */
  ghost predicate SplitsAt(ord: seq<OrderKey>, s: seq<Row>, cursor: Cursor, m: nat) {
    && m <= |s|
    && (forall i :: 0 <= i < m ==> (Beyond(ord, Some(cursor), s[i]) <==> cursor.direction.Backward?))
    && (forall i :: m <= i < |s| ==> (Beyond(ord, Some(cursor), s[i]) <==> cursor.direction.Forward?))
  }

  lemma SortedSlice(q: seq<OrderKey>, s: seq<Row>, lo: nat, hi: nat)
    requires StrictlySorted(q, s) && lo <= hi <= |s|
    ensures StrictlySorted(q, s[lo..hi])
  {
  }

  lemma ReverseIsSorted(ord: seq<OrderKey>, s: seq<Row>)
    requires StrictlySorted(ord, s)
    ensures StrictlySorted(ReversedOrdering(ord), Reverse(s))
  {
    var r := Reverse(s);
    forall i, j | 0 <= i < j < |r| ensures RowBefore(ReversedOrdering(ord), r[i], r[j]) {
      assert RowBefore(ord, s[|s| - 1 - j], s[|s| - 1 - i]);
      ReversedIsConverse(ord, r[i].keys, r[j].keys);
    }
  }

  lemma FetchedForth(ord: seq<OrderKey>, d: Direction, items: seq<Row>)
    requires StrictlySorted(QueryOrdering(ord, d), Canonical(d, items))
    ensures StrictlySorted(ord, items)
  {
    if d.Backward? {
      ReverseIsSorted(ReversedOrdering(ord), Reverse(items));
      ReversedTwice(ord);
      assert Reverse(Reverse(items)) == items;
    }
  }

  lemma FetchedMembers(d: Direction, items: seq<Row>)
    ensures forall r :: r in items <==> r in Canonical(d, items)
  {
    ReverseMembers(items);
  }

  /** Whatever way a page was reached, its items are strictly increasing in canonical order. */
  lemma ItemsAreSorted(drv: Driver, ord: seq<OrderKey>, table: set<Row>, limit: nat, cursor: Option<Cursor>, p: Page)
    requires Fits(table, ord) && CursorFits(cursor, ord) && Exact(drv, table)
    requires Step(drv, ord, table, limit, cursor, Ok(p))
    ensures StrictlySorted(ord, p.items)
    ensures forall r :: r in p.items ==> r in table && Beyond(ord, cursor, r)
  {
    PageIsSorted(drv, ord, table, limit, cursor, p);
    FetchedForth(ord, CursorDirection(cursor), p.items);
    FetchedMembers(CursorDirection(cursor), p.items);
  }

  lemma AfterAll(ord: seq<OrderKey>, items: seq<Row>, y: Row)
    requires StrictlySorted(ord, items) && items != [] && RowBefore(ord, items[|items| - 1], y)
    ensures forall x :: x in items ==> RowBefore(ord, x, y)
  {
    forall x | x in items ensures RowBefore(ord, x, y) {
      var i :| 0 <= i < |items| && items[i] == x;
      if i < |items| - 1 {
        RowBeforeTransitive(ord, x, items[|items| - 1], y);
      }
    }
  }

  lemma BeforeAll(ord: seq<OrderKey>, items: seq<Row>, y: Row)
    requires StrictlySorted(ord, items) && items != [] && RowBefore(ord, y, items[0])
    ensures forall x :: x in items ==> RowBefore(ord, y, x)
  {
    forall x | x in items ensures RowBefore(ord, y, x) {
      var i :| 0 <= i < |items| && items[i] == x;
      if i > 0 {
        RowBeforeTransitive(ord, y, items[0], x);
      }
    }
  }

  /** Pages never overlap or cross, however the data changes between two requests and whichever way the
      first page was reached: what its next cursor fetches lies wholly after it. */
  lemma NextLiesAfter(drv: Driver, ord: seq<OrderKey>, t1: set<Row>, l1: nat, cursor: Option<Cursor>, p: Page, t2: set<Row>, l2: nat, q: Page)
    requires Fits(t1, ord) && Fits(t2, ord) && CursorFits(cursor, ord) && p.items != []
    requires Exact(drv, t1) && Step(drv, ord, t1, l1, cursor, Ok(p)) && p.next.Some? && CursorFits(p.next, ord)
    requires Exact(drv, t2) && Step(drv, ord, t2, l2, p.next, Ok(q))
    ensures forall x, y :: x in p.items && y in q.items ==> RowBefore(ord, x, y)
  {
    ItemsAreSorted(drv, ord, t1, l1, cursor, p);
    ItemsAreSorted(drv, ord, t2, l2, p.next, q);
    var more := PageCursors(drv, ord, t1, l1, cursor, p);
    forall y | y in q.items ensures forall x :: x in p.items ==> RowBefore(ord, x, y) {
      AfterAll(ord, p.items, y);
    }
  }

  /** ... and what its previous cursor fetches lies wholly before it. */
  lemma PrevLiesBefore(drv: Driver, ord: seq<OrderKey>, t1: set<Row>, l1: nat, cursor: Option<Cursor>, p: Page, t2: set<Row>, l2: nat, q: Page)
    requires Fits(t1, ord) && Fits(t2, ord) && CursorFits(cursor, ord) && p.items != []
    requires Exact(drv, t1) && Step(drv, ord, t1, l1, cursor, Ok(p)) && p.prev.Some? && CursorFits(p.prev, ord)
    requires Exact(drv, t2) && Step(drv, ord, t2, l2, p.prev, Ok(q))
    ensures forall x, y :: x in p.items && y in q.items ==> RowBefore(ord, y, x)
  {
    ItemsAreSorted(drv, ord, t1, l1, cursor, p);
    ItemsAreSorted(drv, ord, t2, l2, p.prev, q);
    var more := PageCursors(drv, ord, t1, l1, cursor, p);
    forall y | y in q.items ensures forall x :: x in p.items ==> RowBefore(ord, y, x) {
      ReversedIsConverse(ord, p.items[0].keys, y.keys);
      BeforeAll(ord, p.items, y);
    }
  }

  /** A forward page is the first `limit` rows beyond the cursor, with a next cursor iff more follow. */
  lemma ForwardPage(drv: Driver, ord: seq<OrderKey>, table: set<Row>, s: seq<Row>, limit: nat, cursor: Cursor, m: nat, out: Outcome)
    requires Fits(table, ord) && CursorFits(Some(cursor), ord) && Listing(s, ord, table)
    requires cursor.direction.Forward? && SplitsAt(ord, s, cursor, m)
    requires Exact(drv, table) && Step(drv, ord, table, limit, Some(cursor), out) && out != Err(Unserializable)
    ensures out == Ok(PageOf(s[m..], limit, Some(cursor)))
    ensures out.value.items == Take(s[m..], limit)
    ensures out.value.items != [] ==> (out.value.next.Some? <==> |s| > m + limit)
  {
    var rows := set r | r in table && Beyond(ord, Some(cursor), r);
    SortedSlice(ord, s, m, |s|);
    assert s[m..|s|] == s[m..];
    forall r ensures r in s[m..] <==> r in rows {
      if r in rows {
        var i :| 0 <= i < |s| && s[i] == r;
        assert s[m..][i - m] == r;
      }
    }
    DeterminedPage(drv, ord, table, limit, Some(cursor), s[m..], out);
  }

  /** A backward page is precisely the last `limit` rows before the cursor, in canonical order, with
      a previous cursor iff an earlier row exists. */
  lemma BackwardPage(drv: Driver, ord: seq<OrderKey>, table: set<Row>, s: seq<Row>, limit: nat, cursor: Cursor, m: nat, out: Outcome)
    requires Fits(table, ord) && CursorFits(Some(cursor), ord) && Listing(s, ord, table)
    requires cursor.direction.Backward? && SplitsAt(ord, s, cursor, m)
    requires Exact(drv, table) && Step(drv, ord, table, limit, Some(cursor), out) && out != Err(Unserializable)
    ensures out == Ok(PageOf(Reverse(s[..m]), limit, Some(cursor)))
    ensures out.value.items == Final(s[..m], limit)
    ensures out.value.items != [] ==> (out.value.prev.Some? <==> m > limit)
  {
    var t := Reverse(s[..m]);
    ListingBefore(ord, table, s, cursor, m);
    DeterminedPage(drv, ord, table, limit, Some(cursor), t, out);
    BackwardItems(s[..m], limit, cursor);
  }

  lemma BackwardItems(front: seq<Row>, limit: nat, c: Cursor)
    requires c.direction.Backward?
    ensures var p := PageOf(Reverse(front), limit, Some(c));
            && p.items == Final(front, limit)
            && (p.items != [] ==> (p.prev.Some? <==> |front| > limit))
  {
    assert Reverse(Take(Reverse(front), limit)) == Final(front, limit);
  }

  lemma ReverseMembers(s: seq<Row>)
    ensures forall r :: r in Reverse(s) <==> r in s
  {
    forall i | 0 <= i < |s| ensures s[i] in Reverse(s) {
      assert Reverse(s)[|s| - 1 - i] == s[i];
    }
  }

  /** The rows beyond a backward cursor, in query order: the front of the listing, reversed. */
  lemma ListingBefore(ord: seq<OrderKey>, table: set<Row>, s: seq<Row>, cursor: Cursor, m: nat)
    requires Listing(s, ord, table) && cursor.direction.Backward? && SplitsAt(ord, s, cursor, m)
    ensures Listing(Reverse(s[..m]), ReversedOrdering(ord), set r | r in table && Beyond(ord, Some(cursor), r))
  {
    SortedSlice(ord, s, 0, m);
    assert s[0..m] == s[..m];
    ReverseIsSorted(ord, s[..m]);
    ReverseMembers(s[..m]);
    forall r ensures r in s[..m] <==> r in table && Beyond(ord, Some(cursor), r) {
      if r in s {
        var i :| 0 <= i < |s| && s[i] == r;
        assert i < m ==> s[..m][i] == r;
      }
    }
  }

  /** The cursor after row `i` splits behind it; the cursor ahead of row `i` splits before it. */
  lemma RowCursorSplits(ord: seq<OrderKey>, s: seq<Row>, i: nat)
    requires StrictlySorted(ord, s) && i < |s|
    requires forall r :: r in s ==> |r.keys| == |ord|
    ensures SplitsAt(ord, s, After(s[i]), i + 1)
    ensures SplitsAt(ord, s, Ahead(s[i]), i)
  {
    forall j | 0 <= j < |s|
      ensures RowBefore(ord, s[i], s[j]) <==> i < j
      ensures RowBefore(ReversedOrdering(ord), s[i], s[j]) <==> j < i
    {
      assert s[i] in s && s[j] in s;
      RowBeforeTotal(ord, s[i], s[j]);
      ReversedIsConverse(ord, s[i].keys, s[j].keys);
      assert i < j ==> RowBefore(ord, s[i], s[j]);
      assert j < i ==> RowBefore(ord, s[j], s[i]);
    }
    assert forall j :: 0 <= j < |s| ==> s[j] in s;
  }

  // ---- browsing

  datatype Move = Next | Prev

  function Follow(p: Page, m: Move): Option<Cursor> { if m.Next? then p.next else p.prev }

  /** Following a cursor that page `from` offers may serve page `p`. */
  ghost predicate Moves(drv: Driver, ord: seq<OrderKey>, table: set<Row>, limit: nat, from: Page, m: Move, p: Page)
    requires Fits(table, ord)
  {
    var c := Follow(from, m);
    c.Some? && CursorFits(c, ord) && Step(drv, ord, table, limit, c, Ok(p))
  }

  /** A browsing session on unchanging data with a fixed limit: the first page, then one page per move. */
  ghost predicate Session(drv: Driver, ord: seq<OrderKey>, table: set<Row>, limit: nat, moves: seq<Move>, pages: seq<Page>)
    requires Fits(table, ord)
  {
    && |pages| == |moves| + 1
    && Step(drv, ord, table, limit, None, Ok(pages[0]))
    && forall n :: 0 < n <= |moves| ==> MovesTo(drv, ord, table, limit, moves, pages, n)
  }

  ghost predicate MovesTo(drv: Driver, ord: seq<OrderKey>, table: set<Row>, limit: nat, moves: seq<Move>, pages: seq<Page>, n: nat)
    requires Fits(table, ord) && 0 < n <= |moves| && n < |pages|
  {
    Moves(drv, ord, table, limit, pages[n - 1], moves[n - 1], pages[n])
  }

  function Shift(m: Move): int { if m.Next? then 1 else -1 }

  /** How many blocks from the start the first `n` moves lead. */
  function Position(moves: seq<Move>, n: nat): int
    requires n <= |moves|
  {
    if n == 0 then 0 else Position(moves, n - 1) + Shift(moves[n - 1])
  }

  /** The page from offset `lo` of the listing, with a cursor on each side where rows remain. */
  function OffsetPage(s: seq<Row>, limit: nat, lo: nat): Page
    requires limit >= 1 && (lo == 0 || lo < |s|)
  {
    Page(Take(s[lo..], limit),
         if lo + limit < |s| then Some(After(s[lo + limit - 1])) else None,
         if lo > 0 then Some(Ahead(s[lo])) else None)
  }

  /** Where block `k` starts: `k` whole pages from the start. */
  function Offset(limit: nat, k: nat): (lo: nat)
    ensures k == 0 ==> lo == 0
    ensures k > 0 ==> lo >= limit
  {
    if k == 0 then 0 else Offset(limit, k - 1) + limit
  }

  lemma {:induction false} OffsetIsProduct(limit: nat, k: nat)
    ensures Offset(limit, k) == k * limit
  {
    if k > 0 {
      OffsetIsProduct(limit, k - 1);
    }
  }

  lemma FirstBlock(drv: Driver, ord: seq<OrderKey>, table: set<Row>, s: seq<Row>, limit: nat, out: Outcome)
    requires Fits(table, ord) && Listing(s, ord, table) && limit >= 1
    requires Exact(drv, table) && Step(drv, ord, table, limit, None, out) && out != Err(Unserializable)
    ensures out == Ok(OffsetPage(s, limit, 0))
  {
    assert (set r | r in table && Beyond(ord, None, r)) == table;
    DeterminedPage(drv, ord, table, limit, None, s, out);
    assert s[0..] == s;
  }

  lemma NextBlock(drv: Driver, ord: seq<OrderKey>, table: set<Row>, s: seq<Row>, limit: nat, i: nat, hi: nat, out: Outcome)
    requires Fits(table, ord) && Listing(s, ord, table) && limit >= 1 && hi < |s| && hi == i + 1
    requires |s[i].keys| == |ord|
    requires Exact(drv, table) && Step(drv, ord, table, limit, Some(After(s[i])), out) && out != Err(Unserializable)
    ensures out == Ok(OffsetPage(s, limit, hi))
  {
    var c := After(s[i]);
    RowCursorSplits(ord, s, i);
    ForwardPage(drv, ord, table, s, limit, c, hi, out);
    NextNeighbours(s, limit, hi, c);
  }

  lemma NextNeighbours(s: seq<Row>, limit: nat, lo: nat, c: Cursor)
    requires limit >= 1 && 0 < lo < |s| && c.direction.Forward? && c.boundary.Exclusive?
    ensures PageOf(s[lo..], limit, Some(c)) == OffsetPage(s, limit, lo)
  {
    if lo + limit < |s| {
      assert s[lo..][..limit][limit - 1] == s[lo + limit - 1];
    }
  }

  lemma PrevBlock(drv: Driver, ord: seq<OrderKey>, table: set<Row>, s: seq<Row>, limit: nat, lo: nat, out: Outcome)
    requires Fits(table, ord) && Listing(s, ord, table) && limit >= 1 && limit <= lo < |s|
    requires |s[lo].keys| == |ord|
    requires Exact(drv, table) && Step(drv, ord, table, limit, Some(Ahead(s[lo])), out) && out != Err(Unserializable)
    ensures out == Ok(OffsetPage(s, limit, lo - limit))
  {
    var c := Ahead(s[lo]);
    RowCursorSplits(ord, s, lo);
    BackwardPage(drv, ord, table, s, limit, c, lo, out);
    PrevNeighbours(s, limit, lo, c);
  }

  lemma PrevNeighbours(s: seq<Row>, limit: nat, lo: nat, c: Cursor)
    requires limit >= 1 && limit <= lo < |s| && c.direction.Backward? && c.boundary.Exclusive?
    ensures PageOf(Reverse(s[..lo]), limit, Some(c)) == OffsetPage(s, limit, lo - limit)
  {
    var items := Reverse(Take(Reverse(s[..lo]), limit));
    assert items == s[lo - limit..lo] == Take(s[lo - limit..], limit);
    assert items[limit - 1] == s[lo - 1] && items[0] == s[lo - limit];
  }

  lemma MoveNext(drv: Driver, ord: seq<OrderKey>, table: set<Row>, s: seq<Row>, limit: nat, lo: nat, hi: nat, from: Page, p: Page)
    requires Fits(table, ord) && Listing(s, ord, table) && limit >= 1 && (lo == 0 || lo < |s|) && hi == lo + limit
    requires Exact(drv, table) && from == OffsetPage(s, limit, lo) && Moves(drv, ord, table, limit, from, Next, p)
    ensures hi < |s| && p == OffsetPage(s, limit, hi)
  {
    assert hi < |s| && Follow(from, Next) == Some(After(s[hi - 1]));
    NextBlock(drv, ord, table, s, limit, hi - 1, hi, Ok(p));
  }

  lemma MovePrev(drv: Driver, ord: seq<OrderKey>, table: set<Row>, s: seq<Row>, limit: nat, lo: nat, hi: nat, from: Page, p: Page)
    requires Fits(table, ord) && Listing(s, ord, table) && limit >= 1 && (hi == 0 || hi < |s|)
    requires hi > 0 ==> hi == lo + limit
    requires Exact(drv, table) && from == OffsetPage(s, limit, hi) && Moves(drv, ord, table, limit, from, Prev, p)
    ensures 0 < hi && (lo == 0 || lo < |s|) && p == OffsetPage(s, limit, lo)
  {
    PrevBlock(drv, ord, table, s, limit, hi, Ok(p));
  }

  /** `p` is block `k` of the listing. */
  ghost predicate IsBlock(s: seq<Row>, limit: nat, k: int, p: Page)
    requires limit >= 1
  {
    k >= 0 && (k == 0 || Offset(limit, k) < |s|) && p == OffsetPage(s, limit, Offset(limit, k))
  }

  /** One move of a session, from block to block; `k` and `lo` are where the page before it stands. */
  lemma BlockStep(drv: Driver, ord: seq<OrderKey>, table: set<Row>, s: seq<Row>, limit: nat, from: Page, m: Move, p: Page, k: int, lo: nat) returns (k': int, lo': nat)
    requires Fits(table, ord) && Listing(s, ord, table) && limit >= 1
    requires k >= 0 && lo == Offset(limit, k) && (k == 0 || lo < |s|) && from == OffsetPage(s, limit, lo)
    requires Exact(drv, table) && Moves(drv, ord, table, limit, from, m, p)
    ensures k' == k + Shift(m) && k' >= 0 && lo' == Offset(limit, k') && (k' == 0 || lo' < |s|) && p == OffsetPage(s, limit, lo')
  {
    k' := k + Shift(m);
    if m.Next? {
      lo' := lo + limit;
      MoveNext(drv, ord, table, s, limit, lo, lo', from, p);
    } else {
      assert k > 0;
      lo' := Offset(limit, k - 1);
      MovePrev(drv, ord, table, s, limit, lo', lo, from, p);
    }
  }

  lemma {:induction false} SessionBlocks(drv: Driver, ord: seq<OrderKey>, table: set<Row>, s: seq<Row>, limit: nat, moves: seq<Move>, pages: seq<Page>, n: nat) returns (k: int, lo: nat)
    requires Fits(table, ord) && Listing(s, ord, table) && limit >= 1
    requires |pages| == |moves| + 1 && n <= |moves| && pages[0] == OffsetPage(s, limit, 0)
    requires Exact(drv, table) && forall i :: 0 < i <= |moves| ==> MovesTo(drv, ord, table, limit, moves, pages, i)
    ensures k == Position(moves, n) && k >= 0 && lo == Offset(limit, k) && (k == 0 || lo < |s|) && pages[n] == OffsetPage(s, limit, lo)
    decreases n
  {
    if n == 0 {
      k, lo := 0, 0;
    } else {
      var k0, lo0 := SessionBlocks(drv, ord, table, s, limit, moves, pages, n - 1);
      assert MovesTo(drv, ord, table, limit, moves, pages, n);
      k, lo := BlockStep(drv, ord, table, s, limit, pages[n - 1], moves[n - 1], pages[n], k0, lo0);
    }
  }

  /** After any mix of next and prev the page is an aligned block of the sorted table - the one the
      moves count to - with a cursor on exactly the sides that have a neighbouring block. */
  lemma BrowsingVisitsBlocks(drv: Driver, ord: seq<OrderKey>, table: set<Row>, s: seq<Row>, limit: nat, moves: seq<Move>, pages: seq<Page>, n: nat)
    requires Fits(table, ord) && Listing(s, ord, table) && limit >= 1
    requires Exact(drv, table) && Session(drv, ord, table, limit, moves, pages) && n <= |moves|
    ensures IsBlock(s, limit, Position(moves, n), pages[n])
  {
    FirstBlock(drv, ord, table, s, limit, Ok(pages[0]));
    var k, lo := SessionBlocks(drv, ord, table, s, limit, moves, pages, n);
  }

  /** Coming back to a position - next then prev, or any longer detour - returns the identical page,
      cursors included. */
  lemma ThereAndBack(drv: Driver, ord: seq<OrderKey>, table: set<Row>, s: seq<Row>, limit: nat, moves: seq<Move>, pages: seq<Page>, i: nat, j: nat)
    requires Fits(table, ord) && Listing(s, ord, table) && limit >= 1
    requires Exact(drv, table) && Session(drv, ord, table, limit, moves, pages) && i <= j <= |moves|
    requires Position(moves, i) == Position(moves, j)
    ensures pages[i] == pages[j]
  {
    BrowsingVisitsBlocks(drv, ord, table, s, limit, moves, pages, i);
    BrowsingVisitsBlocks(drv, ord, table, s, limit, moves, pages, j);
  }

  // ---- recovery from a page emptied by deletes

  /** The one-use cursor of a page found empty: inclusive, the other way, at the same tuple. */
  function RecoveryCursor(c: Cursor): Cursor {
    Cursor(if c.direction.Forward? then Backward else Forward, Inclusive, c.values)
  }

  /** A page without items offers a cursor only if its own was exclusive: one cursor, inclusive, in the
      other direction. So a second empty page in a row, whatever was deleted meanwhile, ends the walk. */
  lemma EmptyPage(drv: Driver, ord: seq<OrderKey>, table: set<Row>, limit: nat, cursor: Cursor, p: Page)
    requires Fits(table, ord) && CursorFits(Some(cursor), ord) && limit >= 1
    requires Exact(drv, table) && Step(drv, ord, table, limit, Some(cursor), Ok(p)) && p.items == []
    ensures forall r :: r in table ==> !Beyond(ord, Some(cursor), r)
    ensures cursor.boundary.Inclusive? ==> p.next.None? && p.prev.None?
    ensures cursor.boundary.Exclusive? && cursor.direction.Forward? ==>
              p.next.None? && p.prev == Some(RecoveryCursor(cursor))
    ensures cursor.boundary.Exclusive? && cursor.direction.Backward? ==>
              p.prev.None? && p.next == Some(RecoveryCursor(cursor))
  {
    PageLeavesNoGap(drv, ord, table, limit, Some(cursor), p);
    var more := PageCursors(drv, ord, table, limit, Some(cursor), p);
  }

  lemma TwoEmptyPagesEnd(drv: Driver, ord: seq<OrderKey>, t1: set<Row>, t2: set<Row>, l1: nat, l2: nat, cursor: Cursor, p1: Page, m: Move, p2: Page)
    requires Fits(t1, ord) && Fits(t2, ord) && CursorFits(Some(cursor), ord) && l1 >= 1 && l2 >= 1
    requires Exact(drv, t1) && Step(drv, ord, t1, l1, Some(cursor), Ok(p1)) && p1.items == []
    requires Follow(p1, m).Some? && CursorFits(Follow(p1, m), ord)
    requires Exact(drv, t2) && Step(drv, ord, t2, l2, Follow(p1, m), Ok(p2)) && p2.items == []
    ensures p2.next.None? && p2.prev.None?
  {
    EmptyPage(drv, ord, t1, l1, cursor, p1);
    EmptyPage(drv, ord, t2, l2, Follow(p1, m).value, p2);
  }

  /** No row beyond an exclusive cursor means that every row lies beyond its recovery cursor. */
  lemma RecoveryReachesAll(ord: seq<OrderKey>, cursor: Cursor, r: Row)
    requires |r.keys| == |ord| == |cursor.values| && cursor.boundary.Exclusive?
    requires !Beyond(ord, Some(cursor), r)
    ensures Beyond(ord, Some(RecoveryCursor(cursor)), r)
  {
    BeforeTrichotomy(ord, cursor.values, r.keys);
    ReversedIsConverse(ord, cursor.values, r.keys);
  }

  /** Every row of the listing lies beyond the recovery cursor of an empty page. */
  lemma RecoverySplits(drv: Driver, ord: seq<OrderKey>, table: set<Row>, s: seq<Row>, limit: nat, cursor: Cursor, p: Page)
    requires Fits(table, ord) && CursorFits(Some(cursor), ord) && Listing(s, ord, table) && limit >= 1
    requires Exact(drv, table) && cursor.boundary.Exclusive? && Step(drv, ord, table, limit, Some(cursor), Ok(p)) && p.items == []
    ensures SplitsAt(ord, s, RecoveryCursor(cursor), if cursor.direction.Forward? then |s| else 0)
  {
    EmptyPage(drv, ord, table, limit, cursor, p);
    forall i | 0 <= i < |s| ensures Beyond(ord, Some(RecoveryCursor(cursor)), s[i]) {
      assert s[i] in table;
      RecoveryReachesAll(ord, cursor, s[i]);
    }
  }

  /** A page reached by an inclusive cursor offers at most the cursor onward in its own direction. */
  lemma InclusiveNeighbours(t: seq<Row>, limit: nat, c: Cursor)
    requires c.boundary.Inclusive? && limit >= 1
    ensures var p := PageOf(t, limit, Some(c));
            if c.direction.Forward? then p.prev.None? && (p.next.Some? <==> |t| > limit)
            else p.next.None? && (p.prev.Some? <==> |t| > limit)
  {
    assert |PageOf(t, limit, Some(c)).items| == |Take(t, limit)|;
  }

  /** On unchanged data the recovery cursor of an empty forward page gives the last `limit` surviving
      rows, with no cursor back toward the empty side and an earlier page iff more rows survive. */
  lemma RecoveredForward(drv: Driver, ord: seq<OrderKey>, table: set<Row>, s: seq<Row>, limit: nat, cursor: Cursor, out: Outcome)
    requires Fits(table, ord) && CursorFits(Some(cursor), ord) && Listing(s, ord, table) && limit >= 1
    requires cursor.direction.Forward? && SplitsAt(ord, s, RecoveryCursor(cursor), |s|)
    requires Exact(drv, table) && Step(drv, ord, table, limit, Some(RecoveryCursor(cursor)), out) && out != Err(Unserializable)
    ensures out.Ok? && out.value.items == Final(s, limit) && out.value.next.None?
    ensures out.value.prev.Some? <==> |table| > limit
  {
    ListingSize(s, ord, table);
    assert s[..|s|] == s;
    BackwardPage(drv, ord, table, s, limit, RecoveryCursor(cursor), |s|, out);
    InclusiveNeighbours(Reverse(s), limit, RecoveryCursor(cursor));
  }

  /** Likewise an empty backward page recovers the first `limit` surviving rows. */
  lemma RecoveredBackward(drv: Driver, ord: seq<OrderKey>, table: set<Row>, s: seq<Row>, limit: nat, cursor: Cursor, out: Outcome)
    requires Fits(table, ord) && CursorFits(Some(cursor), ord) && Listing(s, ord, table) && limit >= 1
    requires cursor.direction.Backward? && SplitsAt(ord, s, RecoveryCursor(cursor), 0)
    requires Exact(drv, table) && Step(drv, ord, table, limit, Some(RecoveryCursor(cursor)), out) && out != Err(Unserializable)
    ensures out.Ok? && out.value.items == Take(s, limit) && out.value.prev.None?
    ensures out.value.next.Some? <==> |table| > limit
  {
    ListingSize(s, ord, table);
    assert s[0..] == s;
    ForwardPage(drv, ord, table, s, limit, RecoveryCursor(cursor), 0, out);
    InclusiveNeighbours(s, limit, RecoveryCursor(cursor));
  }

  /** A page found empty through an exclusive cursor recovers: its one cursor, on unchanged data, gives
      the adjacent surviving page - the last rows going forward, the first going backward. */
  lemma RecoveredPage(drv: Driver, ord: seq<OrderKey>, table: set<Row>, s: seq<Row>, l1: nat, l2: nat, cursor: Cursor, p: Page, out: Outcome)
    requires Fits(table, ord) && CursorFits(Some(cursor), ord) && Listing(s, ord, table) && l1 >= 1 && l2 >= 1
    requires Exact(drv, table) && cursor.boundary.Exclusive? && Step(drv, ord, table, l1, Some(cursor), Ok(p)) && p.items == []
    requires Exact(drv, table) && Step(drv, ord, table, l2, Some(RecoveryCursor(cursor)), out) && out != Err(Unserializable)
    ensures out.Ok? && out.value.items == if cursor.direction.Forward? then Final(s, l2) else Take(s, l2)
    ensures cursor.direction.Forward? ==> out.value.next.None? && (out.value.prev.Some? <==> |table| > l2)
    ensures cursor.direction.Backward? ==> out.value.prev.None? && (out.value.next.Some? <==> |table| > l2)
  {
    RecoverySplits(drv, ord, table, s, l1, cursor, p);
    if cursor.direction.Forward? {
      RecoveredForward(drv, ord, table, s, l2, cursor, out);
    } else {
      RecoveredBackward(drv, ord, table, s, l2, cursor, out);
    }
  }

  /** From the recovery cursor a walk that completes returns every row that survived throughout. */
  lemma RecoveredWalkMissesNothing(drv: Driver, ord: seq<OrderKey>, table: set<Row>, limit: nat, cursor: Cursor, p: Page, visits: seq<Visit>, r: Row)
    requires Fits(table, ord) && CursorFits(Some(cursor), ord) && limit >= 1 && cursor.boundary.Exclusive?
    requires Exact(drv, table) && Step(drv, ord, table, limit, Some(cursor), Ok(p)) && p.items == []
    requires Walk(drv, ord, RecoveryCursor(cursor).direction, Some(RecoveryCursor(cursor)), visits)
    requires Complete(RecoveryCursor(cursor).direction, visits) && ExactVisits(drv, visits)
    requires r in table && PresentThroughout(r, visits)
    ensures r in Collected(RecoveryCursor(cursor).direction, visits)
  {
    EmptyPage(drv, ord, table, limit, cursor, p);
    RecoveryReachesAll(ord, cursor, r);
    CompleteWalkMissesNothing(drv, ord, RecoveryCursor(cursor).direction, Some(RecoveryCursor(cursor)), visits, r);
  }
}
