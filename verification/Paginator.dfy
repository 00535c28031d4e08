/**
 One pagination request on decoded cursors: run the query, reject tied rows, build the page and the
 cursors of its neighbours. `Step` is the request as the code makes it, through Python values and JSON;
 `IdealStep` is the request on the database's own key values. `Exact` is what makes the two the same.
 */
module Paginator {
  import opened Common
  import opened Ordering
  import opened SeekPredicate
  import opened PageQuery

  const LIMIT_MIN := 1
  const LIMIT_CURSOR_MAX := 200

  datatype Page = Page(items: seq<Row>, next: Option<Cursor>, prev: Option<Cursor>)

  datatype ConfigurationError = LimitOutOfBounds | NoOrdering | OrderingNotUnique | Unserializable

  type Outcome = Result<Page, ConfigurationError>

  /** What fetching, serialising and reading back make of the key values of a row: whether the test
      for tied neighbours fires on two rows, which tuple a cursor made from a row is bound to when it
      comes back, and whether the row's key values can be serialised at all. */
  datatype Driver = Driver(tie: (Row, Row) -> bool, mark: Row -> Tuple, writes: Row -> bool)

  ghost predicate TiedWithNext(w: seq<Row>, i: int) {
    0 <= i < |w| - 1 && w[i].keys == w[i + 1].keys
  }

  ghost predicate AdjacentTie(w: seq<Row>) {
    exists i :: TiedWithNext(w, i)
  }

  ghost predicate FiresOnNext(drv: Driver, w: seq<Row>, i: int) {
    0 <= i < |w| - 1 && drv.tie(w[i], w[i + 1])
  }

  ghost predicate TestFires(drv: Driver, w: seq<Row>) {
    exists i :: FiresOnNext(drv, w, i)
  }

  function Reverse<T>(s: seq<T>): (r: seq<T>)
    ensures |r| == |s|
    ensures forall i :: 0 <= i < |s| ==> r[i] == s[|s| - 1 - i]
  {
    seq(|s|, i requires 0 <= i < |s| => s[|s| - 1 - i])
  }

  /** Rows fetched in query order, shown in canonical order. */
  function Canonical(d: Direction, rows: seq<Row>): (r: seq<Row>)
    ensures |r| == |rows|
  {
    if d.Forward? then rows else Reverse(rows)
  }

  function After(row: Row): Cursor { Cursor(Forward, Exclusive, row.keys) }

  function Ahead(row: Row): Cursor { Cursor(Backward, Exclusive, row.keys) }

  /** The cursors of a page, from the request's cursor and whether a `limit + 1`st row came back. */
  function Neighbours(items: seq<Row>, hasMore: bool, cursor: Option<Cursor>): (Option<Cursor>, Option<Cursor>) {
    if items != [] then
      var last, first := After(items[|items| - 1]), Ahead(items[0]);
      var cameFrom := cursor.Some? && cursor.value.boundary.Exclusive?;
      if CursorDirection(cursor).Forward? then
        (if hasMore then Some(last) else None, if cameFrom then Some(first) else None)
      else
        (if cameFrom then Some(last) else None, if hasMore then Some(first) else None)
    else if cursor.Some? && cursor.value.boundary.Exclusive? then
      if cursor.value.direction.Forward? then
        (None, Some(Cursor(Backward, Inclusive, cursor.value.values)))
      else
        (Some(Cursor(Forward, Inclusive, cursor.value.values)), None)
    else
      (None, None)
  }

  /** Rows as the cursors made from them read back. */
  function Marked(drv: Driver, rows: seq<Row>): (r: seq<Row>)
    ensures |r| == |rows|
  {
    seq(|rows|, i requires 0 <= i < |rows| => Row(rows[i].id, drv.mark(rows[i])))
  }

  function Take<T>(s: seq<T>, n: nat): seq<T> { if n <= |s| then s[..n] else s }

  /** The page a window of at most `limit + 1` fetched rows gives. */
  ghost function Assemble(drv: Driver, w: seq<Row>, limit: nat, cursor: Option<Cursor>): Outcome {
    if exists r :: r in w && !drv.writes(r) then Err(Unserializable)
    else if TestFires(drv, w) then Err(OrderingNotUnique)
    else
      var items := Canonical(CursorDirection(cursor), Take(w, limit));
      var cursors := Neighbours(Marked(drv, items), |w| > limit, cursor);
      Ok(Page(items, cursors.0, cursors.1))
  }

  /** The page it should give, told from the key values in the database. */
  ghost function AssembleIdeal(w: seq<Row>, limit: nat, cursor: Option<Cursor>): Outcome {
    if AdjacentTie(w) then Err(OrderingNotUnique)
    else
      var items := Canonical(CursorDirection(cursor), Take(w, limit));
      var cursors := Neighbours(items, |w| > limit, cursor);
      Ok(Page(items, cursors.0, cursors.1))
  }

  /** `w` is a window some database may return for the request. */
  ghost predicate IsWindow(ord: seq<OrderKey>, table: set<Row>, limit: nat, cursor: Option<Cursor>, w: seq<Row>)
    requires Fits(table, ord) && CursorFits(cursor, ord)
  {
    IsTop(QueryOrdering(ord, CursorDirection(cursor)), Selected(ord, table, cursor), limit + 1, w)
  }

  /** Always true. A proof that mentions it looks inside `Step`; all others see a relation and are
      spared the windows behind it. */
  predicate LookInside(u: bool) { true }

  /** The request may end in `out`: the step relation every run below is made of. */
  ghost predicate Step(drv: Driver, ord: seq<OrderKey>, table: set<Row>, limit: nat, cursor: Option<Cursor>, out: Outcome)
    requires Fits(table, ord) && CursorFits(cursor, ord)
  {
    forall u: bool {:trigger LookInside(u)} :: LookInside(u) ==> exists w :: IsWindow(ord, table, limit, cursor, w) && out == Assemble(drv, w, limit, cursor)
  }


  ghost predicate IdealStep(ord: seq<OrderKey>, table: set<Row>, limit: nat, cursor: Option<Cursor>, out: Outcome)
    requires Fits(table, ord) && CursorFits(cursor, ord)
  {
    exists w :: IsWindow(ord, table, limit, cursor, w) && out == AssembleIdeal(w, limit, cursor)
  }

  /** Among the rows of a table the test fires on tied rows and on no others, and every cursor reads
      back as the key values it was made from. */
  ghost predicate Exact(drv: Driver, table: set<Row>) {
    && (forall r, s {:trigger drv.tie(r, s)} :: r in table && s in table && r != s ==> (drv.tie(r, s) <==> r.keys == s.keys))
    && (forall r {:trigger drv.mark(r)} :: r in table ==> drv.mark(r) == r.keys)
  }

  lemma AssembleAgrees(drv: Driver, table: set<Row>, w: seq<Row>, limit: nat, cursor: Option<Cursor>)
    requires Exact(drv, table)
    requires forall i :: 0 <= i < |w| ==> w[i] in table
    requires forall i, j :: 0 <= i < j < |w| ==> w[i] != w[j]
    requires forall r :: r in w ==> drv.writes(r)
    ensures Assemble(drv, w, limit, cursor) == AssembleIdeal(w, limit, cursor)
  {
    forall i ensures FiresOnNext(drv, w, i) <==> TiedWithNext(w, i) {
      assert 0 <= i < |w| - 1 ==> w[i] in table && w[i + 1] in table && w[i] != w[i + 1];
    }
    assert TestFires(drv, w) <==> AdjacentTie(w);
    var items := Canonical(CursorDirection(cursor), Take(w, limit));
    assert forall i :: 0 <= i < |items| ==> items[i] in table;
    assert Marked(drv, items) == items;
  }

  lemma WindowOfTable(ord: seq<OrderKey>, table: set<Row>, limit: nat, cursor: Option<Cursor>, w: seq<Row>)
    requires Fits(table, ord) && CursorFits(cursor, ord) && IsWindow(ord, table, limit, cursor, w)
    ensures forall i :: 0 <= i < |w| ==> w[i] in table
    ensures forall i, j :: 0 <= i < j < |w| ==> w[i] != w[j]
  {
  }

  /** On a table where the driver is exact, the code's request is the ideal one, unless it stops at a
      key value that cannot be serialised. */
  lemma StepIsIdeal(drv: Driver, ord: seq<OrderKey>, table: set<Row>, limit: nat, cursor: Option<Cursor>, out: Outcome)
    requires Fits(table, ord) && CursorFits(cursor, ord) && Exact(drv, table)
    requires Step(drv, ord, table, limit, cursor, out) && out != Err(Unserializable)
    ensures IdealStep(ord, table, limit, cursor, out)
  {
    assert LookInside(true);
    var w: seq<Row> :| IsWindow(ord, table, limit, cursor, w) && out == Assemble(drv, w, limit, cursor);
    WindowOfTable(ord, table, limit, cursor, w);
    AssembleAgrees(drv, table, w, limit, cursor);
  }

  /** Where every row can be serialised, the two requests have the same outcomes. */
  lemma StepAgrees(drv: Driver, ord: seq<OrderKey>, table: set<Row>, limit: nat, cursor: Option<Cursor>, out: Outcome)
    requires Fits(table, ord) && CursorFits(cursor, ord) && Exact(drv, table)
    requires forall r :: r in table ==> drv.writes(r)
    ensures Step(drv, ord, table, limit, cursor, out) <==> IdealStep(ord, table, limit, cursor, out)
  {
    assert LookInside(true);
    forall w: seq<Row> | IsWindow(ord, table, limit, cursor, w)
      ensures Assemble(drv, w, limit, cursor) == AssembleIdeal(w, limit, cursor)
    {
      WindowOfTable(ord, table, limit, cursor, w);
      AssembleAgrees(drv, table, w, limit, cursor);
    }
  }

  /** The cursors of a page, told case by case: a next cursor after the last row and a previous one
      before the first, on the side of the walk if rows remain and on the other if the request came with
      an exclusive cursor; and for an empty page only the way back, at the request's own values. */
  ghost predicate CursorsInFull(drv: Driver, more: bool, cursor: Option<Cursor>, p: Page) {
    var came := cursor.Some? && cursor.value.boundary == Exclusive;
    var backward := cursor.Some? && cursor.value.direction == Backward;
    if p.items != [] then
      && p.next == (if (if backward then came else more) then Some(Cursor(Forward, Exclusive, drv.mark(p.items[|p.items| - 1]))) else None)
      && p.prev == (if (if backward then more else came) then Some(Cursor(Backward, Exclusive, drv.mark(p.items[0]))) else None)
    else
      && p.next == (if backward && came then Some(Cursor(Forward, Inclusive, cursor.value.values)) else None)
      && p.prev == (if !backward && came then Some(Cursor(Backward, Inclusive, cursor.value.values)) else None)
  }

  lemma AssembledCursors(drv: Driver, w: seq<Row>, limit: nat, cursor: Option<Cursor>, p: Page)
    requires Assemble(drv, w, limit, cursor) == Ok(p)
    ensures CursorsInFull(drv, |w| > limit, cursor, p)
  {
    var marked := Marked(drv, p.items);
    if p.items != [] {
      assert marked[0].keys == drv.mark(p.items[0]);
      assert marked[|p.items| - 1].keys == drv.mark(p.items[|p.items| - 1]);
    }
  }

  lemma AssembledRows(drv: Driver, w: seq<Row>, limit: nat, cursor: Option<Cursor>, p: Page)
    requires Assemble(drv, w, limit, cursor) == Ok(p)
    ensures |p.items| == if |w| > limit then limit else |w|
    ensures forall i :: 0 <= i < |p.items| ==>
              p.items[i] == w[if cursor.Some? && cursor.value.direction == Backward then |p.items| - 1 - i else i]
    ensures forall r :: r in w ==> drv.writes(r)
    ensures forall i :: 0 <= i < |w| - 1 ==> !drv.tie(w[i], w[i + 1])
  {
    forall i | 0 <= i < |w| - 1 ensures !drv.tie(w[i], w[i + 1]) {
      assert !FiresOnNext(drv, w, i);
    }
  }

  /** A served page in full: a window in which every row can be serialised and the test fires on no two
      neighbours; its first rows, in canonical order; and the cursors they give. */
  lemma PageInFull(drv: Driver, ord: seq<OrderKey>, table: set<Row>, limit: nat, cursor: Option<Cursor>, p: Page) returns (w: seq<Row>)
    requires Fits(table, ord) && CursorFits(cursor, ord) && Step(drv, ord, table, limit, cursor, Ok(p))
    ensures IsWindow(ord, table, limit, cursor, w)
    ensures |p.items| == if |w| > limit then limit else |w|
    ensures forall i :: 0 <= i < |p.items| ==>
              p.items[i] == w[if cursor.Some? && cursor.value.direction == Backward then |p.items| - 1 - i else i]
    ensures forall r :: r in w ==> drv.writes(r)
    ensures forall i :: 0 <= i < |w| - 1 ==> !drv.tie(w[i], w[i + 1])
    ensures CursorsInFull(drv, |w| > limit, cursor, p)
  {
    assert LookInside(true);
    w :| IsWindow(ord, table, limit, cursor, w) && Ok(p) == Assemble(drv, w, limit, cursor);
    AssembledCursors(drv, w, limit, cursor, p);
    AssembledRows(drv, w, limit, cursor, p);
  }

  lemma AssembledError(drv: Driver, w: seq<Row>, limit: nat, cursor: Option<Cursor>, e: ConfigurationError)
    requires Assemble(drv, w, limit, cursor) == Err(e)
    ensures e == Unserializable || e == OrderingNotUnique
    ensures e == Unserializable <==> exists r :: r in w && !drv.writes(r)
    ensures e == OrderingNotUnique ==> exists i :: FiresOnNext(drv, w, i)
  {
  }

  /** A failed request in full: a row of the window that cannot be serialised, or else two neighbours on
      which the test fires. */
  lemma ErrorInFull(drv: Driver, ord: seq<OrderKey>, table: set<Row>, limit: nat, cursor: Option<Cursor>, e: ConfigurationError) returns (w: seq<Row>, i: int)
    requires Fits(table, ord) && CursorFits(cursor, ord) && Step(drv, ord, table, limit, cursor, Err(e))
    ensures IsWindow(ord, table, limit, cursor, w)
    ensures e == Unserializable || e == OrderingNotUnique
    ensures e == Unserializable <==> exists r :: r in w && !drv.writes(r)
    ensures e == OrderingNotUnique ==> 0 <= i < |w| - 1 && drv.tie(w[i], w[i + 1])
  {
    assert LookInside(true);
    w :| IsWindow(ord, table, limit, cursor, w) && Err(e) == Assemble(drv, w, limit, cursor);
    AssembledError(drv, w, limit, cursor, e);
    i := 0;
    if e == OrderingNotUnique {
      i :| FiresOnNext(drv, w, i);
    }
  }

  method HasAdjacentTie(drv: Driver, w: seq<Row>) returns (b: bool)
    ensures b <==> TestFires(drv, w)
  {
    var i := 1;
    while i < |w|
      invariant 1 <= i
      invariant forall j :: FiresOnNext(drv, w, j) ==> j >= i - 1
    {
      if drv.tie(w[i - 1], w[i]) {
        assert FiresOnNext(drv, w, i - 1);
        return true;
      }
      i := i + 1;
    }
    return false;
  }

  method AllSerializable(drv: Driver, w: seq<Row>) returns (b: bool)
    ensures b <==> forall r :: r in w ==> drv.writes(r)
  {
    for i := 0 to |w|
      invariant forall j :: 0 <= j < i ==> drv.writes(w[j])
    {
      if !drv.writes(w[i]) {
        return false;
      }
    }
    return true;
  }

  /** `list.reverse()`. */
  method ReverseInPlace(a: array<Row>)
    modifies a
    ensures a[..] == Reverse(old(a[..]))
  {
    var lo, hi := 0, a.Length;
    while hi - lo > 1
      invariant 0 <= lo <= hi <= a.Length && lo == a.Length - hi
      invariant forall k :: lo <= k < hi ==> a[k] == old(a[k])
      invariant forall k :: (0 <= k < lo || hi <= k < a.Length) ==> a[k] == old(a[a.Length - 1 - k])
    {
      hi := hi - 1;
      a[lo], a[hi] := a[hi], a[lo];
      lo := lo + 1;
    }
  }

  method PageRows(d: Direction, kept: seq<Row>) returns (items: seq<Row>)
    ensures items == Canonical(d, kept)
  {
    var rows := new Row[|kept|](i requires 0 <= i < |kept| => kept[i]);
    assert rows[..] == kept;
    if d.Backward? {
      ReverseInPlace(rows);
    }
    items := rows[..];
  }

  method Paginate(drv: Driver, ord: seq<OrderKey>, table: set<Row>, limit: int, cursor: Option<Cursor>) returns (out: Outcome)
    requires Fits(table, ord) && CursorFits(cursor, ord)
    ensures out == Err(LimitOutOfBounds) <==> !(1 <= limit <= 200)
    ensures out == Err(NoOrdering) <==> 1 <= limit <= 200 && ord == []
    ensures 1 <= limit <= 200 && ord != [] ==> Step(drv, ord, table, limit, cursor, out)
  {
    if !(LIMIT_MIN <= limit <= LIMIT_CURSOR_MAX) {
      return Err(LimitOutOfBounds);
    }
    if ord == [] {
      return Err(NoOrdering);
    }
    var d := CursorDirection(cursor);
    var q := QueryOrdering(ord, d);
    var where: Option<Expr> := None;
    if cursor.Some? {
      var e := BuildSeekPredicate(q, cursor.value.values, cursor.value.boundary);
      where := Some(e);
    }
    var w := ExecuteQuery(q, table, where, limit + 1);
    assert (set r | r in table && Kept(where, r)) == Selected(ord, table, cursor);
    var serializable := AllSerializable(drv, w);
    var tie := HasAdjacentTie(drv, w);
    if !serializable {
      out := Err(Unserializable);
    } else if tie {
      out := Err(OrderingNotUnique);
    } else {
      var items := PageRows(d, Take(w, limit));
      var cursors := Neighbours(Marked(drv, items), |w| > limit, cursor);
      out := Ok(Page(items, cursors.0, cursors.1));
    }
    assert IsWindow(ord, table, limit, cursor, w) && out == Assemble(drv, w, limit, cursor);
  }
}
