/**
 The query behind one page: filter by the seek predicate, order by the keys, take `limit + 1` rows.
 */
module PageQuery {
  import opened Common
  import opened Ordering
  import opened SeekPredicate

  /** A result row: its item and the values of the ordering expressions on it. */
  datatype Row = Row(id: int, keys: Tuple)

  datatype Direction = Forward | Backward

  /** A decoded continuation token. */
  datatype Cursor = Cursor(direction: Direction, boundary: Boundary, values: Tuple)

  /** Every row has one value per order key. */
  ghost predicate Fits(table: set<Row>, ord: seq<OrderKey>) {
    forall r :: r in table ==> |r.keys| == |ord|
  }

  ghost predicate CursorFits(cursor: Option<Cursor>, ord: seq<OrderKey>) {
    cursor.Some? ==> |cursor.value.values| == |ord|
  }

  predicate RowBefore(ord: seq<OrderKey>, r: Row, s: Row) {
    |ord| == |r.keys| == |s.keys| && Before(ord, r.keys, s.keys)
  }

  function QueryOrdering(ord: seq<OrderKey>, d: Direction): (q: seq<OrderKey>)
    ensures |q| == |ord|
  {
    if d.Forward? then ord else ReversedOrdering(ord)
  }

  function CursorDirection(cursor: Option<Cursor>): Direction {
    if cursor.Some? then cursor.value.direction else Forward
  }

  /** WHERE keeps a row only when the predicate is True. */
  predicate Kept(where: Option<Expr>, r: Row)
    requires where.Some? ==> WellFormed(where.value, |r.keys|)
  {
    where.None? || Eval(where.value, r.keys).True?
  }

  /** The rows the query of a request selects. */
  ghost function Selected(ord: seq<OrderKey>, table: set<Row>, cursor: Option<Cursor>): set<Row>
    requires Fits(table, ord) && CursorFits(cursor, ord)
  {
    if cursor.None? then table
    else
      var where := SeekExpr(QueryOrdering(ord, cursor.value.direction), cursor.value.values, cursor.value.boundary);
      set r | r in table && Kept(Some(where), r)
  }

  /** `w` is an answer to ORDER BY `q` LIMIT `n` over `rows`; the order of tied rows is free. */
  ghost predicate IsTop(q: seq<OrderKey>, rows: set<Row>, n: nat, w: seq<Row>) {
    && (forall i, j :: 0 <= i < j < |w| ==> w[i] != w[j])
    && (forall i :: 0 <= i < |w| ==> w[i] in rows)
    && (forall i, j :: 0 <= i < j < |w| ==> !RowBefore(q, w[j], w[i]))
    && |w| == (if n <= |rows| then n else |rows|)
    && (forall r, i :: r in rows && r !in w && 0 <= i < |w| ==> !RowBefore(q, r, w[i]))
  }

  lemma RowBeforeTotal(ord: seq<OrderKey>, r: Row, s: Row)
    requires |ord| == |r.keys| == |s.keys|
    ensures RowBefore(ord, r, s) || r.keys == s.keys || RowBefore(ord, s, r)
    ensures !(RowBefore(ord, r, s) && RowBefore(ord, s, r))
    ensures r.keys == s.keys ==> !RowBefore(ord, r, s)
  {
    BeforeTrichotomy(ord, r.keys, s.keys);
  }

  lemma RowBeforeTransitive(ord: seq<OrderKey>, r: Row, s: Row, t: Row)
    requires RowBefore(ord, r, s) && RowBefore(ord, s, t)
    ensures RowBefore(ord, r, t)
  {
    BeforeTransitive(ord, r.keys, s.keys, t.keys);
  }

  /** Not-after composes: r <= s and s <= t give r <= t. */
  lemma NotAfterTransitive(ord: seq<OrderKey>, r: Row, s: Row, t: Row)
    requires |ord| == |r.keys| == |s.keys| == |t.keys|
    requires !RowBefore(ord, s, r) && !RowBefore(ord, t, s)
    ensures !RowBefore(ord, t, r)
  {
    RowBeforeTotal(ord, r, s);
    RowBeforeTotal(ord, s, t);
    if RowBefore(ord, t, r) {
      if RowBefore(ord, r, s) {
        RowBeforeTransitive(ord, t, r, s);
      }
    }
  }

  method PickFirst(q: seq<OrderKey>, rows: set<Row>) returns (first: Row)
    requires Fits(rows, q) && rows != {}
    ensures first in rows
    ensures forall r :: r in rows ==> !RowBefore(q, r, first)
  {
    first :| first in rows;
    RowBeforeTotal(q, first, first);
    var rest := rows - {first};
    while rest != {}
      invariant rest <= rows && first in rows
      invariant forall r :: r in rows - rest ==> !RowBefore(q, r, first)
      decreases rest
    {
      var r :| r in rest;
      ghost var old' := first;
      if RowBefore(q, r, first) {
        forall x | x in rows - rest ensures !RowBefore(q, x, r) {
          RowBeforeTotal(q, r, old');
          NotAfterTransitive(q, r, old', x);
        }
        RowBeforeTotal(q, r, r);
        first := r;
      }
      rest := rest - {r};
    }
  }

  lemma FirstExists(q: seq<OrderKey>, rows: set<Row>) returns (first: Row)
    requires Fits(rows, q) && rows != {}
    ensures first in rows && forall r :: r in rows ==> !RowBefore(q, r, first)
    decreases rows
  {
    var x :| x in rows;
    RowBeforeTotal(q, x, x);
    first := x;
    if rows != {x} {
      var y := FirstExists(q, rows - {x});
      RowBeforeTotal(q, x, y);
      if !RowBefore(q, x, y) {
        first := y;
      } else {
        forall r | r in rows - {x} ensures !RowBefore(q, r, x) {
          NotAfterTransitive(q, x, y, r);
        }
      }
    }
  }

  /** Every query has an answer, so every request has an outcome. */
  lemma {:induction false} TopExists(q: seq<OrderKey>, rows: set<Row>, n: nat) returns (w: seq<Row>)
    requires Fits(rows, q)
    ensures IsTop(q, rows, n, w)
    decreases n
  {
    w := [];
    if n > 0 && rows != {} {
      var first := FirstExists(q, rows);
      var rest := TopExists(q, rows - {first}, n - 1);
      assert forall i :: 0 <= i < |rest| ==> rest[i] in rows - {first};
      w := [first] + rest;
      RowBeforeTotal(q, first, first);
    }
  }

  /** A database that answers the query. */
  method ExecuteQuery(q: seq<OrderKey>, table: set<Row>, where: Option<Expr>, n: nat) returns (w: seq<Row>)
    requires Fits(table, q)
    requires where.Some? ==> WellFormed(where.value, |q|)
    ensures IsTop(q, (set r | r in table && Kept(where, r)), n, w)
  {
    var rows := set r | r in table && Kept(where, r);
    var rest := rows;
    w := [];
    while |w| < n && rest != {}
      invariant rest <= rows && |w| <= n
      invariant forall r :: r in w <==> r in rows - rest
      invariant |w| + |rest| == |rows|
      invariant forall i, j :: 0 <= i < j < |w| ==> w[i] != w[j]
      invariant forall i, j :: 0 <= i < j < |w| ==> !RowBefore(q, w[j], w[i])
      invariant forall r, i :: r in rest && 0 <= i < |w| ==> !RowBefore(q, r, w[i])
      decreases rest
    {
      var first := PickFirst(q, rest);
      assert forall i :: 0 <= i < |w| ==> w[i] in w && w[i] !in rest;
      w := w + [first];
      rest := rest - {first};
    }
    assert forall i :: 0 <= i < |w| ==> w[i] in w;
  }
}
