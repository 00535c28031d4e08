/**
 The SQL predicate that resumes a query after a cursor tuple, evaluated in SQL's three-valued logic.
 */
module SeekPredicate {
  import opened Ordering

  datatype Truth = True | False | Unknown

  datatype Boundary = Exclusive | Inclusive

  /** SQL boolean expressions over the order-key columns of one row. */
  datatype Expr =
    | Never
    | IsNull(col: nat)
    | IsNotNull(col: nat)
    | Greater(col: nat, bound: real)
    | Less(col: nat, bound: real)
    | NotDistinctFrom(col: nat, other: Cell)
    | All(conjuncts: seq<Expr>)
    | Any(disjuncts: seq<Expr>)

  predicate WellFormed(e: Expr, width: nat) {
    match e
    case Never => true
    case IsNull(c) => c < width
    case IsNotNull(c) => c < width
    case Greater(c, _) => c < width
    case Less(c, _) => c < width
    case NotDistinctFrom(c, _) => c < width
    case All(es) => forall x :: x in es ==> WellFormed(x, width)
    case Any(es) => forall x :: x in es ==> WellFormed(x, width)
  }

  function OfBool(b: bool): Truth { if b then True else False }

  function And3(a: Truth, b: Truth): Truth {
    if a.False? || b.False? then False else if a.True? && b.True? then True else Unknown
  }

  function Or3(a: Truth, b: Truth): Truth {
    if a.True? || b.True? then True else if a.False? && b.False? then False else Unknown
  }

  /** SQL's truth tables: False decides AND, True decides OR, and Unknown stays where neither does. */
  lemma TruthTables(a: Truth)
    ensures And3(True, a) == a == And3(a, True) && Or3(False, a) == a == Or3(a, False)
    ensures And3(False, a) == False == And3(a, False) && Or3(True, a) == True == Or3(a, True)
    ensures And3(Unknown, Unknown) == Unknown == Or3(Unknown, Unknown)
  {
  }

  /** Comparison with a null operand is Unknown; IS [NOT] NULL and IS NOT DISTINCT FROM never are. */
  function Eval(e: Expr, row: Tuple): Truth
    requires WellFormed(e, |row|)
    decreases e, 0
  {
    match e
    case Never => False
    case IsNull(c) => OfBool(row[c].Null?)
    case IsNotNull(c) => OfBool(row[c].Val?)
    case Greater(c, b) => if row[c].Null? then Unknown else OfBool(row[c].v > b)
    case Less(c, b) => if row[c].Null? then Unknown else OfBool(row[c].v < b)
    case NotDistinctFrom(c, x) => OfBool(row[c] == x)
    case All(es) => EvalAll(es, row)
    case Any(es) => EvalAny(es, row)
  }

  function EvalAll(es: seq<Expr>, row: Tuple): Truth
    requires forall x :: x in es ==> WellFormed(x, |row|)
    decreases es, 1
  {
    if es == [] then True else And3(Eval(es[0], row), EvalAll(es[1..], row))
  }

  function EvalAny(es: seq<Expr>, row: Tuple): Truth
    requires forall x :: x in es ==> WellFormed(x, |row|)
    decreases es, 1
  {
    if es == [] then False else Or3(Eval(es[0], row), EvalAny(es[1..], row))
  }

  /** The strict comparison after one cursor value, as a SQL expression on column `col`. */
  function StrictlyAfter(k: OrderKey, col: nat, value: Cell): Expr {
    match value
    case Null => if k.nulls.First? then IsNotNull(col) else Never
    case Val(b) =>
      var comparison := if k.direction.Asc? then Greater(col, b) else Less(col, b);
      if k.nulls.Last? then Any([comparison, IsNull(col)]) else comparison
  }

  function EqualPrefix(values: Tuple, n: nat): (es: seq<Expr>)
    requires n <= |values|
    ensures |es| == n
    ensures forall x :: x in es ==> WellFormed(x, |values|)
  {
    seq(n, i requires 0 <= i < n => NotDistinctFrom(i, values[i]))
  }

  function Branch(ord: seq<OrderKey>, values: Tuple, i: nat): (e: Expr)
    requires i < |ord| == |values|
    ensures WellFormed(e, |values|)
  {
    All(EqualPrefix(values, i) + [StrictlyAfter(ord[i], i, values[i])])
  }

  /** The predicate as a value; `BuildSeekPredicate` constructs it branch by branch. */
  function SeekExpr(ord: seq<OrderKey>, values: Tuple, boundary: Boundary): (e: Expr)
    requires |ord| == |values|
    ensures WellFormed(e, |values|)
  {
    Any(seq(|ord|, i requires 0 <= i < |ord| => Branch(ord, values, i)) +
        if boundary.Inclusive? then [All(EqualPrefix(values, |values|))] else [])
  }

  method BuildSeekPredicate(ord: seq<OrderKey>, values: Tuple, boundary: Boundary) returns (e: Expr)
    requires |ord| == |values|
    ensures e == SeekExpr(ord, values, boundary)
  {
    var branches: seq<Expr> := [];
    var equalPrefix: seq<Expr> := [];
    var i := 0;
    while i < |ord|
      invariant 0 <= i <= |ord|
      invariant branches == seq(i, j requires 0 <= j < i => Branch(ord, values, j))
      invariant equalPrefix == EqualPrefix(values, i)
    {
      branches := branches + [All(equalPrefix + [StrictlyAfter(ord[i], i, values[i])])];
      equalPrefix := equalPrefix + [NotDistinctFrom(i, values[i])];
      i := i + 1;
    }
    if boundary.Inclusive? {
      branches := branches + [All(equalPrefix)];
    }
    e := Any(branches);
  }

  // ---- evaluation of conjunctions and disjunctions

  lemma {:induction false} EvalAllTrue(es: seq<Expr>, row: Tuple)
    requires forall x :: x in es ==> WellFormed(x, |row|)
    ensures EvalAll(es, row).True? <==> forall i :: 0 <= i < |es| ==> Eval(es[i], row).True?
  {
    if es != [] {
      EvalAllTrue(es[1..], row);
      assert forall i :: 1 <= i < |es| ==> es[i] == es[1..][i - 1];
    }
  }

  lemma {:induction false} EvalAnyTrue(es: seq<Expr>, row: Tuple)
    requires forall x :: x in es ==> WellFormed(x, |row|)
    ensures EvalAny(es, row).True? <==> exists i :: 0 <= i < |es| && Eval(es[i], row).True?
  {
    if es != [] {
      EvalAnyTrue(es[1..], row);
      assert forall i :: 1 <= i < |es| ==> es[i] == es[1..][i - 1];
      if EvalAny(es[1..], row).True? {
        var i :| 0 <= i < |es[1..]| && Eval(es[1..][i], row).True?;
        assert Eval(es[i + 1], row).True?;
      }
    }
  }

  /** One key: the strict comparison is True on exactly the cells after the value, in every mix of
      direction and null placement. Where it is Unknown the row is a null that sorts first. */
  lemma StrictlyAfterMeaning(k: OrderKey, col: nat, value: Cell, row: Tuple)
    requires col < |row|
    ensures WellFormed(StrictlyAfter(k, col, value), |row|)
    ensures Eval(StrictlyAfter(k, col, value), row).True? <==> CellBefore(k, value, row[col])
  {
    match value
    case Null =>
    case Val(b) =>
      var comparison := if k.direction.Asc? then Greater(col, b) else Less(col, b);
      if k.nulls.Last? {
        EvalAnyTrue([comparison, IsNull(col)], row);
        assert [comparison, IsNull(col)][0] == comparison && [comparison, IsNull(col)][1] == IsNull(col);
      }
  }

  lemma EqualPrefixMeaning(values: Tuple, n: nat, row: Tuple)
    requires n <= |values| == |row|
    ensures EvalAll(EqualPrefix(values, n), row).True? <==> values[..n] == row[..n]
  {
    var es := EqualPrefix(values, n);
    EvalAllTrue(es, row);
    assert forall i :: 0 <= i < n ==> (Eval(es[i], row).True? <==> values[i] == row[i]);
    if values[..n] == row[..n] {
      forall i | 0 <= i < n ensures Eval(es[i], row).True? {
        assert values[i] == values[..n][i] == row[..n][i] == row[i];
      }
    }
  }

  lemma BranchMeaning(ord: seq<OrderKey>, values: Tuple, row: Tuple, i: nat)
    requires i < |ord| == |values| == |row|
    ensures Eval(Branch(ord, values, i), row).True? <==> DecidedAt(ord, values, row, i)
  {
    var prefix := EqualPrefix(values, i);
    var last := StrictlyAfter(ord[i], i, values[i]);
    var es := prefix + [last];
    StrictlyAfterMeaning(ord[i], i, values[i], row);
    EqualPrefixMeaning(values, i, row);
    EvalAllTrue(es, row);
    EvalAllTrue(prefix, row);
    assert es[i] == last;
    assert forall j :: 0 <= j < i ==> es[j] == prefix[j];
  }

  /** For any number of keys and any mix of direction and null placement, the predicate is True on
      exactly the rows after the cursor tuple - or equal to it too, when the boundary is inclusive.
      False and Unknown rows are dropped by WHERE alike, so no row is lost or added by a null. */
  lemma SeekMeaning(ord: seq<OrderKey>, values: Tuple, boundary: Boundary, row: Tuple)
    requires |ord| == |values| == |row|
    ensures Eval(SeekExpr(ord, values, boundary), row).True?
       <==> Before(ord, values, row) || (boundary.Inclusive? && row == values)
  {
    var n := |ord|;
    var strict := seq(n, i requires 0 <= i < n => Branch(ord, values, i));
    var es := SeekExpr(ord, values, boundary).disjuncts;
    EvalAnyTrue(es, row);
    forall i: nat | i < n ensures Eval(es[i], row).True? <==> DecidedAt(ord, values, row, i) {
      assert es[i] == strict[i];
      BranchMeaning(ord, values, row, i);
    }
    BeforeByPosition(ord, values, row);
    if i: nat :| DecidedAt(ord, values, row, i) {
      assert Eval(es[i], row).True?;
    }
    if boundary.Inclusive? {
      assert es[n] == All(EqualPrefix(values, n));
      EqualPrefixMeaning(values, n, row);
      assert values[..n] == values && row[..n] == row;
    }
  }
}
