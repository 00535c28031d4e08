/**
 Order keys of a paginated query and the order they denote.

 A key value is one cell of the cursor tuple. Non-null values are modelled by `real`: every SQL type
 orders countably many values, and every countable linear order embeds in the reals, so a statement
 about all reals is a statement about every column type.
 */
module Ordering {

  datatype Cell = Null | Val(v: real)

  datatype SortDirection = Asc | Desc

  datatype NullPlacement = First | Last

  datatype OrderKey = OrderKey(direction: SortDirection, nulls: NullPlacement) {
    /** The ordering used for backward retrieval. */
    function Reversed(): OrderKey {
      OrderKey(if direction.Asc? then Desc else Asc, if nulls.First? then Last else First)
    }
  }

  /** What `ORDER BY key` means: does a cell `a` come strictly before a cell `b`? */
  predicate CellBefore(k: OrderKey, a: Cell, b: Cell) {
    match (a, b)
    case (Null, Null) => false
    case (Null, Val(_)) => k.nulls.First?
    case (Val(_), Null) => k.nulls.Last?
    case (Val(x), Val(y)) => if k.direction.Asc? then x < y else y < x
  }

  type Tuple = seq<Cell>

  /** What `ORDER BY k0, k1, ...` means on key tuples. */
  predicate Before(ord: seq<OrderKey>, a: Tuple, b: Tuple)
    requires |ord| == |a| == |b|
  {
    ord != [] &&
    (CellBefore(ord[0], a[0], b[0]) || (a[0] == b[0] && Before(ord[1..], a[1..], b[1..])))
  }

  function ReversedOrdering(ord: seq<OrderKey>): (r: seq<OrderKey>)
    ensures |r| == |ord|
  {
    seq(|ord|, i requires 0 <= i < |ord| => ord[i].Reversed())
  }

  lemma {:induction false} BeforeIrreflexive(ord: seq<OrderKey>, a: Tuple)
    requires |ord| == |a|
    ensures !Before(ord, a, a)
  {
    if ord != [] {
      BeforeIrreflexive(ord[1..], a[1..]);
    }
  }

  lemma {:induction false} BeforeTransitive(ord: seq<OrderKey>, a: Tuple, b: Tuple, c: Tuple)
    requires |ord| == |a| == |b| == |c|
    requires Before(ord, a, b) && Before(ord, b, c)
    ensures Before(ord, a, c)
  {
    if a[0] == b[0] && b[0] == c[0] {
      BeforeTransitive(ord[1..], a[1..], b[1..], c[1..]);
    }
  }

  /** Any two key tuples are comparable, and exactly one of the three cases holds. */
  lemma {:induction false} BeforeTrichotomy(ord: seq<OrderKey>, a: Tuple, b: Tuple)
    requires |ord| == |a| == |b|
    ensures Before(ord, a, b) || a == b || Before(ord, b, a)
    ensures !(Before(ord, a, b) && Before(ord, b, a))
    ensures a == b ==> !Before(ord, a, b)
  {
    if ord != [] {
      BeforeTrichotomy(ord[1..], a[1..], b[1..]);
      if a[0] == b[0] {
        assert a == [a[0]] + a[1..] && b == [b[0]] + b[1..];
      }
    }
  }

  /** `reversed()` denotes the exact converse, key by key and on whole tuples. */
  lemma {:induction false} ReversedIsConverse(ord: seq<OrderKey>, a: Tuple, b: Tuple)
    requires |ord| == |a| == |b|
    ensures Before(ReversedOrdering(ord), a, b) <==> Before(ord, b, a)
  {
    if ord != [] {
      assert ReversedOrdering(ord)[1..] == ReversedOrdering(ord[1..]);
      ReversedIsConverse(ord[1..], a[1..], b[1..]);
    }
  }

  lemma ReversedTwice(ord: seq<OrderKey>)
    ensures ReversedOrdering(ReversedOrdering(ord)) == ord
  {
    assert forall i :: 0 <= i < |ord| ==> ord[i].Reversed().Reversed() == ord[i];
  }

  /** Position form of the lexicographic order: the tuples agree up to some key, which decides. */
  predicate DecidedAt(ord: seq<OrderKey>, a: Tuple, b: Tuple, i: nat)
    requires |ord| == |a| == |b|
  {
    i < |ord| && a[..i] == b[..i] && CellBefore(ord[i], a[i], b[i])
  }

  lemma {:induction false} BeforeByPosition(ord: seq<OrderKey>, a: Tuple, b: Tuple)
    requires |ord| == |a| == |b|
    ensures Before(ord, a, b) <==> exists i: nat :: DecidedAt(ord, a, b, i)
  {
    if ord != [] {
      BeforeByPosition(ord[1..], a[1..], b[1..]);
      if CellBefore(ord[0], a[0], b[0]) {
        assert DecidedAt(ord, a, b, 0);
      } else if Before(ord, a, b) {
        var j: nat :| DecidedAt(ord[1..], a[1..], b[1..], j);
        assert a[..j + 1] == [a[0]] + a[1..][..j];
        assert b[..j + 1] == [b[0]] + b[1..][..j];
        assert DecidedAt(ord, a, b, j + 1);
      }
      if i: nat :| DecidedAt(ord, a, b, i) {
        if i > 0 {
          assert a[0] == a[..i][0] == b[..i][0] == b[0];
          assert a[1..][..i - 1] == a[..i][1..] && b[1..][..i - 1] == b[..i][1..];
          assert DecidedAt(ord[1..], a[1..], b[1..], i - 1);
        }
      }
    }
  }
}
