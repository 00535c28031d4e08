/**
 The fingerprint of an `IN` filter: its values are sorted by their serialised bytes before they are
 serialised, so that the order in which a caller lists them does not change the fingerprint.
 */
module Fingerprint {
  import opened Base64Url
  import opened Sequences

  type Bytes = seq<Byte>

  /** Python's order on `bytes`. */
  predicate Less(a: Bytes, b: Bytes) {
    b != [] && (a == [] || a[0] < b[0] || (a[0] == b[0] && Less(a[1..], b[1..])))
  }

  ghost predicate Sorted(s: seq<Bytes>) {
    forall i, j :: 0 <= i < j < |s| ==> !Less(s[j], s[i])
  }

  /** `out` is a possible result of `sorted(values, key=ser)`; values with equal keys may fall either way. */
  ghost predicate SortsTo<V>(ser: V -> Bytes, values: seq<V>, out: seq<V>) {
    multiset(out) == multiset(values) && Sorted(Map(ser, out))
  }

  /** The JSON array of already serialised elements. */
  function JsonArray(parts: seq<Bytes>): Bytes {
    [91] + Joined(parts) + [93]
  }

  function Joined(parts: seq<Bytes>): Bytes {
    if parts == [] then [] else if |parts| == 1 then parts[0] else parts[0] + [44] + Joined(parts[1..])
  }

  /** `a` comes first: it begins `b` and is shorter, or has the smaller byte where they first differ. */
  ghost predicate DiffersAt(a: Bytes, b: Bytes, i: nat) {
    i <= |a| && i < |b| && a[..i] == b[..i] && (i == |a| || a[i] < b[i])
  }

  lemma {:induction false} LessByPosition(a: Bytes, b: Bytes)
    ensures Less(a, b) <==> exists i: nat :: DiffersAt(a, b, i)
  {
    if b != [] && a == [] {
      assert DiffersAt(a, b, 0);
    } else if b != [] {
      LessByPosition(a[1..], b[1..]);
      if a[0] < b[0] {
        assert DiffersAt(a, b, 0);
      } else if Less(a, b) {
        var j: nat :| DiffersAt(a[1..], b[1..], j);
        assert a[..j + 1] == [a[0]] + a[1..][..j] && b[..j + 1] == [b[0]] + b[1..][..j];
        assert DiffersAt(a, b, j + 1);
      }
      if i: nat :| DiffersAt(a, b, i) {
        if i > 0 {
          assert a[0] == a[..i][0] == b[..i][0] == b[0];
          assert a[1..][..i - 1] == a[..i][1..] && b[1..][..i - 1] == b[..i][1..];
          assert DiffersAt(a[1..], b[1..], i - 1);
        }
      }
    }
  }

  lemma {:induction false} LessTotal(a: Bytes, b: Bytes)
    ensures Less(a, b) || a == b || Less(b, a)
    ensures !(Less(a, b) && Less(b, a))
  {
    if a != [] && b != [] {
      LessTotal(a[1..], b[1..]);
      if a[0] == b[0] {
        assert a == [a[0]] + a[1..] && b == [b[0]] + b[1..];
      }
    }
  }

  /** Ascending: of two different elements the lesser comes first. */
  lemma SortedAscends(a: Bytes, b: Bytes)
    ensures Sorted([a, b]) <==> Less(a, b) || a == b
  {
    LessTotal(a, b);
    assert [a, b][0] == a && [a, b][1] == b;
  }

  lemma SameFirst(a: seq<Bytes>, b: seq<Bytes>)
    requires Sorted(a) && Sorted(b) && multiset(a) == multiset(b) && a != [] && b != []
    ensures a[0] == b[0]
  {
    assert a[0] in multiset(b) && b[0] in multiset(a);
    var i :| 0 <= i < |b| && b[i] == a[0];
    var j :| 0 <= j < |a| && a[j] == b[0];
    assert i > 0 ==> !Less(b[i], b[0]);
    assert j > 0 ==> !Less(a[j], a[0]);
    LessTotal(a[0], b[0]);
  }

  /** A sorted arrangement is determined by its contents. */
  lemma {:induction false} SortedIsCanonical(a: seq<Bytes>, b: seq<Bytes>)
    requires Sorted(a) && Sorted(b) && multiset(a) == multiset(b)
    ensures a == b
    decreases |a|
  {
    assert |a| == |multiset(a)| == |multiset(b)| == |b|;
    if a != [] {
      SameFirst(a, b);
      assert a == [a[0]] + a[1..] && b == [b[0]] + b[1..];
      assert multiset(a[1..]) == multiset(a) - multiset{a[0]} == multiset(b) - multiset{b[0]} == multiset(b[1..]);
      SortedIsCanonical(a[1..], b[1..]);
    }
  }

  /** Serialised elements that show where they end: none is empty, and none, followed by a comma or the
      closing bracket, begins another so followed. JSON values are of this kind. */
  ghost predicate SelfDelimiting(parts: iset<Bytes>) {
    && [] !in parts
    && forall a, b, c, d :: a in parts && b in parts && c in {44, 93} && d in {44, 93} && a + [c] <= b + [d] ==> a == b
  }

  ghost predicate AllIn(s: seq<Bytes>, parts: iset<Bytes>) {
    forall i :: 0 <= i < |s| ==> s[i] in parts
  }

  /** What stands after `[` in an array: the elements with commas between, and the bracket. */
  function Tail(parts: seq<Bytes>): Bytes { Joined(parts) + [93] }

  lemma TailOf(parts: seq<Bytes>)
    requires parts != []
    ensures Tail(parts) == parts[0] + (if |parts| == 1 then [93] else [44] + Tail(parts[1..]))
  {
  }

  /** The shorter of two elements that begin the same text begins the other, delimiter included. */
  lemma FirstElement(a: Bytes, u: Bytes, b: Bytes, v: Bytes, parts: iset<Bytes>)
    requires SelfDelimiting(parts) && a in parts && b in parts && |a| <= |b|
    requires u != [] && v != [] && u[0] in {44, 93} && v[0] in {44, 93} && a + u == b + v
    ensures a == b && u == v
  {
    var s := a + u;
    assert a + [u[0]] == s[..|a| + 1];
    assert b + [v[0]] == s[..|b| + 1];
    assert a + [u[0]] <= b + [v[0]];
    assert u == s[|a|..] && v == s[|b|..];
  }

  lemma {:induction false} TailInjective(xs: seq<Bytes>, ys: seq<Bytes>, parts: iset<Bytes>)
    requires SelfDelimiting(parts) && AllIn(xs, parts) && AllIn(ys, parts) && Tail(xs) == Tail(ys)
    ensures xs == ys
    decreases |xs|
  {
    if xs != [] && ys != [] {
      TailOf(xs);
      TailOf(ys);
      var u := if |xs| == 1 then [93] else [44] + Tail(xs[1..]);
      var v := if |ys| == 1 then [93] else [44] + Tail(ys[1..]);
      if |xs[0]| <= |ys[0]| {
        FirstElement(xs[0], u, ys[0], v, parts);
      } else {
        FirstElement(ys[0], v, xs[0], u, parts);
      }
      assert xs == [xs[0]] + xs[1..] && ys == [ys[0]] + ys[1..];
      if |xs| > 1 && |ys| > 1 {
        assert u[1..] == Tail(xs[1..]) && v[1..] == Tail(ys[1..]);
        TailInjective(xs[1..], ys[1..], parts);
      } else {
        assert u[0] == v[0];
      }
    } else {
      TailLength(xs, parts);
      TailLength(ys, parts);
    }
  }

  lemma TailLength(xs: seq<Bytes>, parts: iset<Bytes>)
    requires SelfDelimiting(parts) && AllIn(xs, parts)
    ensures if xs == [] then |Tail(xs)| == 1 else |Tail(xs)| >= 2
  {
    if xs != [] {
      TailOf(xs);
      assert xs[0] in parts && |xs[0]| >= 1;
    }
  }

  /** Different lists of elements give different arrays. */
  lemma ArrayInjective(xs: seq<Bytes>, ys: seq<Bytes>, parts: iset<Bytes>)
    requires SelfDelimiting(parts) && AllIn(xs, parts) && AllIn(ys, parts)
    ensures JsonArray(xs) == JsonArray(ys) <==> xs == ys
  {
    if JsonArray(xs) == JsonArray(ys) {
      assert JsonArray(xs)[1..] == Tail(xs) && JsonArray(ys)[1..] == Tail(ys);
      TailInjective(xs, ys, parts);
    }
  }

  /** Arrays as JSON writes them. */
  lemma ArrayText(a: Bytes, b: Bytes, c: Bytes)
    ensures JsonArray([]) == [91, 93] && JsonArray([a]) == [91] + a + [93]
    ensures JsonArray([a, b, c]) == [91] + a + [44] + b + [44] + c + [93]
  {
    assert [a, b, c][1..] == [b, c] && [b, c][1..] == [c];
    assert Joined([b, c]) == b + [44] + c;
    assert Joined([a, b, c]) == a + [44] + Joined([b, c]);
    assert a + [44] + (b + [44] + c) == a + [44] + b + [44] + c;
  }

  /** The bytes of two `IN` lists agree exactly when their serialised values agree as multisets, however
      ties in the sort fall: rearranging changes nothing, any other change shows. */
  lemma SameBytesExactly<V>(ser: V -> Bytes, xs: seq<V>, ys: seq<V>, sx: seq<V>, sy: seq<V>, parts: iset<Bytes>)
    requires SortsTo(ser, xs, sx) && SortsTo(ser, ys, sy)
    requires SelfDelimiting(parts) && forall v :: ser(v) in parts
    ensures JsonArray(Map(ser, sx)) == JsonArray(Map(ser, sy)) <==> multiset(Map(ser, xs)) == multiset(Map(ser, ys))
  {
    OrderDoesNotMatter(ser, xs, ys, sx, sy);
    ArrayInjective(Map(ser, sx), Map(ser, sy), parts);
  }

  /** Two lists of `IN` values give the same bytes whenever one is a rearrangement of the other -
      indeed whenever their serialised values agree as multisets - however ties in the sort fall. */
  lemma OrderDoesNotMatter<V>(ser: V -> Bytes, xs: seq<V>, ys: seq<V>, sx: seq<V>, sy: seq<V>)
    requires SortsTo(ser, xs, sx) && SortsTo(ser, ys, sy)
    ensures multiset(Map(ser, xs)) == multiset(Map(ser, ys)) <==> Map(ser, sx) == Map(ser, sy)
    ensures multiset(xs) == multiset(ys) ==> JsonArray(Map(ser, sx)) == JsonArray(Map(ser, sy))
  {
    MapPermutes(ser, sx, xs);
    MapPermutes(ser, sy, ys);
    if multiset(xs) == multiset(ys) {
      MapPermutes(ser, xs, ys);
    }
    if multiset(Map(ser, xs)) == multiset(Map(ser, ys)) {
      SortedIsCanonical(Map(ser, sx), Map(ser, sy));
    }
  }
}
