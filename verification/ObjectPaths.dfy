/**
 Building a nested object from dotted paths, and listing its leaves by path again.
 */
module ObjectPaths {
  import opened Common
  import opened Decimals
  import opened Sequences

  datatype Value = Scalar(v: int) | List(items: seq<Value>) | Dict(entries: Entries)

  /** A dictionary in insertion order. */
  datatype Entries = Nil | Cons(key: string, value: Value, rest: Entries)

  // ---- paths

  /** `path.split(".")`. */
  function Split(s: string): (r: seq<string>)
    ensures r != []
  {
    if s == "" then [""]
    else
      var r := Split(s[1..]);
      if s[0] == '.' then [""] + r else [[s[0]] + r[0]] + r[1..]
  }

  function Join(segs: seq<string>): string {
    if segs == [] then "" else if |segs| == 1 then segs[0] else segs[0] + "." + Join(segs[1..])
  }

  ghost predicate NoDots(segs: seq<string>) {
    forall i :: 0 <= i < |segs| ==> '.' !in segs[i]
  }

  lemma {:induction false} SplitJoin(s: string)
    ensures Join(Split(s)) == s && NoDots(Split(s))
  {
    if s != "" {
      SplitJoin(s[1..]);
      var r := Split(s[1..]);
      assert s == [s[0]] + s[1..];
      if s[0] == '.' {
        JoinCons("", r);
      } else {
        JoinGrows(s[0], r[0], r[1..]);
        assert r == [r[0]] + r[1..];
      }
    }
  }

  lemma JoinCons(seg: string, r: seq<string>)
    requires r != []
    ensures Join([seg] + r) == seg + "." + Join(r)
  {
    assert ([seg] + r)[1..] == r;
  }

  /** A character in front of the first segment is a character in front of the whole path. */
  lemma JoinGrows(c: char, head: string, tail: seq<string>)
    ensures Join([[c] + head] + tail) == [c] + Join([head] + tail)
  {
    if tail == [] {
      assert [[c] + head] + tail == [[c] + head] && [head] + tail == [head];
    } else {
      JoinCons(head, tail);
      JoinCons([c] + head, tail);
    }
  }

  // ---- insertion

  /** Walk down the path, creating dictionaries where keys are missing, and assign at its end. A key
      on the way that holds anything but a dictionary raises an error. */
  function Insert(e: Entries, segs: seq<string>, v: Value): Option<Entries>
    requires segs != []
    decreases |segs|, e
  {
    if e.Nil? then
      if |segs| == 1 then Some(Cons(segs[0], v, Nil)) else Nest(segs[0], Insert(Nil, segs[1..], v), Nil)
    else if e.key != segs[0] then
      match Insert(e.rest, segs, v) { case None => None case Some(r) => Some(Cons(e.key, e.value, r)) }
    else if |segs| == 1 then Some(Cons(e.key, v, e.rest))
    else if !e.value.Dict? then None
    else Nest(e.key, Insert(e.value.entries, segs[1..], v), e.rest)
  }

  function Nest(k: string, d: Option<Entries>, rest: Entries): Option<Entries> {
    if d.None? then None else Some(Cons(k, Dict(d.value), rest))
  }

  function Unwrap(v: Value): Value {
    if v.List? && |v.items| == 1 then v.items[0] else v
  }

  type Flat = seq<(string, Value)>

  function Reconstruct(flat: Flat): Option<Entries> {
    if flat == [] then Some(Nil)
    else match Reconstruct(flat[..|flat| - 1])
      case None => None
      case Some(e) => Insert(e, Split(flat[|flat| - 1].0), Unwrap(flat[|flat| - 1].1))
  }

  method ReconstructObj(flat: Flat) returns (r: Option<Entries>)
    ensures r == Reconstruct(flat)
  {
    var obj := Nil;
    var i := 0;
    while i < |flat|
      invariant 0 <= i <= |flat|
      invariant Reconstruct(flat[..i]) == Some(obj)
    {
      assert flat[..i + 1][..i] == flat[..i];
      var (path, value) := flat[i];
      if value.List? && |value.items| == 1 {
        value := value.items[0];
      }
      var next := Insert(obj, Split(path), value);
      if next.None? {
        FailureStays(flat, i + 1);
        return None;
      }
      obj := next.value;
      i := i + 1;
    }
    assert flat[..i] == flat;
    return Some(obj);
  }

  lemma {:induction false} FailureStays(flat: Flat, n: nat)
    requires n <= |flat| && Reconstruct(flat[..n]).None?
    ensures Reconstruct(flat).None?
    decreases |flat| - n
  {
    if n == |flat| {
      assert flat[..n] == flat;
    } else {
      assert flat[..n + 1][..n] == flat[..n];
      FailureStays(flat, n + 1);
    }
  }

  /** A list of exactly one item counts as the item; any other list, empty or longer, is kept. */
  lemma ListsReconstructed(flat: Flat, path: string, items: seq<Value>)
    ensures Reconstruct(flat + [(path, List(items))]) ==
              match Reconstruct(flat)
              case None => None
              case Some(e) => Insert(e, Split(path), if |items| == 1 then items[0] else List(items))
  {
    assert (flat + [(path, List(items))])[..|flat|] == flat;
  }

  // ---- leaves

  function SubKey(parent: string, key: string): string {
    if parent != "" then parent + "." + key else key
  }

  /** `traverse_leaves`. */
  function Leaves(v: Value, parent: string): Flat
    decreases v, 0
  {
    match v
    case Scalar(_) => [(parent, v)]
    case Dict(e) => EntryLeaves(e, parent)
    case List(items) => ItemLeaves(items, parent, 0)
  }

  function EntryLeaves(e: Entries, parent: string): Flat
    decreases e, 1
  {
    match e
    case Nil => []
    case Cons(k, x, rest) => Leaves(x, SubKey(parent, k)) + EntryLeaves(rest, parent)
  }

  function ItemLeaves(items: seq<Value>, parent: string, n: nat): Flat
    decreases items, 1
  {
    if items == [] then []
    else Leaves(items[0], parent + "[" + Decimal(n) + "]") + ItemLeaves(items[1..], parent, n + 1)
  }

  // ---- the same leaves, by segments

  /** A dictionary is gone through in order, a key below a path coming after a dot. */
  lemma EntriesInOrder(parent: string, k: string, x: Value, rest: Entries)
    ensures EntryLeaves(Nil, parent) == []
    ensures EntryLeaves(Cons(k, x, rest), parent) == Leaves(x, if parent == "" then k else parent + "." + k) + EntryLeaves(rest, parent)
  {
  }

  lemma TraversalByKind(e: Entries, items: seq<Value>, v: int, parent: string)
    ensures Leaves(Scalar(v), parent) == [(parent, Scalar(v))]
    ensures Leaves(Dict(e), parent) == EntryLeaves(e, parent) && Leaves(List(items), parent) == ItemLeaves(items, parent, 0)
  {
  }

  /** The items of a list stand under their places, counted from zero, in brackets. */
  lemma {:induction false} ItemsInOrder(items: seq<Value>, x: Value, parent: string, n: nat)
    ensures ItemLeaves(items + [x], parent, n) == ItemLeaves(items, parent, n) + Leaves(x, parent + "[" + Decimal(n + |items|) + "]")
    decreases |items|
  {
    if items == [] {
      assert items + [x] == [x] && [x][1..] == [];
      assert ItemLeaves([], parent, n + 1) == [];
    } else {
      assert (items + [x])[1..] == items[1..] + [x];
      ItemsInOrder(items[1..], x, parent, n + 1);
    }
  }

  type Leaf = (seq<string>, Value)

  function Under(k: string, l: Leaf): Leaf { ([k] + l.0, l.1) }

  function UnderAll(k: string, ls: seq<Leaf>): (r: seq<Leaf>)
    ensures |r| == |ls| && forall i :: 0 <= i < |ls| ==> r[i] == Under(k, ls[i])
  {
    seq(|ls|, i requires 0 <= i < |ls| => Under(k, ls[i]))
  }

  function SegLeaves(e: Entries): seq<Leaf>
    decreases e
  {
    match e
    case Nil => []
    case Cons(k, x, rest) => ValueLeaves(k, x) + SegLeaves(rest)
  }

  function ValueLeaves(k: string, x: Value): seq<Leaf>
    decreases x
  {
    if x.Dict? then UnderAll(k, SegLeaves(x.entries)) else [([k], x)]
  }

  function PathOf(parent: string, segs: seq<string>): string
    decreases |segs|
  {
    if segs == [] then parent else PathOf(SubKey(parent, segs[0]), segs[1..])
  }

  /** An object whose leaves are scalars. */
  predicate Plain(e: Entries) {
    match e
    case Nil => true
    case Cons(_, x, rest) => Plain(rest) && !x.List? && (x.Dict? ==> Plain(x.entries))
  }

  function Named(parent: string, l: Leaf): (string, Value) { (PathOf(parent, l.0), l.1) }

  function NamedAll(parent: string, ls: seq<Leaf>): (r: Flat)
    ensures |r| == |ls| && forall i :: 0 <= i < |ls| ==> r[i] == Named(parent, ls[i])
  {
    seq(|ls|, i requires 0 <= i < |ls| => Named(parent, ls[i]))
  }

  lemma ValueNames(k: string, x: Value, parent: string)
    requires !x.List?
    requires x.Dict? ==> EntryLeaves(x.entries, SubKey(parent, k)) == NamedAll(SubKey(parent, k), SegLeaves(x.entries))
    ensures Leaves(x, SubKey(parent, k)) == NamedAll(parent, ValueLeaves(k, x))
  {
    if x.Dict? {
      var inner := SegLeaves(x.entries);
      forall i | 0 <= i < |inner| ensures Named(parent, Under(k, inner[i])) == Named(SubKey(parent, k), inner[i]) {
        assert ([k] + inner[i].0)[1..] == inner[i].0;
      }
    } else {
      assert [k][1..] == [];
      assert PathOf(parent, [k]) == PathOf(SubKey(parent, k), []) == SubKey(parent, k);
    }
  }

  /** The traversal lists exactly the leaves, each under the path its segments spell. */
  lemma {:induction false} TraversalNames(e: Entries, parent: string)
    requires Plain(e)
    ensures EntryLeaves(e, parent) == NamedAll(parent, SegLeaves(e))
    decreases e
  {
    match e
    case Nil =>
    case Cons(k, x, rest) =>
      TraversalNames(rest, parent);
      if x.Dict? {
        TraversalNames(x.entries, SubKey(parent, k));
      }
      ValueNames(k, x, parent);
      assert NamedAll(parent, ValueLeaves(k, x) + SegLeaves(rest)) == NamedAll(parent, ValueLeaves(k, x)) + NamedAll(parent, SegLeaves(rest));
  }

  // ---- what insertion does to the leaves

  /** The leaves that an assignment at `segs` does not overwrite. */
  function Keep(ls: seq<Leaf>, segs: seq<string>): seq<Leaf> {
    if ls == [] then [] else (if segs <= ls[0].0 then [] else [ls[0]]) + Keep(ls[1..], segs)
  }

  ghost predicate Blocked(ls: seq<Leaf>, segs: seq<string>) {
    exists i :: 0 <= i < |ls| && ls[i].0 < segs
  }

  lemma {:induction false} KeepConcat(a: seq<Leaf>, b: seq<Leaf>, segs: seq<string>)
    ensures Keep(a + b, segs) == Keep(a, segs) + Keep(b, segs)
  {
    if a == [] {
      assert a + b == b;
    } else {
      assert (a + b)[1..] == a[1..] + b && (a + b)[0] == a[0];
      KeepConcat(a[1..], b, segs);
    }
  }

  lemma {:induction false} KeepAll(ls: seq<Leaf>, segs: seq<string>)
    requires forall i :: 0 <= i < |ls| ==> !(segs <= ls[i].0)
    ensures Keep(ls, segs) == ls
  {
    if ls != [] {
      KeepAll(ls[1..], segs);
      assert ls == [ls[0]] + ls[1..];
    }
  }

  lemma {:induction false} KeepUnder(ls: seq<Leaf>, k: string, segs: seq<string>)
    requires segs != [] && segs[0] == k
    ensures Keep(UnderAll(k, ls), segs) == UnderAll(k, Keep(ls, segs[1..]))
  {
    if ls != [] {
      var under := UnderAll(k, ls);
      KeepUnder(ls[1..], k, segs);
      assert under[1..] == UnderAll(k, ls[1..]);
      PrefixTail(k, ls[0].0, segs);
      var head := if segs[1..] <= ls[0].0 then [] else [ls[0]];
      assert UnderAll(k, head + Keep(ls[1..], segs[1..])) == UnderAll(k, head) + UnderAll(k, Keep(ls[1..], segs[1..]));
    }
  }

  lemma BlockedUnder(ls: seq<Leaf>, k: string, segs: seq<string>)
    requires segs != [] && segs[0] == k
    ensures Blocked(UnderAll(k, ls), segs) <==> Blocked(ls, segs[1..])
  {
    forall i | 0 <= i < |ls| ensures UnderAll(k, ls)[i].0 < segs <==> ls[i].0 < segs[1..] {
      PrefixTail(k, ls[i].0, segs);
    }
  }

  lemma PrefixTail(k: string, p: seq<string>, segs: seq<string>)
    requires segs != [] && segs[0] == k
    ensures segs <= [k] + p <==> segs[1..] <= p
    ensures [k] + p < segs <==> p < segs[1..]
  {
    assert segs == [k] + segs[1..];
    assert ([k] + p)[1..] == p;
    if segs <= [k] + p {
      assert forall i :: 0 <= i < |segs| - 1 ==> segs[1..][i] == segs[i + 1] == ([k] + p)[i + 1] == p[i];
    }
    if [k] + p < segs {
      assert forall i :: 0 <= i < |p| ==> p[i] == ([k] + p)[i + 1] == segs[i + 1] == segs[1..][i];
    }
  }

  predicate HasKey(e: Entries, k: string) {
    e.Cons? && (e.key == k || HasKey(e.rest, k))
  }

  /** A dictionary has each key once, at every level. */
  predicate WellKeyed(e: Entries) {
    match e
    case Nil => true
    case Cons(k, x, rest) => !HasKey(rest, k) && WellKeyed(rest) && (x.Dict? ==> WellKeyed(x.entries))
  }

  lemma {:induction false} LeafKeys(e: Entries)
    ensures forall i :: 0 <= i < |SegLeaves(e)| ==> SegLeaves(e)[i].0 != [] && HasKey(e, SegLeaves(e)[i].0[0])
    decreases e
  {
    if e.Cons? {
      LeafKeys(e.rest);
      var a, b := ValueLeaves(e.key, e.value), SegLeaves(e.rest);
      var ls := SegLeaves(e);
      assert ls == a + b;
      forall i | 0 <= i < |ls| ensures ls[i].0 != [] && HasKey(e, ls[i].0[0]) {
        if i >= |a| {
          assert ls[i] == b[i - |a|];
        }
      }
    }
  }

  /** Leaves under other keys are neither overwritten nor in the way. */
  lemma ForeignKept(ls: seq<Leaf>, segs: seq<string>)
    requires segs != [] && forall i :: 0 <= i < |ls| ==> ls[i].0 != [] && ls[i].0[0] != segs[0]
    ensures Keep(ls, segs) == ls && !Blocked(ls, segs)
  {
    KeepAll(ls, segs);
  }

  lemma OtherKeysKept(e: Entries, segs: seq<string>)
    requires segs != [] && !HasKey(e, segs[0])
    ensures Keep(SegLeaves(e), segs) == SegLeaves(e) && !Blocked(SegLeaves(e), segs)
  {
    LeafKeys(e);
    ForeignKept(SegLeaves(e), segs);
  }

  lemma BlockedConcat(a: seq<Leaf>, b: seq<Leaf>, segs: seq<string>)
    ensures Blocked(a + b, segs) <==> Blocked(a, segs) || Blocked(b, segs)
  {
    assert forall i :: 0 <= i < |a| ==> (a + b)[i] == a[i];
    assert forall i :: 0 <= i < |b| ==> (a + b)[|a| + i] == b[i];
  }

  lemma UnderPermutes(k: string, a: seq<Leaf>, b: seq<Leaf>)
    requires multiset(a) == multiset(b)
    ensures multiset(UnderAll(k, a)) == multiset(UnderAll(k, b))
  {
    var f := l => Under(k, l);
    MapPermutes(f, a, b);
    assert UnderAll(k, a) == Map(f, a) && UnderAll(k, b) == Map(f, b);
  }

  /** The leaves after an assignment: those not overwritten, and the new one. */
  ghost predicate Assigned(before: seq<Leaf>, after: seq<Leaf>, segs: seq<string>, v: Value) {
    multiset(after) == multiset(Keep(before, segs)) + multiset{(segs, v)}
  }

  /** Assigning below key `k` of a nested dictionary. */
  lemma AssignedUnder(k: string, before: seq<Leaf>, after: seq<Leaf>, segs: seq<string>, v: Value)
    requires segs != [] && segs[0] == k && Assigned(before, after, segs[1..], v)
    ensures Assigned(UnderAll(k, before), UnderAll(k, after), segs, v)
  {
    var kept, tail := Keep(before, segs[1..]), segs[1..];
    assert multiset(after) == multiset(kept + [(tail, v)]);
    UnderPermutes(k, after, kept + [(tail, v)]);
    KeepUnder(before, k, segs);
    assert UnderAll(k, kept + [(tail, v)]) == UnderAll(k, kept) + [Under(k, (tail, v))];
    assert [k] + tail == segs;
  }

  lemma AssignedFront(before: seq<Leaf>, after: seq<Leaf>, rest: seq<Leaf>, segs: seq<string>, v: Value)
    requires Assigned(before, after, segs, v) && Keep(rest, segs) == rest
    ensures Assigned(before + rest, after + rest, segs, v)
  {
    KeepConcat(before, rest, segs);
  }

  lemma AssignedBack(front: seq<Leaf>, before: seq<Leaf>, after: seq<Leaf>, segs: seq<string>, v: Value)
    requires Assigned(before, after, segs, v) && Keep(front, segs) == front
    ensures Assigned(front + before, front + after, segs, v)
  {
    KeepConcat(front, before, segs);
  }

  lemma ValueKeys(k: string, x: Value)
    ensures forall i :: 0 <= i < |ValueLeaves(k, x)| ==> ValueLeaves(k, x)[i].0 != [] && ValueLeaves(k, x)[i].0[0] == k
  {
  }

  /** Assigning at the key itself overwrites everything below it. */
  lemma AssignedHere(k: string, x: Value, v: Value)
    requires !v.Dict?
    ensures Assigned(ValueLeaves(k, x), ValueLeaves(k, v), [k], v) && !Blocked(ValueLeaves(k, x), [k])
  {
    ValueKeys(k, x);
    KeepNone(ValueLeaves(k, x), [k]);
  }

  lemma {:induction false} KeepNone(ls: seq<Leaf>, segs: seq<string>)
    requires forall i :: 0 <= i < |ls| ==> segs <= ls[i].0
    ensures Keep(ls, segs) == []
  {
    if ls != [] {
      KeepNone(ls[1..], segs);
    }
  }

  /** Insertion fails exactly when a leaf stands on the way; otherwise it overwrites exactly the leaves
      at or below the path and adds the new one. */
  lemma {:induction false} InsertLeaves(e: Entries, segs: seq<string>, v: Value)
    requires segs != [] && WellKeyed(e) && Plain(e) && v.Scalar?
    ensures Insert(e, segs, v).None? <==> Blocked(SegLeaves(e), segs)
    ensures Insert(e, segs, v).Some? ==>
              var e' := Insert(e, segs, v).value;
              && Assigned(SegLeaves(e), SegLeaves(e'), segs, v) && WellKeyed(e') && Plain(e')
              && forall k :: HasKey(e', k) <==> HasKey(e, k) || k == segs[0]
    decreases |segs|, e
  {
    var k := segs[0];
    if e.Nil? {
      InsertFresh(segs, v);
    } else if e.key != k {
      InsertLeaves(e.rest, segs, v);
      InsertPast(e, segs, v);
    } else {
      InsertHere(e, segs, v);
    }
  }

  /** Leaves under another key stay; the rest changes as insertion into the rest says. */
  lemma InsertPast(e: Entries, segs: seq<string>, v: Value)
    requires segs != [] && e.Cons? && e.key != segs[0] && WellKeyed(e) && Plain(e) && v.Scalar?
    requires Insert(e.rest, segs, v).None? <==> Blocked(SegLeaves(e.rest), segs)
    requires Insert(e.rest, segs, v).Some? ==>
               var r := Insert(e.rest, segs, v).value;
               && Assigned(SegLeaves(e.rest), SegLeaves(r), segs, v) && WellKeyed(r) && Plain(r)
               && forall k :: HasKey(r, k) <==> HasKey(e.rest, k) || k == segs[0]
    ensures Insert(e, segs, v).None? <==> Blocked(SegLeaves(e), segs)
    ensures Insert(e, segs, v).Some? ==>
              var e' := Insert(e, segs, v).value;
              && Assigned(SegLeaves(e), SegLeaves(e'), segs, v) && WellKeyed(e') && Plain(e')
              && forall k :: HasKey(e', k) <==> HasKey(e, k) || k == segs[0]
  {
    var front := ValueLeaves(e.key, e.value);
    ValueKeys(e.key, e.value);
    ForeignKept(front, segs);
    BlockedConcat(front, SegLeaves(e.rest), segs);
    if Insert(e, segs, v).Some? {
      AssignedBack(front, SegLeaves(e.rest), SegLeaves(Insert(e.rest, segs, v).value), segs, v);
    }
  }

  lemma {:induction false} InsertFresh(segs: seq<string>, v: Value)
    requires segs != [] && v.Scalar?
    ensures Insert(Nil, segs, v).Some? && !Blocked(SegLeaves(Nil), segs)
    ensures var e' := Insert(Nil, segs, v).value;
            && Assigned([], SegLeaves(e'), segs, v) && WellKeyed(e') && Plain(e')
            && forall k :: HasKey(e', k) <==> k == segs[0]
    decreases |segs|, Nil, 0
  {
    if |segs| == 1 {
      assert segs == [segs[0]];
    } else {
      InsertFresh(segs[1..], v);
      FreshUnder(segs, v, Insert(Nil, segs[1..], v).value);
    }
  }

  lemma FreshUnder(segs: seq<string>, v: Value, inner: Entries)
    requires |segs| > 1 && Assigned([], SegLeaves(inner), segs[1..], v)
    ensures Assigned([], SegLeaves(Cons(segs[0], Dict(inner), Nil)), segs, v)
  {
    AssignedUnder(segs[0], [], SegLeaves(inner), segs, v);
    assert UnderAll(segs[0], []) == [];
    assert SegLeaves(Cons(segs[0], Dict(inner), Nil)) == UnderAll(segs[0], SegLeaves(inner));
  }

  lemma InsertHere(e: Entries, segs: seq<string>, v: Value)
    requires segs != [] && WellKeyed(e) && Plain(e) && v.Scalar? && e.Cons? && e.key == segs[0]
    ensures Insert(e, segs, v).None? <==> Blocked(SegLeaves(e), segs)
    ensures Insert(e, segs, v).Some? ==>
              var e' := Insert(e, segs, v).value;
              && Assigned(SegLeaves(e), SegLeaves(e'), segs, v) && WellKeyed(e') && Plain(e')
              && forall k :: HasKey(e', k) <==> HasKey(e, k) || k == segs[0]
    decreases |segs|, e, 0
  {
    var k, rest := segs[0], SegLeaves(e.rest);
    OtherKeysKept(e.rest, segs);
    BlockedConcat(ValueLeaves(k, e.value), rest, segs);
    if |segs| == 1 {
      assert segs == [k];
      AssignedHere(k, e.value, v);
      AssignedFront(ValueLeaves(k, e.value), ValueLeaves(k, v), rest, segs, v);
    } else if !e.value.Dict? {
      assert ValueLeaves(k, e.value)[0].0 < segs;
    } else {
      var inner := e.value.entries;
      InsertLeaves(inner, segs[1..], v);
      BlockedUnder(SegLeaves(inner), k, segs);
      if Insert(e, segs, v).Some? {
        var inner' := Insert(inner, segs[1..], v).value;
        AssignedUnder(k, SegLeaves(inner), SegLeaves(inner'), segs, v);
        AssignedFront(UnderAll(k, SegLeaves(inner)), UnderAll(k, SegLeaves(inner')), rest, segs, v);
      }
    }
  }

  // ---- whole objects

  ghost predicate Scalars(flat: Flat) {
    forall i :: 0 <= i < |flat| ==> flat[i].1.Scalar?
  }

  ghost predicate DistinctPaths(flat: Flat) {
    forall i, j :: 0 <= i < j < |flat| ==> flat[i].0 != flat[j].0
  }

  /** No path is a prefix, segment by segment, of another. */
  ghost predicate PrefixFree(flat: Flat) {
    forall i, j :: 0 <= i < |flat| && 0 <= j < |flat| && i != j ==> !(Split(flat[i].0) <= Split(flat[j].0))
  }

  function SegFlat(flat: Flat): (r: seq<Leaf>)
    ensures |r| == |flat| && forall i :: 0 <= i < |flat| ==> r[i] == (Split(flat[i].0), flat[i].1)
  {
    seq(|flat|, i requires 0 <= i < |flat| => (Split(flat[i].0), flat[i].1))
  }

  lemma {:induction false} KeepSize(ls: seq<Leaf>, segs: seq<string>)
    ensures |Keep(ls, segs)| <= |ls|
    ensures |Keep(ls, segs)| == |ls| ==> Keep(ls, segs) == ls && forall l :: l in ls ==> !(segs <= l.0)
  {
    if ls != [] {
      KeepSize(ls[1..], segs);
      assert ls == [ls[0]] + ls[1..];
    }
  }

  lemma NotBlocked(ls: seq<Leaf>, segs: seq<string>)
    ensures Blocked(ls, segs) <==> exists l :: l in ls && l.0 < segs
  {
    if l :| l in ls && l.0 < segs {
      var i :| 0 <= i < |ls| && ls[i] == l;
      assert ls[i].0 < segs;
    }
  }

  /** The state after a prefix of the input: never more leaves than entries, and as many only if nothing
      was overwritten - that is, only if the paths so far are prefix-free and all still there. */
  ghost predicate Built(flat: Flat, r: Option<Entries>) {
    && (r.Some? ==>
          && WellKeyed(r.value) && Plain(r.value) && |SegLeaves(r.value)| <= |flat|
          && (|SegLeaves(r.value)| == |flat| ==> PrefixFree(flat) && multiset(SegLeaves(r.value)) == multiset(SegFlat(flat))))
    && (PrefixFree(flat) ==> r.Some? && |SegLeaves(r.value)| == |flat|)
  }

  lemma PrefixFreeSnoc(flat: Flat)
    requires flat != []
    ensures PrefixFree(flat) <==>
              && PrefixFree(flat[..|flat| - 1])
              && forall l :: l in SegFlat(flat[..|flat| - 1]) ==>
                   !(l.0 <= Split(flat[|flat| - 1].0)) && !(Split(flat[|flat| - 1].0) <= l.0)
  {
    var front, last := flat[..|flat| - 1], flat[|flat| - 1];
    var ls := SegFlat(front);
    assert forall i :: 0 <= i < |front| ==> front[i] == flat[i] && ls[i].0 == Split(flat[i].0) && ls[i] in ls;
  }

  lemma SameMembers(a: seq<Leaf>, b: seq<Leaf>)
    requires multiset(a) == multiset(b)
    ensures forall l :: l in a <==> l in b
  {
    assert forall l :: l in a <==> l in multiset(a);
    assert forall l :: l in b <==> l in multiset(b);
  }

  /** If the whole is prefix-free, nothing so far blocks the last path or is overwritten by it. */
  lemma FreeOfLast(flat: Flat, ls: seq<Leaf>)
    requires flat != [] && PrefixFree(flat) && multiset(ls) == multiset(SegFlat(flat[..|flat| - 1]))
    ensures !Blocked(ls, Split(flat[|flat| - 1].0)) && Keep(ls, Split(flat[|flat| - 1].0)) == ls
  {
    var segs := Split(flat[|flat| - 1].0);
    PrefixFreeSnoc(flat);
    SameMembers(ls, SegFlat(flat[..|flat| - 1]));
    NotBlocked(ls, segs);
    forall i | 0 <= i < |ls| ensures !(segs <= ls[i].0) {
      assert ls[i] in ls;
    }
    KeepAll(ls, segs);
  }

  lemma AssignedSize(before: seq<Leaf>, after: seq<Leaf>, segs: seq<string>, v: Value)
    requires Assigned(before, after, segs, v)
    ensures |after| == |Keep(before, segs)| + 1 <= |before| + 1
    ensures |after| == |before| + 1 <==> Keep(before, segs) == before
  {
    KeepSize(before, segs);
    assert |after| == |multiset(after)| == |multiset(Keep(before, segs))| + 1;
  }

  lemma SegFlatSnoc(flat: Flat)
    requires flat != []
    ensures SegFlat(flat) == SegFlat(flat[..|flat| - 1]) + [(Split(flat[|flat| - 1].0), flat[|flat| - 1].1)]
  {
  }

  /** If no leaf has been lost by the last assignment either, the whole is prefix-free and all there. */
  lemma CountTells(flat: Flat, front: Flat, ls: seq<Leaf>, after: seq<Leaf>, segs: seq<string>)
    requires flat != [] && front == flat[..|flat| - 1] && segs == Split(flat[|flat| - 1].0)
    requires PrefixFree(front) && multiset(ls) == multiset(SegFlat(front))
    requires !Blocked(ls, segs) && Keep(ls, segs) == ls && Assigned(ls, after, segs, flat[|flat| - 1].1)
    ensures PrefixFree(flat) && multiset(after) == multiset(SegFlat(flat))
  {
    assert PrefixFree(flat) by {
      KeepSize(ls, segs);
      NotBlocked(ls, segs);
      SameMembers(ls, SegFlat(front));
      PrefixFreeSnoc(flat);
    }
    SegFlatSnoc(flat);
  }

  lemma BuiltStep(flat: Flat, e: Entries)
    requires Scalars(flat) && flat != [] && Reconstruct(flat[..|flat| - 1]) == Some(e)
    requires Built(flat[..|flat| - 1], Some(e))
    ensures Built(flat, Reconstruct(flat))
  {
    var segs, ls := Split(flat[|flat| - 1].0), SegLeaves(e);
    InsertLeaves(e, segs, flat[|flat| - 1].1);
    if Reconstruct(flat).Some? {
      var after := SegLeaves(Reconstruct(flat).value);
      AssignedSize(ls, after, segs, flat[|flat| - 1].1);
      if |after| == |flat| {
        CountTells(flat, flat[..|flat| - 1], ls, after, segs);
      }
    }
    if PrefixFree(flat) {
      PrefixFreeSnoc(flat);
      FreeOfLast(flat, ls);
    }
  }

  lemma {:induction false} BuiltAlways(flat: Flat)
    requires Scalars(flat)
    ensures Built(flat, Reconstruct(flat))
    decreases |flat|
  {
    if flat != [] {
      var front := flat[..|flat| - 1];
      BuiltAlways(front);
      PrefixFreeSnoc(flat);
      if Reconstruct(front).Some? {
        BuiltStep(flat, Reconstruct(front).value);
      }
    }
  }

  // ---- back to strings

  lemma {:induction false} PathBelow(parent: string, segs: seq<string>)
    requires parent != "" && segs != []
    ensures PathOf(parent, segs) == parent + "." + Join(segs)
    decreases |segs|
  {
    var sub := SubKey(parent, segs[0]);
    if |segs| == 1 {
      assert PathOf(sub, segs[1..]) == sub;
    } else {
      PathBelow(sub, segs[1..]);
      assert sub + "." + Join(segs[1..]) == parent + "." + (segs[0] + "." + Join(segs[1..]));
    }
  }

  /** From the root, segments spell their own path unless an empty one leads; no path spelt starts with a dot. */
  lemma {:induction false} PathFromRoot(segs: seq<string>)
    requires segs != [] && NoDots(segs)
    ensures segs[0] != "" || |segs| == 1 ==> PathOf("", segs) == Join(segs)
    ensures PathOf("", segs) == "" || PathOf("", segs)[0] != '.'
    decreases |segs|
  {
    if |segs| == 1 {
      assert PathOf(segs[0], segs[1..]) == segs[0];
    } else if segs[0] == "" {
      PathFromRoot(segs[1..]);
    } else {
      PathBelow(segs[0], segs[1..]);
      assert PathOf("", segs)[0] == segs[0][0];
    }
  }

  ghost predicate LeadsWithDot(path: string) { path != "" && path[0] == '.' }

  ghost predicate NoLeadingDots(flat: Flat) {
    forall i :: 0 <= i < |flat| ==> !LeadsWithDot(flat[i].0)
  }

  lemma SpelledBack(path: string)
    ensures !LeadsWithDot(path) ==> PathOf("", Split(path)) == path
    ensures !LeadsWithDot(PathOf("", Split(path)))
  {
    SplitJoin(path);
    PathFromRoot(Split(path));
    if path != "" && path[0] != '.' {
      assert Split(path)[0][0] == path[0];
    }
  }

  lemma NamedPermutes(parent: string, a: seq<Leaf>, b: seq<Leaf>)
    requires multiset(a) == multiset(b)
    ensures multiset(NamedAll(parent, a)) == multiset(NamedAll(parent, b))
  {
    var f := l => Named(parent, l);
    MapPermutes(f, a, b);
    assert NamedAll(parent, a) == Map(f, a) && NamedAll(parent, b) == Map(f, b);
  }

  /** Flattening the reconstructed object gives back exactly the original path-value pairs - whatever
      order they were inserted in - if and only if no path is a prefix of another and none starts with
      a dot. (Empty segments elsewhere do no harm.) */
  lemma FlattenRestoresExactly(flat: Flat)
    requires Scalars(flat) && DistinctPaths(flat)
    ensures (Reconstruct(flat).Some? && multiset(EntryLeaves(Reconstruct(flat).value, "")) == multiset(flat))
       <==> PrefixFree(flat) && NoLeadingDots(flat)
  {
    BuiltAlways(flat);
    if Reconstruct(flat).Some? {
      var e := Reconstruct(flat).value;
      var ls := SegLeaves(e);
      TraversalNames(e, "");
      if |ls| == |flat| {
        NamedPermutes("", ls, SegFlat(flat));
        RootNames(flat);
      } else {
        assert |multiset(EntryLeaves(e, ""))| == |ls|;
        assert |multiset(flat)| == |flat|;
      }
    }
  }

  lemma RootNames(flat: Flat)
    ensures multiset(NamedAll("", SegFlat(flat))) == multiset(flat) <==> NoLeadingDots(flat)
  {
    var named := NamedAll("", SegFlat(flat));
    forall i | 0 <= i < |flat|
      ensures !LeadsWithDot(named[i].0) && (!LeadsWithDot(flat[i].0) ==> named[i] == flat[i])
    {
      SpelledBack(flat[i].0);
    }
    if NoLeadingDots(flat) {
      assert named == flat;
    } else {
      var i :| 0 <= i < |flat| && LeadsWithDot(flat[i].0);
      assert flat[i] in multiset(flat);
      assert flat[i] !in named;
    }
  }

  /** A leading empty segment is lost: ".b" comes back as "b". */
  lemma LeadingDotExample()
    ensures Reconstruct([(".b", Scalar(1))]).Some?
    ensures EntryLeaves(Reconstruct([(".b", Scalar(1))]).value, "") == [("b", Scalar(1))]
  {
    var flat := [(".b", Scalar(1))];
    assert flat[..0] == [];
    assert ".b"[1..] == "b" && "b"[1..] == "";
    assert Split("") == [""];
    assert ['b'] + "" == "b" && [""][1..] == [];
    assert Split("b") == ["b"];
    assert Split(".b") == ["", "b"];
    assert ["", "b"][1..] == ["b"];
    var inner := Cons("b", Scalar(1), Nil);
    assert Insert(Nil, ["b"], Scalar(1)) == Some(inner);
    assert Insert(Nil, ["", "b"], Scalar(1)) == Some(Cons("", Dict(inner), Nil));
    assert EntryLeaves(inner, "") == [("b", Scalar(1))];
  }
}
