/**
 Exactly when forward walks are right, over every run on tables whose rows come from a given domain.

 The code sees key values through its driver: the test for tied neighbours compares Python values, and
 a cursor is compared as the values that come back from JSON. A walk is right when it returns rows in
 strictly increasing order, misses no row that was there throughout, and complains of ties only where
 there are some. `ReliableExactly` says which drivers and domains guarantee this, and that no others do.
 */
module Reliability {
  import opened Common
  import opened Ordering
  import opened SeekPredicate
  import opened PageQuery
  import opened Paginator
  import opened Walks

  /** Rows and their cursors have a value for every key of the ordering. */
  ghost predicate Fitting(drv: Driver, ord: seq<OrderKey>, domain: iset<Row>) {
    forall r :: r in domain ==> |r.keys| == |drv.mark(r)| == |ord|
  }

  ghost predicate Writable(drv: Driver, domain: iset<Row>) {
    forall r :: r in domain ==> drv.writes(r)
  }

  ghost predicate Within(table: set<Row>, domain: iset<Row>) {
    forall r :: r in table ==> r in domain
  }

  ghost predicate VisitsWithin(visits: seq<Visit>, domain: iset<Row>) {
    forall i :: 0 <= i < |visits| ==> Within(visits[i].table, domain)
  }

  // ---- what is promised

  /** What a client is promised of the pages of a walk. */
  ghost predicate Right(ord: seq<OrderKey>, visits: seq<Visit>) {
    && StrictlySorted(ord, Collected(Forward, visits))
    && (Complete(Forward, visits) ==> forall r :: PresentThroughout(r, visits) ==> r in Collected(Forward, visits))
  }

  /** After some visits, a request may fail for non-unique ordering. */
  ghost predicate Complains(drv: Driver, ord: seq<OrderKey>, visits: seq<Visit>, table: set<Row>, limit: nat) {
    var c := Reached(Forward, None, visits);
    && Walk(drv, ord, Forward, None, visits) && (visits != [] ==> c.Some?)
    && CursorFits(c, ord) && Fits(table, ord) && limit >= 1
    && Step(drv, ord, table, limit, c, Err(OrderingNotUnique))
  }

  ghost predicate Reliable(drv: Driver, ord: seq<OrderKey>, domain: iset<Row>) {
    && (forall visits :: Walk(drv, ord, Forward, None, visits) && VisitsWithin(visits, domain) ==> Right(ord, visits))
    && (forall visits, table, limit: nat :: Complains(drv, ord, visits, table, limit) && VisitsWithin(visits, domain) && Within(table, domain) ==>
          !UniqueKeys(table))
  }

  // ---- what it takes

  /** Of two rows in query order the tie test fires exactly if their keys are equal. */
  ghost predicate TellsTies(drv: Driver, ord: seq<OrderKey>, domain: iset<Row>) {
    forall r, s {:trigger drv.tie(r, s)} :: r in domain && s in domain && r != s && !RowBefore(ord, s, r) ==>
      (drv.tie(r, s) <==> r.keys == s.keys)
  }

  ghost predicate IsFollowed(ord: seq<OrderKey>, domain: iset<Row>, r: Row) {
    exists x :: x in domain && RowBefore(ord, r, x)
  }

  /** What the cursor made from `r` reads back as lies where `r` lies, as far as the domain can tell. */
  ghost predicate Resumes(drv: Driver, ord: seq<OrderKey>, domain: iset<Row>, r: Row) {
    forall x :: x in domain ==> (Beyond(ord, Some(Cursor(Forward, Exclusive, drv.mark(r))), x) <==> RowBefore(ord, r, x))
  }

  ghost predicate ResumesEverywhere(drv: Driver, ord: seq<OrderKey>, domain: iset<Row>) {
    forall r :: r in domain && IsFollowed(ord, domain, r) ==> Resumes(drv, ord, domain, r)
  }

  // ---- enough: the walk is the image of an ideal one

  /** The driver that tells ties by the keys themselves and loses nothing of a cursor. */
  function Ideal(drv: Driver): Driver {
    Driver((r: Row, s: Row) => r.keys == s.keys, (r: Row) => r.keys, drv.writes)
  }

  /** Two forward cursors that no row of the domain tells apart. */
  ghost predicate Alike(ord: seq<OrderKey>, domain: iset<Row>, c: Option<Cursor>, c': Option<Cursor>) {
    && CursorFits(c, ord) && CursorFits(c', ord) && CursorDirection(c).Forward? && CursorDirection(c').Forward?
    && (c.Some? <==> c'.Some?)
    && forall x :: x in domain ==> (Beyond(ord, c, x) <==> Beyond(ord, c', x))
  }

  lemma SameWindows(ord: seq<OrderKey>, domain: iset<Row>, table: set<Row>, limit: nat, c: Option<Cursor>, c': Option<Cursor>, w: seq<Row>)
    requires Fits(table, ord) && Within(table, domain) && Alike(ord, domain, c, c')
    requires IsWindow(ord, table, limit, c, w)
    ensures IsWindow(ord, table, limit, c', w)
  {
    SelectedMeaning(ord, table, c);
    SelectedMeaning(ord, table, c');
    assert Selected(ord, table, c) == Selected(ord, table, c');
  }

  lemma SameTest(drv: Driver, ord: seq<OrderKey>, domain: iset<Row>, table: set<Row>, limit: nat, c: Option<Cursor>, w: seq<Row>)
    requires Fits(table, ord) && CursorFits(c, ord) && CursorDirection(c).Forward? && Within(table, domain) && TellsTies(drv, ord, domain)
    requires IsWindow(ord, table, limit, c, w)
    ensures TestFires(drv, w) <==> TestFires(Ideal(drv), w)
  {
    WindowOfTable(ord, table, limit, c, w);
    forall i ensures FiresOnNext(drv, w, i) <==> FiresOnNext(Ideal(drv), w, i) {
      if 0 <= i < |w| - 1 {
        var r, s := w[i], w[i + 1];
        assert r in table && s in table && r != s && !RowBefore(ord, s, r);
      }
    }
  }

  /** In a window the test leaves alone, the last row kept comes strictly before the one left over. */
  lemma LeftOver(ord: seq<OrderKey>, table: set<Row>, limit: nat, c: Option<Cursor>, w: seq<Row>, drv: Driver)
    requires Fits(table, ord) && CursorFits(c, ord) && CursorDirection(c).Forward? && limit >= 1
    requires IsWindow(ord, table, limit, c, w) && |w| > limit && !TestFires(Ideal(drv), w)
    ensures w[limit - 1] in table && w[limit] in table && RowBefore(ord, w[limit - 1], w[limit])
  {
    WindowOfTable(ord, table, limit, c, w);
    assert !FiresOnNext(Ideal(drv), w, limit - 1);
    RowBeforeTotal(ord, w[limit - 1], w[limit]);
  }

  ghost predicate SameShape(p: Page, p': Page) {
    p.items == p'.items && (p.next.Some? <==> p'.next.Some?)
  }

  /** A forward page shows the front of its window; its next cursor is the mark of the last row shown. */
  lemma ForwardAssembly(drv: Driver, w: seq<Row>, limit: nat, c: Option<Cursor>)
    requires CursorDirection(c).Forward? && limit >= 1 && Assemble(drv, w, limit, c).Ok?
    ensures var p := Assemble(drv, w, limit, c).value;
            && p.items == Take(w, limit)
            && p.next == if |w| > limit then Some(Cursor(Forward, Exclusive, drv.mark(w[limit - 1]))) else None
  {
    var items := Take(w, limit);
    if items != [] {
      assert Marked(drv, items)[|items| - 1].keys == drv.mark(items[|items| - 1]);
    }
  }

  lemma NextAlike(drv: Driver, ord: seq<OrderKey>, domain: iset<Row>, last: Row, over: Row)
    requires Fitting(drv, ord, domain) && ResumesEverywhere(drv, ord, domain)
    requires last in domain && over in domain && RowBefore(ord, last, over)
    ensures Alike(ord, domain, Some(Cursor(Forward, Exclusive, drv.mark(last))), Some(Cursor(Forward, Exclusive, last.keys)))
  {
    assert IsFollowed(ord, domain, last) && Resumes(drv, ord, domain, last);
  }

  lemma AssembleAlike(drv: Driver, ord: seq<OrderKey>, domain: iset<Row>, table: set<Row>, limit: nat, c: Option<Cursor>, c': Option<Cursor>, w: seq<Row>, p: Page) returns (p': Page)
    requires Fits(table, ord) && Within(table, domain) && Fitting(drv, ord, domain) && Alike(ord, domain, c, c') && limit >= 1
    requires TellsTies(drv, ord, domain) && ResumesEverywhere(drv, ord, domain)
    requires IsWindow(ord, table, limit, c, w) && Assemble(drv, w, limit, c) == Ok(p)
    ensures Assemble(Ideal(drv), w, limit, c') == Ok(p') && SameShape(p, p')
    ensures p.next.Some? ==> Alike(ord, domain, p.next, p'.next)
  {
    SameTest(drv, ord, domain, table, limit, c, w);
    p' := Assemble(Ideal(drv), w, limit, c').value;
    ForwardAssembly(drv, w, limit, c);
    ForwardAssembly(Ideal(drv), w, limit, c');
    if |w| > limit {
      LeftOver(ord, table, limit, c, w, drv);
      NextAlike(drv, ord, domain, w[limit - 1], w[limit]);
    }
  }

  lemma StepAlike(drv: Driver, ord: seq<OrderKey>, domain: iset<Row>, table: set<Row>, limit: nat, c: Option<Cursor>, c': Option<Cursor>, p: Page) returns (p': Page)
    requires Fits(table, ord) && Within(table, domain) && Fitting(drv, ord, domain) && Alike(ord, domain, c, c') && limit >= 1
    requires TellsTies(drv, ord, domain) && ResumesEverywhere(drv, ord, domain)
    requires Step(drv, ord, table, limit, c, Ok(p))
    ensures Step(Ideal(drv), ord, table, limit, c', Ok(p')) && SameShape(p, p')
    ensures p.next.Some? ==> Alike(ord, domain, p.next, p'.next)
  {
    assert LookInside(true);
    var w: seq<Row> :| IsWindow(ord, table, limit, c, w) && Ok(p) == Assemble(drv, w, limit, c);
    SameWindows(ord, domain, table, limit, c, c', w);
    p' := AssembleAlike(drv, ord, domain, table, limit, c, c', w, p);
  }

  lemma ErrorAlike(drv: Driver, ord: seq<OrderKey>, domain: iset<Row>, table: set<Row>, limit: nat, c: Option<Cursor>, c': Option<Cursor>)
    requires Fits(table, ord) && Within(table, domain) && Fitting(drv, ord, domain) && Alike(ord, domain, c, c')
    requires TellsTies(drv, ord, domain)
    requires Step(drv, ord, table, limit, c, Err(OrderingNotUnique))
    ensures !UniqueKeys(table)
  {
    assert LookInside(true);
    var w: seq<Row> :| IsWindow(ord, table, limit, c, w) && Err(OrderingNotUnique) == Assemble(drv, w, limit, c);
    SameWindows(ord, domain, table, limit, c, c', w);
    SameTest(drv, ord, domain, table, limit, c, w);
    assert Assemble(Ideal(drv), w, limit, c') == Err(OrderingNotUnique);
    ErrorMeansTie(Ideal(drv), ord, table, limit, c', OrderingNotUnique);
  }

  ghost predicate SameVisit(v: Visit, v': Visit) {
    v.table == v'.table && v.limit == v'.limit && SameShape(v.page, v'.page)
  }

  ghost predicate SameVisits(vs: seq<Visit>, vs': seq<Visit>) {
    |vs| == |vs'| && forall i :: 0 <= i < |vs| ==> SameVisit(vs[i], vs'[i])
  }

  lemma SameVisitsCons(vs: seq<Visit>, v': Visit, rest': seq<Visit>)
    requires vs != [] && SameVisit(vs[0], v') && SameVisits(vs[1..], rest')
    ensures SameVisits(vs, [v'] + rest')
  {
    forall i | 0 <= i < |vs| ensures SameVisit(vs[i], ([v'] + rest')[i]) {
      if i > 0 {
        assert SameVisit(vs[1..][i - 1], rest'[i - 1]);
      }
    }
  }

  lemma {:induction false} WalkAlike(drv: Driver, ord: seq<OrderKey>, domain: iset<Row>, c: Option<Cursor>, c': Option<Cursor>, vs: seq<Visit>) returns (vs': seq<Visit>)
    requires Fitting(drv, ord, domain) && TellsTies(drv, ord, domain) && ResumesEverywhere(drv, ord, domain)
    requires Walk(drv, ord, Forward, c, vs) && VisitsWithin(vs, domain) && Alike(ord, domain, c, c')
    ensures Walk(Ideal(drv), ord, Forward, c', vs') && SameVisits(vs, vs')
    ensures vs != [] && Reached(Forward, c, vs).Some? ==> Alike(ord, domain, Reached(Forward, c, vs), Reached(Forward, c', vs'))
    decreases |vs|
  {
    vs' := [];
    if vs != [] {
      var v, rest := vs[0], vs[1..];
      assert Within(v.table, domain);
      var p' := StepAlike(drv, ord, domain, v.table, v.limit, c, c', v.page);
      var v' := Visit(v.table, v.limit, p');
      var rest': seq<Visit> := [];
      if rest != [] {
        assert forall i :: 0 <= i < |rest| ==> rest[i] == vs[i + 1];
        rest' := WalkAlike(drv, ord, domain, v.page.next, p'.next, rest);
        ReachedLater(Forward, c, vs);
      }
      WalkCons(Ideal(drv), ord, Forward, c', v', rest');
      vs' := [v'] + rest';
      SameVisitsCons(vs, v', rest');
      if rest != [] {
        assert vs'[1..] == rest';
        ReachedLater(Forward, c', vs');
      }
    }
  }

  lemma {:induction false} SameCollected(vs: seq<Visit>, vs': seq<Visit>)
    requires SameVisits(vs, vs')
    ensures Collected(Forward, vs) == Collected(Forward, vs')
  {
    if vs != [] {
      assert SameVisit(vs[0], vs'[0]);
      assert forall i :: 0 <= i < |vs| - 1 ==> vs[1..][i] == vs[i + 1] && vs'[1..][i] == vs'[i + 1];
      SameCollected(vs[1..], vs'[1..]);
    }
  }

  lemma EnoughForWalks(drv: Driver, ord: seq<OrderKey>, domain: iset<Row>, vs: seq<Visit>)
    requires Fitting(drv, ord, domain) && TellsTies(drv, ord, domain) && ResumesEverywhere(drv, ord, domain)
    requires Walk(drv, ord, Forward, None, vs) && VisitsWithin(vs, domain)
    ensures Right(ord, vs)
  {
    var vs' := WalkAlike(drv, ord, domain, None, None, vs);
    SameCollected(vs, vs');
    assert ExactVisits(Ideal(drv), vs');
    WalkIsStrictlySorted(Ideal(drv), ord, Forward, None, vs');
    if Complete(Forward, vs) {
      assert SameVisit(vs[|vs| - 1], vs'[|vs| - 1]);
      forall r | PresentThroughout(r, vs) ensures r in Collected(Forward, vs) {
        assert forall i :: 0 <= i < |vs| ==> SameVisit(vs[i], vs'[i]);
        assert PresentThroughout(r, vs');
        CompleteWalkMissesNothing(Ideal(drv), ord, Forward, None, vs', r);
      }
    }
  }

  lemma EnoughForErrors(drv: Driver, ord: seq<OrderKey>, domain: iset<Row>, vs: seq<Visit>, table: set<Row>, limit: nat)
    requires Fitting(drv, ord, domain) && TellsTies(drv, ord, domain) && ResumesEverywhere(drv, ord, domain)
    requires Complains(drv, ord, vs, table, limit) && VisitsWithin(vs, domain) && Within(table, domain)
    ensures !UniqueKeys(table)
  {
    var vs' := WalkAlike(drv, ord, domain, None, None, vs);
    ErrorAlike(drv, ord, domain, table, limit, Reached(Forward, None, vs), Reached(Forward, None, vs'));
  }

  // ---- needed: each fault shows in a walk of at most two pages

  /** Two rows in query order may be fetched in that order. */
  lemma PairWindow(ord: seq<OrderKey>, r: Row, s: Row)
    requires |r.keys| == |s.keys| == |ord| && r != s && !RowBefore(ord, s, r)
    ensures IsWindow(ord, {r, s}, 1, None, [r, s])
  {
    assert |{r, s}| == 2;
    RowBeforeTotal(ord, r, r);
  }

  /** A first page of one row, with a second row to come. */
  lemma FirstOfTwo(drv: Driver, ord: seq<OrderKey>, r: Row, s: Row) returns (v: Visit)
    requires |r.keys| == |s.keys| == |ord| && r != s && !RowBefore(ord, s, r)
    requires drv.writes(r) && drv.writes(s) && !drv.tie(r, s)
    ensures v == Visit({r, s}, 1, Page([r], Some(Cursor(Forward, Exclusive, drv.mark(r))), None))
    ensures Serves(drv, ord, Forward, None, v)
  {
    v := Visit({r, s}, 1, Page([r], Some(Cursor(Forward, Exclusive, drv.mark(r))), None));
    var w := [r, s];
    PairWindow(ord, r, s);
    forall i ensures !FiresOnNext(drv, w, i) {
    }
    assert Take(w, 1) == [r];
    assert Assemble(drv, w, 1, None) == Ok(v.page);
    assert Step(drv, ord, {r, s}, 1, None, Ok(v.page));
  }

  /** A page over a table that lies wholly behind the cursor is empty. */
  lemma NothingLeft(drv: Driver, ord: seq<OrderKey>, table: set<Row>, c: Cursor) returns (v: Visit)
    requires Fits(table, ord) && |c.values| == |ord| && c.direction.Forward? && c.boundary.Exclusive?
    requires forall x :: x in table ==> !Beyond(ord, Some(c), x)
    ensures v.table == table && v.page.items == [] && v.page.next.None?
    ensures Serves(drv, ord, Forward, Some(c), v)
  {
    SelectedMeaning(ord, table, Some(c));
    assert Selected(ord, table, Some(c)) == {};
    assert IsWindow(ord, table, 1, Some(c), []);
    forall i ensures !FiresOnNext(drv, [], i) {
    }
    var out := Assemble(drv, [], 1, Some(c));
    v := Visit(table, 1, out.value);
    assert Step(drv, ord, table, 1, Some(c), out);
  }

  /** A page over a table with a single row, beyond the cursor. */
  lemma OneLeft(drv: Driver, ord: seq<OrderKey>, y: Row, c: Cursor) returns (v: Visit)
    requires |y.keys| == |c.values| == |ord| && c.direction.Forward? && drv.writes(y)
    requires Beyond(ord, Some(c), y)
    ensures v.table == {y} && v.page.items == [y] && v.page.next.None?
    ensures Serves(drv, ord, Forward, Some(c), v)
  {
    var w := [y];
    SelectedMeaning(ord, {y}, Some(c));
    assert Selected(ord, {y}, Some(c)) == {y};
    RowBeforeTotal(ord, y, y);
    assert IsWindow(ord, {y}, 1, Some(c), w);
    forall i ensures !FiresOnNext(drv, w, i) {
    }
    assert Take(w, 1) == w;
    var out := Assemble(drv, w, 1, Some(c));
    v := Visit({y}, 1, out.value);
    assert Step(drv, ord, {y}, 1, Some(c), out);
  }

  /** Two visits, the second with the cursor of the first. */
  lemma TwoPages(drv: Driver, ord: seq<OrderKey>, v1: Visit, v2: Visit)
    requires Serves(drv, ord, Forward, None, v1) && v1.page.next.Some? && Serves(drv, ord, Forward, v1.page.next, v2)
    ensures Walk(drv, ord, Forward, None, [v1, v2])
    ensures Collected(Forward, [v1, v2]) == v1.page.items + v2.page.items
  {
    WalkCons(drv, ord, Forward, v1.page.next, v2, []);
    WalkCons(drv, ord, Forward, None, v1, [v2]);
    assert [v2] + [] == [v2] && [v1] + [v2] == [v1, v2];
    assert [v1, v2][1..] == [v2] && [v2][1..] == [];
    assert Collected(Forward, [v2]) == v2.page.items + Collected(Forward, []);
    assert Collected(Forward, [v1, v2]) == v1.page.items + Collected(Forward, [v2]);
  }

  /** A row that the walk steps over: the cursor after `r` reads back as a place `y` is not beyond. Deleting `r`
      between the requests changes nothing. */
  lemma LostRow(drv: Driver, ord: seq<OrderKey>, r: Row, y: Row, later: set<Row>) returns (visits: seq<Visit>)
    requires |r.keys| == |y.keys| == |drv.mark(r)| == |ord| && r != y && !RowBefore(ord, y, r)
    requires drv.writes(r) && drv.writes(y) && !drv.tie(r, y)
    requires y in later && later <= {r, y}
    requires forall x :: x in later ==> !Beyond(ord, Some(Cursor(Forward, Exclusive, drv.mark(r))), x)
    ensures Walk(drv, ord, Forward, None, visits) && Complete(Forward, visits)
    ensures |visits| == 2 && visits[0].table == {r, y} && visits[1].table == later
    ensures Collected(Forward, visits) == [r] && PresentThroughout(y, visits) && !Right(ord, visits)
  {
    var v1 := FirstOfTwo(drv, ord, r, y);
    var v2 := NothingLeft(drv, ord, later, v1.page.next.value);
    TwoPages(drv, ord, v1, v2);
    visits := [v1, v2];
    assert PresentThroughout(y, visits) && y !in [r];
  }

  /** A row that the walk comes to although it does not lie after the page before. */
  lemma OutOfPlace(drv: Driver, ord: seq<OrderKey>, r: Row, x: Row, y: Row) returns (visits: seq<Visit>)
    requires |r.keys| == |x.keys| == |y.keys| == |drv.mark(r)| == |ord| && r != x && !RowBefore(ord, x, r)
    requires drv.writes(r) && drv.writes(x) && drv.writes(y) && !drv.tie(r, x)
    requires Beyond(ord, Some(Cursor(Forward, Exclusive, drv.mark(r))), y) && !RowBefore(ord, r, y)
    ensures Walk(drv, ord, Forward, None, visits)
    ensures |visits| == 2 && visits[0].table == {r, x} && visits[1].table == {y}
    ensures Collected(Forward, visits) == [r, y] && !Right(ord, visits)
  {
    var v1 := FirstOfTwo(drv, ord, r, x);
    var v2 := OneLeft(drv, ord, y, v1.page.next.value);
    TwoPages(drv, ord, v1, v2);
    visits := [v1, v2];
    assert [r, y][0] == r && [r, y][1] == y;
  }

  /** Two rows, in query order, that the test takes for tied. */
  lemma TakenForTied(drv: Driver, ord: seq<OrderKey>, r: Row, s: Row)
    requires |r.keys| == |s.keys| == |ord| && r != s && !RowBefore(ord, s, r)
    requires drv.writes(r) && drv.writes(s) && drv.tie(r, s)
    ensures Complains(drv, ord, [], {r, s}, 1)
  {
    PairWindow(ord, r, s);
    assert FiresOnNext(drv, [r, s], 0);
    assert Assemble(drv, [r, s], 1, None) == Err(OrderingNotUnique);
  }

  lemma WrongWalk(drv: Driver, ord: seq<OrderKey>, domain: iset<Row>, visits: seq<Visit>)
    requires Walk(drv, ord, Forward, None, visits) && VisitsWithin(visits, domain) && !Right(ord, visits)
    ensures !Reliable(drv, ord, domain)
  {
  }

  lemma TieFault(drv: Driver, ord: seq<OrderKey>, domain: iset<Row>, r: Row, s: Row)
    requires Fitting(drv, ord, domain) && Writable(drv, domain)
    requires r in domain && s in domain && r != s && !RowBefore(ord, s, r)
    requires drv.tie(r, s) != (r.keys == s.keys)
    ensures !Reliable(drv, ord, domain)
  {
    if drv.tie(r, s) {
      TakenForTied(drv, ord, r, s);
      assert VisitsWithin([], domain) && Within({r, s}, domain) && UniqueKeys({r, s});
    } else {
      RowBeforeTotal(ord, r, s);
      var visits;
      if Beyond(ord, Some(Cursor(Forward, Exclusive, drv.mark(r))), s) {
        visits := OutOfPlace(drv, ord, r, s, s);
      } else {
        visits := LostRow(drv, ord, r, s, {s});
      }
      WrongWalk(drv, ord, domain, visits);
    }
  }

  lemma MarkFault(drv: Driver, ord: seq<OrderKey>, domain: iset<Row>, r: Row, x: Row, y: Row)
    requires Fitting(drv, ord, domain) && Writable(drv, domain) && TellsTies(drv, ord, domain)
    requires r in domain && x in domain && y in domain && RowBefore(ord, r, x)
    requires Beyond(ord, Some(Cursor(Forward, Exclusive, drv.mark(r))), y) != RowBefore(ord, r, y)
    ensures !Reliable(drv, ord, domain)
  {
    RowBeforeTotal(ord, r, x);
    RowBeforeTotal(ord, r, y);
    var visits;
    if RowBefore(ord, r, y) {
      assert !drv.tie(r, y);
      visits := LostRow(drv, ord, r, y, {y});
    } else {
      assert !drv.tie(r, x);
      visits := OutOfPlace(drv, ord, r, x, y);
    }
    WrongWalk(drv, ord, domain, visits);
  }

  /** Every forward walk over tables from the domain, under every interleaving with inserts and deletes,
      is right if and only if the tie test tells apart the rows the database tells apart and no others,
      and each cursor with rows still to come reads back as a place where its row lies. (Rows that cannot
      be serialised stop every request that meets them.) */
  lemma ReliableExactly(drv: Driver, ord: seq<OrderKey>, domain: iset<Row>)
    requires Fitting(drv, ord, domain) && Writable(drv, domain)
    ensures Reliable(drv, ord, domain) <==> TellsTies(drv, ord, domain) && ResumesEverywhere(drv, ord, domain)
  {
    if !TellsTies(drv, ord, domain) {
      var r, s :| r in domain && s in domain && r != s && !RowBefore(ord, s, r) && drv.tie(r, s) != (r.keys == s.keys);
      TieFault(drv, ord, domain, r, s);
    } else if !ResumesEverywhere(drv, ord, domain) {
      var r :| r in domain && IsFollowed(ord, domain, r) && !Resumes(drv, ord, domain, r);
      var x :| x in domain && RowBefore(ord, r, x);
      var y :| y in domain && Beyond(ord, Some(Cursor(Forward, Exclusive, drv.mark(r))), y) != RowBefore(ord, r, y);
      MarkFault(drv, ord, domain, r, x, y);
    } else {
      forall visits | Walk(drv, ord, Forward, None, visits) && VisitsWithin(visits, domain) ensures Right(ord, visits) {
        EnoughForWalks(drv, ord, domain, visits);
      }
      forall visits, table, limit: nat | Complains(drv, ord, visits, table, limit) && VisitsWithin(visits, domain) && Within(table, domain)
        ensures !UniqueKeys(table)
      {
        EnoughForErrors(drv, ord, domain, visits, table, limit);
      }
    }
  }
}
