/**
 Pagination as a client sees it: string tokens in, items and string tokens out. Every walk over
 tokens is a walk over decoded cursors with the driver that the codec's adapters make up, so what
 holds of those holds of what clients receive.
 */
module TokenWalks {
  import opened Common
  import opened Ordering
  import opened SeekPredicate
  import opened FetchedValues
  import opened PageQuery
  import opened Paginator
  import opened Walks
  import opened Reliability
  import opened CursorCodec

  datatype TokenPage = TokenPage(items: seq<Row>, next: Option<string>, prev: Option<string>)

  datatype RequestError = BadCursor(reason: CursorError) | BadQuery(fault: ConfigurationError) | BadEncoding(cause: EncodeError)

  /** The token, if any, decodes to the continuation. */
  ghost predicate Opens(cd: Codec, token: Option<string>, k: Option<Continuation>) {
    (token.None? && k.None?) ||
    (token.Some? && k.Some? && DecodeCursor(cd, token.value) == Ok(k.value))
  }

  /** A continuation as the query sees it: its values as bind parameters. */
  function CursorOf(cd: Codec, k: Option<Continuation>): Option<Cursor>
    requires k.Some? ==> |k.value.values| == |cd.adapters|
  {
    if k.None? then None else Some(Cursor(k.value.direction, k.value.boundary, Bound(cd.adapters, k.value.values)))
  }

  /** What is encoded for a cursor of a page: the key values of the row it stands at, or the values
      of the request's own cursor if the page is empty. */
  function Continued(cd: Codec, k: Option<Continuation>, cursor: Option<Cursor>, row: Option<Row>): Option<Continuation> {
    if cursor.None? || (row.None? && k.None?) then None
    else Some(Continuation(cursor.value.direction, cursor.value.boundary,
                           if row.Some? then ValuesOf(cd.adapters, row.value) else k.value.values))
  }

  function LastRow(p: Page): Option<Row> { if p.items == [] then None else Some(p.items[|p.items| - 1]) }

  function FirstRow(p: Page): Option<Row> { if p.items == [] then None else Some(p.items[0]) }

  /** The token is the encoding of the continuation. */
  ghost predicate Issued(cd: Codec, k: Option<Continuation>, token: Option<string>) {
    (token.None? && k.None?) ||
    (token.Some? && k.Some? && |k.value.values| == |cd.adapters| && EncodeCursor(cd, k.value) == Ok(token.value))
  }

  ghost predicate Shows(cd: Codec, k: Option<Continuation>, p: Page, tp: TokenPage) {
    && tp.items == p.items
    && Issued(cd, Continued(cd, k, p.next, LastRow(p)), tp.next)
    && Issued(cd, Continued(cd, k, p.prev, FirstRow(p)), tp.prev)
  }

  /** A page answers a request whose token opens to the continuation. */
  ghost predicate Answers(cd: Codec, ord: seq<OrderKey>, table: set<Row>, limit: nat, k: Option<Continuation>, p: Page)
    requires Fits(table, ord)
  {
    && (k.Some? ==> |k.value.values| == |cd.adapters| == |ord|)
    && Step(DriverOf(cd.adapters), ord, table, limit, CursorOf(cd, k), Ok(p))
  }

  /** A request with a token may be answered by the token page. */
  ghost predicate TokenStep(cd: Codec, ord: seq<OrderKey>, table: set<Row>, limit: nat, token: Option<string>, tp: TokenPage)
    requires Fits(table, ord)
  {
    exists k, p :: Opens(cd, token, k) && Answers(cd, ord, table, limit, k, p) && Shows(cd, k, p, tp)
  }

  method Issue(cd: Codec, k: Option<Continuation>) returns (r: Result<Option<string>, EncodeError>)
    requires k.Some? ==> |k.value.values| == |cd.adapters|
    ensures r.Ok? ==> Issued(cd, k, r.value)
    ensures r.Err? ==> k.Some? && EncodeCursor(cd, k.value) == Err(r.error)
  {
    if k.None? {
      return Ok(None);
    }
    match EncodeCursor(cd, k.value) {
      case Ok(t) => return Ok(Some(t));
      case Err(e) => return Err(e);
    }
  }

  method IssuePage(cd: Codec, k: Option<Continuation>, p: Page) returns (r: Result<TokenPage, EncodeError>)
    requires k.Some? ==> |k.value.values| == |cd.adapters|
    ensures r.Ok? ==> Shows(cd, k, p, r.value)
    ensures r.Err? ==> RefusedFor(cd, k, p, r.error)
  {
    var next := Issue(cd, Continued(cd, k, p.next, LastRow(p)));
    if next.Err? {
      return Err(next.error);
    }
    var prev := Issue(cd, Continued(cd, k, p.prev, FirstRow(p)));
    if prev.Err? {
      return Err(prev.error);
    }
    return Ok(TokenPage(p.items, next.value, prev.value));
  }

  ghost predicate Refused(cd: Codec, k: Option<Continuation>, e: EncodeError) {
    k.Some? && |k.value.values| == |cd.adapters| && EncodeCursor(cd, k.value) == Err(e)
  }

  ghost predicate RefusedFor(cd: Codec, k: Option<Continuation>, p: Page, e: EncodeError) {
    Refused(cd, Continued(cd, k, p.next, LastRow(p)), e) || Refused(cd, Continued(cd, k, p.prev, FirstRow(p)), e)
  }

  /** What a request with a token, an allowed limit and an ordering may end in. */
  ghost predicate Ends(cd: Codec, ord: seq<OrderKey>, table: set<Row>, limit: nat, token: Option<string>, r: Result<TokenPage, RequestError>)
    requires Fits(table, ord) && |cd.adapters| == |ord|
  {
    match r
    case Ok(tp) => TokenStep(cd, ord, table, limit, token, tp)
    case Err(BadCursor(e)) => token.Some? && DecodeCursor(cd, token.value) == Err(e)
    case Err(BadQuery(e)) =>
      exists k :: Opens(cd, token, k) && (k.Some? ==> |k.value.values| == |ord|)
                  && Step(DriverOf(cd.adapters), ord, table, limit, CursorOf(cd, k), Err(e))
    case Err(BadEncoding(e)) =>
      exists k, p :: Opens(cd, token, k) && Answers(cd, ord, table, limit, k, p) && RefusedFor(cd, k, p, e)
  }

  /** One request: every fetched row is serialised, so a key value that cannot be is an error wherever
      in the window it stands; a token that is too long is one only when it is issued. */
  method PaginateTokens(cd: Codec, ord: seq<OrderKey>, table: set<Row>, limit: int, token: Option<string>) returns (r: Result<TokenPage, RequestError>)
    requires Fits(table, ord) && |cd.adapters| == |ord|
    ensures r == Err(BadQuery(LimitOutOfBounds)) <==> !(1 <= limit <= 200)
    ensures r == Err(BadQuery(NoOrdering)) <==> 1 <= limit <= 200 && ord == []
    ensures 1 <= limit <= 200 && ord != [] ==> Ends(cd, ord, table, limit, token, r)
    ensures 1 <= limit <= 200 && ord != [] && token.Some? && DecodeCursor(cd, token.value).Err? ==>
              r == Err(BadCursor(DecodeCursor(cd, token.value).error))
  {
    var k: Option<Continuation> := None;
    if LIMIT_MIN <= limit <= LIMIT_CURSOR_MAX && ord != [] && token.Some? {
      match DecodeCursor(cd, token.value) {
        case Err(e) => return Err(BadCursor(e));
        case Ok(c) => k := Some(c);
      }
    }
    var out := Paginate(DriverOf(cd.adapters), ord, table, limit, CursorOf(cd, k));
    match out {
      case Err(e) => return Err(BadQuery(e));
      case Ok(p) =>
        assert Answers(cd, ord, table, limit, k, p);
        var answer := IssuePage(cd, k, p);
        match answer {
          case Err(e) => return Err(BadEncoding(e));
          case Ok(tp) => return Ok(tp);
        }
    }
  }

  // ---- walks over tokens

  datatype TokenVisit = TokenVisit(table: set<Row>, limit: nat, page: TokenPage)

  function OnwardToken(d: Direction, tp: TokenPage): Option<string> {
    if d.Forward? then tp.next else tp.prev
  }

  ghost predicate TokenWalk(cd: Codec, ord: seq<OrderKey>, d: Direction, token: Option<string>, visits: seq<TokenVisit>)
    decreases |visits|
  {
    visits == [] ||
    var v := visits[0];
    && Fits(v.table, ord) && v.limit >= 1
    && TokenStep(cd, ord, v.table, v.limit, token, v.page)
    && (|visits| > 1 ==> OnwardToken(d, v.page).Some?)
    && TokenWalk(cd, ord, d, OnwardToken(d, v.page), visits[1..])
  }

  ghost predicate Mirrors(tv: TokenVisit, v: Visit, d: Direction) {
    && v.table == tv.table && v.limit == tv.limit && v.page.items == tv.page.items
    && (Onward(d, v.page).Some? <==> OnwardToken(d, tv.page).Some?)
  }

  lemma OnwardPoint(marked: seq<Row>, hasMore: bool, cursor: Option<Cursor>)
    ensures var d, cursors := CursorDirection(cursor), Neighbours(marked, hasMore, cursor);
            var onward := if d.Forward? then cursors.0 else cursors.1;
            onward.Some? ==>
              && marked != []
              && onward == Some(Cursor(d, Exclusive, (if d.Forward? then marked[|marked| - 1] else marked[0]).keys))
  {
  }

  /** An onward cursor stands at a row of its page: the last going forward, the first going backward. */
  lemma OnwardMark(drv: Driver, ord: seq<OrderKey>, table: set<Row>, limit: nat, cursor: Option<Cursor>, p: Page)
    requires Fits(table, ord) && CursorFits(cursor, ord)
    requires Step(drv, ord, table, limit, cursor, Ok(p))
    ensures var d := CursorDirection(cursor);
            Onward(d, p).Some? ==>
              && p.items != []
              && Onward(d, p) == Some(Cursor(d, Exclusive, drv.mark(if d.Forward? then p.items[|p.items| - 1] else p.items[0])))
  {
    assert LookInside(true);
    var w: seq<Row> :| IsWindow(ord, table, limit, cursor, w) && Ok(p) == Assemble(drv, w, limit, cursor);
    OnwardPoint(Marked(drv, p.items), |w| > limit, cursor);
  }

  /** A token that was issued for a row and opens, opens to the mark of the row. */
  lemma OpensToMark(cd: Codec, d: Direction, r: Row, token: string, k: Continuation)
    requires ParsesBack(cd)
    requires EncodeCursor(cd, Continuation(d, Exclusive, ValuesOf(cd.adapters, r))) == Ok(token)
    requires DecodeCursor(cd, token) == Ok(k)
    ensures |k.values| == |cd.adapters|
    ensures CursorOf(cd, Some(k)) == Some(Cursor(d, Exclusive, DriverOf(cd.adapters).mark(r)))
  {
    DecodeOpened(cd, Continuation(d, Exclusive, ValuesOf(cd.adapters, r)));
    assert ReadBack(cd.adapters, r) == Some(k.values);
  }

  lemma OnwardOpens(cd: Codec, ord: seq<OrderKey>, table: set<Row>, limit: nat, k: Option<Continuation>, p: Page, tp: TokenPage, k': Option<Continuation>)
    requires ParsesBack(cd) && Fits(table, ord) && Answers(cd, ord, table, limit, k, p) && Shows(cd, k, p, tp)
    requires Opens(cd, OnwardToken(CursorDirection(CursorOf(cd, k)), tp), k')
    ensures k'.Some? ==> |k'.value.values| == |cd.adapters|
    ensures CursorOf(cd, k') == Onward(CursorDirection(CursorOf(cd, k)), p)
  {
    var d := CursorDirection(CursorOf(cd, k));
    OnwardMark(DriverOf(cd.adapters), ord, table, limit, CursorOf(cd, k), p);
    if Onward(d, p).Some? {
      var r := if d.Forward? then p.items[|p.items| - 1] else p.items[0];
      OpensToMark(cd, d, r, OnwardToken(d, tp).value, k'.value);
    }
  }

  /** What the decoder makes of a token that stands for `cursor` of a page: the same direction and
      boundary, and values that are bound to the cursor's - where the page has a row to take them from,
      or the request's own values survive being written again. A token it refuses could not be read back. */
  ghost predicate Leads(cd: Codec, k: Option<Continuation>, cursor: Option<Cursor>, row: Option<Row>, token: Option<string>) {
    && (token.Some? <==> cursor.Some?)
    && (token.Some? ==>
          match DecodeCursor(cd, token.value)
          case Err(e) =>
            && e == InvalidCursor
            && if row.Some? then ReadBack(cd.adapters, row.value).None? else k.Some? && !FaithfulTuple(cd.adapters, k.value.values)
          case Ok(k') =>
            && |k'.values| == |cd.adapters|
            && k'.direction == cursor.value.direction && k'.boundary == cursor.value.boundary
            && (row.Some? || (k.Some? && FaithfulTuple(cd.adapters, k.value.values)) ==>
                  Bound(cd.adapters, k'.values) == cursor.value.values && CursorOf(cd, Some(k')) == cursor))
  }

  lemma TokenLeads(cd: Codec, k: Option<Continuation>, cursor: Option<Cursor>, row: Option<Row>, token: Option<string>)
    requires ParsesBack(cd) && (k.Some? ==> |k.value.values| == |cd.adapters|) && (cursor.Some? && row.None? ==> k.Some?)
    requires Issued(cd, Continued(cd, k, cursor, row), token)
    requires cursor.Some? ==>
               cursor.value.values == if row.Some? then DriverOf(cd.adapters).mark(row.value) else Bound(cd.adapters, k.value.values)
    ensures Leads(cd, k, cursor, row, token)
  {
    if cursor.Some? {
      var written := Continued(cd, k, cursor, row).value;
      DecodeOpened(cd, written);
      CursorRoundTrip(cd, written);
    }
  }

  /** Both tokens of an answered page, whichever way it was reached and also when it is empty, lead where
      the page's own cursors do. */
  lemma TokensLead(cd: Codec, ord: seq<OrderKey>, table: set<Row>, limit: nat, k: Option<Continuation>, p: Page, tp: TokenPage)
    requires ParsesBack(cd) && Fits(table, ord) && Answers(cd, ord, table, limit, k, p) && Shows(cd, k, p, tp)
    ensures Leads(cd, k, p.next, if p.items == [] then None else Some(p.items[|p.items| - 1]), tp.next)
    ensures Leads(cd, k, p.prev, if p.items == [] then None else Some(p.items[0]), tp.prev)
  {
    var w := PageInFull(DriverOf(cd.adapters), ord, table, limit, CursorOf(cd, k), p);
    TokenLeads(cd, k, p.next, LastRow(p), tp.next);
    TokenLeads(cd, k, p.prev, FirstRow(p), tp.prev);
  }

  /** A cursor is shown as a token and no token is made up. */
  lemma OnwardShown(cd: Codec, ord: seq<OrderKey>, table: set<Row>, limit: nat, k: Option<Continuation>, p: Page, tp: TokenPage)
    requires Fits(table, ord) && Answers(cd, ord, table, limit, k, p) && Shows(cd, k, p, tp)
    ensures var d := CursorDirection(CursorOf(cd, k));
            Onward(d, p).Some? <==> OnwardToken(d, tp).Some?
  {
    OnwardMark(DriverOf(cd.adapters), ord, table, limit, CursorOf(cd, k), p);
  }

  lemma MirrorsCons(tvs: seq<TokenVisit>, v: Visit, rest: seq<Visit>, d: Direction)
    requires |tvs| == |rest| + 1 && Mirrors(tvs[0], v, d)
    requires forall i :: 0 <= i < |rest| ==> Mirrors(tvs[1..][i], rest[i], d)
    ensures forall i :: 0 <= i < |rest| + 1 ==> Mirrors(tvs[i], ([v] + rest)[i], d)
  {
    forall i | 0 <= i < |rest| + 1 ensures Mirrors(tvs[i], ([v] + rest)[i], d) {
      if i > 0 {
        assert tvs[i] == tvs[1..][i - 1];
      }
    }
  }

  /** The step behind a token page. */
  lemma StepBehindToken(cd: Codec, ord: seq<OrderKey>, table: set<Row>, limit: nat, token: Option<string>, k: Option<Continuation>, tp: TokenPage) returns (p: Page)
    requires Fits(table, ord) && Opens(cd, token, k) && TokenStep(cd, ord, table, limit, token, tp)
    ensures Answers(cd, ord, table, limit, k, p) && Shows(cd, k, p, tp)
  {
    var c, q :| Opens(cd, token, c) && Answers(cd, ord, table, limit, c, q) && Shows(cd, c, q, tp);
    assert c == k;
    p := q;
  }

  /** What the token of the next visit opens to. */
  lemma NextOpens(cd: Codec, ord: seq<OrderKey>, d: Direction, token: Option<string>, tvs: seq<TokenVisit>) returns (k: Option<Continuation>)
    requires TokenWalk(cd, ord, d, token, tvs) && tvs != []
    ensures Opens(cd, token, k)
  {
    var v := tvs[0];
    var c, p :| Opens(cd, token, c) && Answers(cd, ord, v.table, v.limit, c, p) && Shows(cd, c, p, v.page);
    k := c;
  }

  /** Every walk over tokens is the image of a walk over cursors: same tables, limits and items, ending
      at the same time. Nothing is asked of the adapters: what they lose is lost in both. */
  lemma {:induction false} TokenWalkIsWalk(cd: Codec, ord: seq<OrderKey>, d: Direction, token: Option<string>, k: Option<Continuation>, tvs: seq<TokenVisit>) returns (vs: seq<Visit>)
    requires ParsesBack(cd) && Opens(cd, token, k) && (k.Some? ==> |k.value.values| == |cd.adapters| == |ord|)
    requires CursorDirection(CursorOf(cd, k)) == d
    requires TokenWalk(cd, ord, d, token, tvs)
    ensures |vs| == |tvs| && forall i :: 0 <= i < |vs| ==> Mirrors(tvs[i], vs[i], d)
    ensures Walk(DriverOf(cd.adapters), ord, d, CursorOf(cd, k), vs)
    decreases |tvs|
  {
    vs := [];
    if tvs != [] {
      var tv := tvs[0];
      var p := StepBehindToken(cd, ord, tv.table, tv.limit, token, k, tv.page);
      OnwardShown(cd, ord, tv.table, tv.limit, k, p, tv.page);
      var v := Visit(tv.table, tv.limit, p);
      var rest: seq<Visit> := [];
      if |tvs| > 1 {
        var k' := NextOpens(cd, ord, d, OnwardToken(d, tv.page), tvs[1..]);
        OnwardOpens(cd, ord, tv.table, tv.limit, k, p, tv.page, k');
        OnwardMark(DriverOf(cd.adapters), ord, tv.table, tv.limit, CursorOf(cd, k), p);
        rest := TokenWalkIsWalk(cd, ord, d, OnwardToken(d, tv.page), k', tvs[1..]);
      }
      WalkCons(DriverOf(cd.adapters), ord, d, CursorOf(cd, k), v, rest);
      vs := [v] + rest;
      MirrorsCons(tvs, v, rest, d);
    }
  }

  ghost function Items(tvs: seq<TokenVisit>): seq<Row> {
    if tvs == [] then [] else tvs[0].page.items + Items(tvs[1..])
  }

  lemma {:induction false} ItemsAreCollected(tvs: seq<TokenVisit>, vs: seq<Visit>)
    requires |vs| == |tvs| && forall i :: 0 <= i < |vs| ==> Mirrors(tvs[i], vs[i], Forward)
    ensures Collected(Forward, vs) == Items(tvs)
  {
    if vs != [] {
      assert Mirrors(tvs[0], vs[0], Forward);
      assert forall i :: 0 <= i < |vs| - 1 ==> vs[1..][i] == vs[i + 1] && tvs[1..][i] == tvs[i + 1];
      ItemsAreCollected(tvs[1..], vs[1..]);
    }
  }

  ghost predicate TablesWithin(tvs: seq<TokenVisit>, domain: iset<Row>) {
    forall i :: 0 <= i < |tvs| ==> Within(tvs[i].table, domain)
  }

  ghost predicate AlwaysThere(r: Row, tvs: seq<TokenVisit>) {
    forall i :: 0 <= i < |tvs| ==> r in tvs[i].table
  }

  /** The walk a client makes by handing back each `next_cursor` string, with rows inserted and deleted
      in between: items in strictly increasing order, and at the end every row present throughout
      exactly once - wherever walks over the domain are reliable, and `ReliableExactly` says where. */
  lemma ClientWalk(cd: Codec, ord: seq<OrderKey>, domain: iset<Row>, tvs: seq<TokenVisit>)
    requires ParsesBack(cd) && TokenWalk(cd, ord, Forward, None, tvs) && TablesWithin(tvs, domain)
    requires Reliable(DriverOf(cd.adapters), ord, domain)
    ensures StrictlySorted(ord, Items(tvs))
    ensures tvs != [] && tvs[|tvs| - 1].page.next.None? ==>
              forall r :: AlwaysThere(r, tvs) ==> multiset(Items(tvs))[r] == 1
  {
    var vs := TokenWalkIsWalk(cd, ord, Forward, None, None, tvs);
    ItemsAreCollected(tvs, vs);
    assert forall i :: 0 <= i < |vs| ==> Mirrors(tvs[i], vs[i], Forward);
    assert VisitsWithin(vs, domain);
    assert Right(ord, vs);
    SortedIsDistinct(ord, Collected(Forward, vs));
    if tvs != [] && tvs[|tvs| - 1].page.next.None? {
      assert Complete(Forward, vs);
      forall r | AlwaysThere(r, tvs) ensures multiset(Items(tvs))[r] == 1 {
        assert PresentThroughout(r, vs);
        DistinctCount(Collected(Forward, vs), r);
      }
    }
  }
}
