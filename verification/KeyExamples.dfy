/**
 Two tables, with everything spelt out, on which a client walk completes and misses a row: one whose
 rows carry a JSON null, and one whose rows are tied behind a NaN and a change of scale.
 */
module KeyExamples {
  import opened Common
  import opened Ordering
  import opened FetchedValues
  import opened PageQuery
  import opened Paginator
  import opened Walks
  import opened CursorCodec
  import opened TieCheck

  const ASCENDING := OrderKey(Asc, Last)

  // ---- rows that hold JSON null, told apart by their number

  function JsonColumn(): Column {
    Column(Adapter((r: Row) => Missing, (v: Value) => Some(v), (j: Value) => Some(j), (v: Value) => 0.0),
           (s: Stored) => s == SqlNull || s == StoredJson(JsonNull),
           (s: Stored) => if s.SqlNull? then 1.0 else 0.0)
  }

  function NumberColumn(): Column {
    Column(Adapter((r: Row) => Number(r.id as real), (v: Value) => Some(v), (j: Value) => Some(j), (v: Value) => if v.Number? then v.value else 0.0),
           (s: Stored) => s.StoredNumber?,
           (s: Stored) => if s.StoredNumber? then s.value else 0.0)
  }

  function JsonRow(id: int): Row { Row(id, [Val(0.0), Val(id as real)]) }

  function JsonKeys(r: Row): seq<Stored> { [StoredJson(JsonNull), StoredNumber(r.id as real)] }

  lemma JsonWrites(round: Rounding, s: Stored)
    requires s == SqlNull || s == StoredJson(JsonNull)
    ensures WritesAndReads(round, JsonColumn(), s)
  {
    assert Fetch(round, s) == Missing && Returned(round, s) == SqlNull;
  }

  lemma JsonPair(s: Stored, t: Stored)
    requires s == SqlNull || s == StoredJson(JsonNull)
    requires t == SqlNull || t == StoredJson(JsonNull)
    ensures Comparable(s, t) && (DatabaseEqual(s, t) <==> JsonColumn().rank(s) == JsonColumn().rank(t))
  {
  }

  lemma JsonIsOrdinary(round: Rounding)
    ensures Ordinary(round, JsonColumn())
  {
    var c := JsonColumn();
    forall s, t | c.holds(s) && c.holds(t) ensures Comparable(s, t) && (DatabaseEqual(s, t) <==> c.rank(s) == c.rank(t)) {
      JsonPair(s, t);
    }
    forall s | c.holds(s) ensures WritesAndReads(round, c, s) {
      JsonWrites(round, s);
    }
  }

  lemma NumberIsOrdinary(round: Rounding)
    ensures Ordinary(round, NumberColumn())
  {
    forall s | NumberColumn().holds(s) ensures WritesAndReads(round, NumberColumn(), s) {
    }
  }

  lemma JsonRowOf(round: Rounding, id: int)
    ensures RowOf(round, [JsonColumn(), NumberColumn()], r => JsonKeys(r), JsonRow(id))
  {
    JsonIsOrdinary(round);
    NumberIsOrdinary(round);
  }

  /** ORDER BY data ASC NULLS LAST, id ASC, one row a page, on an unchanging table of two rows whose
      `data` is JSON null: row 2 is never returned. */
  lemma JsonNullLosesRow(round: Rounding) returns (visits: seq<Visit>)
    ensures Walk(DriverOf(Adapters([JsonColumn(), NumberColumn()])), [ASCENDING, ASCENDING], Forward, None, visits)
    ensures Complete(Forward, visits) && FixedTable({JsonRow(1), JsonRow(2)}, visits)
    ensures Collected(Forward, visits) == [JsonRow(1)]
  {
    var cols, ord := [JsonColumn(), NumberColumn()], [ASCENDING, ASCENDING];
    JsonRowOf(round, 1);
    JsonRowOf(round, 2);
    var r, s := JsonRow(1), JsonRow(2);
    assert ord[1..] == [ASCENDING] && r.keys[1..] == [Val(1.0)] && s.keys[1..] == [Val(2.0)];
    assert Before([ASCENDING], [Val(1.0)], [Val(2.0)]);
    assert RowBefore(ord, r, s);
    forall i | 0 <= i < 2 ensures !Merged(round, JsonKeys(r)[i], JsonKeys(s)[i]) {
    }
    visits := JsonNullSkips(round, cols, r => JsonKeys(r), ord, r, s);
  }

  // ---- rows that hold NaN and the number one, at different scales

  function FloatColumn(): Column {
    Column(Adapter((r: Row) => NaN, (v: Value) => None, (j: Value) => Some(NaN), (v: Value) => 0.0), (s: Stored) => s == StoredNaN, (s: Stored) => 0.0)
  }

  function Digits(scale: nat): (s: string)
    ensures |s| == scale
  {
    seq(scale, i => '0')
  }

  function OneColumn(): Column {
    Column(Adapter((r: Row) => Decimal(1.0, if r.id < 0 then 0 else r.id),
                   (v: Value) => if v.Decimal? then Some(Text(Digits(v.scale))) else None,
                   (j: Value) => if j.Text? then Some(Decimal(1.0, |j.s|)) else None,
                   (v: Value) => 1.0),
           (s: Stored) => s.StoredNumeric? && s.value == 1.0,
           (s: Stored) => 1.0)
  }

  function NaNRow(id: nat): Row { Row(id, [Val(0.0), Val(1.0)]) }

  function NaNKeys(r: Row): seq<Stored> { [StoredNaN, StoredNumeric(1.0, if r.id < 0 then 0 else r.id)] }

  lemma NaNRowOf(round: Rounding, id: nat)
    ensures RowOf(round, [FloatColumn(), OneColumn()], r => NaNKeys(r), NaNRow(id))
  {
    var cols := [FloatColumn(), OneColumn()];
    forall s | cols[0].holds(s) ensures WritesAndReads(round, cols[0], s) {
    }
    forall s | cols[1].holds(s) ensures WritesAndReads(round, cols[1], s) {
    }
  }

  /** Two tied rows, one row a page: instead of failing, the walk completes without the second. */
  lemma UndetectedTieLosesRow(round: Rounding) returns (visits: seq<Visit>)
    ensures NaNRow(1).keys == NaNRow(2).keys
    ensures Walk(DriverOf(Adapters([FloatColumn(), OneColumn()])), [ASCENDING, ASCENDING], Forward, None, visits)
    ensures Complete(Forward, visits) && FixedTable({NaNRow(1), NaNRow(2)}, visits)
    ensures Collected(Forward, visits) == [NaNRow(1)]
  {
    var cols, ord := [FloatColumn(), OneColumn()], [ASCENDING, ASCENDING];
    NaNRowOf(round, 1);
    NaNRowOf(round, 2);
    var r, s := NaNRow(1), NaNRow(2);
    assert BothNaN(NaNKeys(r)[0], NaNKeys(s)[0]) && Rescaled(NaNKeys(r)[1], NaNKeys(s)[1]);
    visits := MissedTieSkips(round, cols, r => NaNKeys(r), ord, r, s);
  }
}
