/**
 What becomes of the key values of each column type on their way through Python and JSON: which tied
 rows the tie test misses, which distinct rows it takes for tied, and which keys a cursor cannot carry.

 The database's own equality is the reference. It differs from Python's in few places: a NaN equals a
 NaN, a numeric equals itself at any scale, an interval of a year equals 360 days but is fetched as
 365, JSON null is not SQL NULL but is fetched as None, and JSON `0` and `false` are distinct. JSON
 numbers with a fraction are fetched as floats, by the rounding given.
 */
module TieCheck {
  import opened Common
  import opened Ordering
  import opened SeekPredicate
  import opened FetchedValues
  import opened PageQuery
  import opened Paginator
  import opened Walks
  import opened Reliability
  import opened CursorCodec

  /** JSON in the database. The shape of a compound is its kind and its keys. */
  datatype Document =
    | JsonNull
    | JsonFlag(on: bool)
    | JsonNumber(value: real, fractional: bool)
    | JsonText(s: string)
    | JsonCompound(shape: int, parts: seq<Document>)

  /** One stored key. `StoredOther` is a value that equals only itself everywhere: a date, an identifier. */
  datatype Stored =
    | SqlNull
    | StoredNaN
    | StoredNumber(value: real)
    | StoredNumeric(value: real, scale: nat)
    | StoredFlag(on: bool)
    | StoredInterval(months: int, days: int, micros: int)
    | StoredText(s: string)
    | StoredJson(doc: Document)
    | StoredOther(code: int)

  type Rounding = real -> real

  // ---- intervals

  const DAY := 86_400_000_000

  /** Whole years, toward zero. */
  function Years(months: int): int { if months >= 0 then months / 12 else -(-months / 12) }

  /** An interval as the database compares it: months of 30 days. */
  function Span(months: int, days: int, micros: int): int { (months * 30 + days) * DAY + micros }

  /** An interval as a timedelta: years of 365 days, the months left over of 30. */
  function Elapsed(months: int, days: int, micros: int): int {
    (Years(months) * 365 + (months - Years(months) * 12) * 30 + days) * DAY + micros
  }

  /** Whole years, and less than a year left over on the same side of zero. */
  lemma YearsTowardZero(months: int)
    ensures var left := months - 12 * Years(months);
            -12 < left < 12 && (months >= 0 ==> left >= 0) && (months <= 0 ==> left <= 0)
  {
  }

  /** Intervals in microseconds: a month of 30 days either way, but a year of 12 months, or of 365 days. */
  lemma IntervalsInFull(years: nat, months: nat, days: int, micros: int)
    requires months < 12
    ensures Span(12 * years + months, days, micros) == ((12 * years + months) * 30 + days) * 86_400_000_000 + micros
    ensures Elapsed(12 * years + months, days, micros) == (365 * years + 30 * months + days) * 86_400_000_000 + micros
  {
    assert Years(12 * years + months) == years;
  }

  lemma ElapsedIsSpan(months: int, days: int, micros: int)
    ensures Elapsed(months, days, micros) == Span(months, days, micros) + Years(months) * (5 * DAY)
  {
  }

  // ---- equality in the database

  predicate DocumentEqual(a: Document, b: Document)
    decreases a
  {
    match (a, b)
    case (JsonNumber(x, _), JsonNumber(y, _)) => x == y
    case (JsonCompound(s, ps), JsonCompound(t, qs)) =>
      s == t && |ps| == |qs| && forall i :: 0 <= i < |ps| ==> DocumentEqual(ps[i], qs[i])
    case _ => a == b
  }

  predicate DatabaseEqual(a: Stored, b: Stored) {
    match (a, b)
    case (StoredNumeric(x, _), StoredNumeric(y, _)) => x == y
    case (StoredInterval(m, d, u), StoredInterval(n, e, v)) => Span(m, d, u) == Span(n, e, v)
    case (StoredJson(x), StoredJson(y)) => DocumentEqual(x, y)
    case _ => a == b
  }

  // ---- fetching

  function FetchDocument(round: Rounding, d: Document): (v: Value)
    ensures IsJson(v)
    decreases d
  {
    match d
    case JsonNull => Missing
    case JsonFlag(on) => Flag(on)
    case JsonNumber(x, fractional) => Number(if fractional then round(x) else x)
    case JsonText(s) => Text(s)
    case JsonCompound(shape, parts) =>
      Compound(shape, seq(|parts|, i requires 0 <= i < |parts| => FetchDocument(round, parts[i])))
  }

  function Fetch(round: Rounding, s: Stored): Value {
    match s
    case SqlNull => Missing
    case StoredNaN => NaN
    case StoredNumber(x) => Number(x)
    case StoredNumeric(x, scale) => Decimal(x, scale)
    case StoredFlag(on) => Flag(on)
    case StoredInterval(m, d, u) => Delta(Elapsed(m, d, u))
    case StoredText(t) => Text(t)
    case StoredJson(d) => FetchDocument(round, d)
    case StoredOther(code) => Other(code)
  }

  // ---- where the equalities part

  /** Documents that are equal once fetched: numbers after rounding, and 0 and 1 with the booleans. */
  predicate DocumentAlike(round: Rounding, a: Document, b: Document)
    decreases a
  {
    match (a, b)
    case (JsonNumber(x, f), JsonNumber(y, g)) => (if f then round(x) else x) == (if g then round(y) else y)
    case (JsonNumber(x, f), JsonFlag(on)) => (if f then round(x) else x) == (if on then 1.0 else 0.0)
    case (JsonFlag(on), JsonNumber(y, g)) => (if on then 1.0 else 0.0) == (if g then round(y) else y)
    case (JsonCompound(s, ps), JsonCompound(t, qs)) =>
      s == t && |ps| == |qs| && forall i :: 0 <= i < |ps| ==> DocumentAlike(round, ps[i], qs[i])
    case _ => a == b
  }

  /** Equal in the database, different as fetched and as serialised: intervals of different years, and
      documents whose numbers are rounded on one side only. */
  predicate Hidden(round: Rounding, a: Stored, b: Stored) {
    match (a, b)
    case (StoredInterval(m, d, u), StoredInterval(n, e, v)) => Span(m, d, u) == Span(n, e, v) && Years(m) != Years(n)
    case (StoredJson(x), StoredJson(y)) => DocumentEqual(x, y) && !DocumentAlike(round, x, y)
    case _ => false
  }

  /** Different in the database, equal as fetched and as serialised: intervals whose extra years make up
      for the rest, SQL NULL and JSON null, JSON booleans and numbers. */
  predicate Merged(round: Rounding, a: Stored, b: Stored) {
    match (a, b)
    case (StoredInterval(m, d, u), StoredInterval(n, e, v)) =>
      Years(m) != Years(n) && Span(m, d, u) - Span(n, e, v) == (Years(n) - Years(m)) * (5 * DAY)
    case (StoredJson(x), StoredJson(y)) => !DocumentEqual(x, y) && DocumentAlike(round, x, y)
    case (SqlNull, StoredJson(y)) => y.JsonNull?
    case (StoredJson(x), SqlNull) => x.JsonNull?
    case _ => false
  }

  /** Equal in the database and as serialised only. */
  predicate BothNaN(a: Stored, b: Stored) { a.StoredNaN? && b.StoredNaN? }

  /** Equal in the database and as fetched only: one number at two scales. */
  predicate Rescaled(a: Stored, b: Stored) {
    a.StoredNumeric? && b.StoredNumeric? && a.value == b.value && a.scale != b.scale
  }

  // ---- columns

  /** The values of one column may be compared with one another. */
  predicate Comparable(a: Stored, b: Stored) {
    match (a, b)
    case (SqlNull, _) => true
    case (_, SqlNull) => true
    case (StoredNaN, _) => b.StoredNaN? || b.StoredNumber? || b.StoredNumeric?
    case (_, StoredNaN) => a.StoredNumber? || a.StoredNumeric?
    case (StoredNumber(_), StoredNumber(_)) => true
    case (StoredNumeric(_, _), StoredNumeric(_, _)) => true
    case (StoredFlag(_), StoredFlag(_)) => true
    case (StoredInterval(_, _, _), StoredInterval(_, _, _)) => true
    case (StoredText(_), StoredText(_)) => true
    case (StoredJson(_), StoredJson(_)) => true
    case (StoredOther(_), StoredOther(_)) => true
    case _ => false
  }

  /** The values a column holds, its adapter, and where its values rank in the order of the database. */
  datatype Column = Column(adapter: Adapter, holds: Stored -> bool, rank: Stored -> real)

  /** A value JSON has no form for is written as a text of its own. */
  predicate WrittenAsText(v: Value) { v.Decimal? || v.Delta? || v.Other? }

  /** What the database receives when the value fetched for a key comes back from a cursor. */
  function Returned(round: Rounding, s: Stored): Stored {
    match s
    case StoredInterval(m, d, u) => StoredInterval(0, 0, Elapsed(m, d, u))
    case StoredJson(doc) => if doc.JsonNull? then SqlNull else StoredJson(RoundedDocument(round, doc))
    case _ => s
  }

  function RoundedDocument(round: Rounding, d: Document): Document
    decreases d
  {
    match d
    case JsonNumber(x, fractional) => JsonNumber(if fractional then round(x) else x, fractional)
    case JsonCompound(shape, parts) =>
      JsonCompound(shape, seq(|parts|, i requires 0 <= i < |parts| => RoundedDocument(round, parts[i])))
    case _ => d
  }

  /** A column with an ordinary type adapter: JSON values are written as they are and all others as
      text, what was written is read back, and it is bound to the value it stands for. */
  ghost predicate Ordinary(round: Rounding, c: Column) {
    && (forall s, t :: c.holds(s) && c.holds(t) ==> Comparable(s, t) && (DatabaseEqual(s, t) <==> c.rank(s) == c.rank(t)))
    && (forall s :: c.holds(s) ==> WritesAndReads(round, c, s))
  }

  ghost predicate WritesAndReads(round: Rounding, c: Column, s: Stored) {
    var v := Fetch(round, s);
    && c.holds(Returned(round, s))
    && (IsJson(v) && !v.Missing? ==> c.adapter.dump(v) == Some(v))
    && (WrittenAsText(v) ==> c.adapter.dump(v).Some? && c.adapter.dump(v).value.Text?)
    && (!v.Missing? ==> c.adapter.validate(DumpCell(c.adapter, v).value) == Some(v) && c.adapter.bind(v) == c.rank(Returned(round, s)))
  }

  function KeyOf(c: Column, s: Stored): Cell { if s.SqlNull? then Null else Val(c.rank(s)) }

  // ---- one key

  lemma PartsFetched(round: Rounding, d: Document)
    requires d.JsonCompound?
    ensures var v := FetchDocument(round, d);
            && v.Compound? && v.shape == d.shape && |v.parts| == |d.parts|
            && forall i :: 0 <= i < |d.parts| ==> v.parts[i] == FetchDocument(round, d.parts[i])
  {
  }

  lemma {:induction false} DocumentsFetchedAlike(round: Rounding, a: Document, b: Document)
    ensures PythonEqual(FetchDocument(round, a), FetchDocument(round, b)) <==> DocumentAlike(round, a, b)
    decreases a
  {
    if a.JsonCompound? && b.JsonCompound? {
      PartsFetched(round, a);
      PartsFetched(round, b);
      var v, w := FetchDocument(round, a), FetchDocument(round, b);
      if |a.parts| == |b.parts| {
        forall i | 0 <= i < |a.parts|
          ensures PythonEqual(v.parts[i], w.parts[i]) <==> DocumentAlike(round, a.parts[i], b.parts[i])
        {
          DocumentsFetchedAlike(round, a.parts[i], b.parts[i]);
        }
      }
    }
  }

  lemma PartsRounded(round: Rounding, d: Document)
    requires d.JsonCompound?
    ensures var r := RoundedDocument(round, d);
            && r.JsonCompound? && r.shape == d.shape && |r.parts| == |d.parts|
            && forall i :: 0 <= i < |d.parts| ==> r.parts[i] == RoundedDocument(round, d.parts[i])
  {
  }

  /** The document sent back is the one that, without rounding, would be fetched as the value was. */
  lemma {:induction false} RoundedIsFetched(round: Rounding, d: Document)
    ensures FetchDocument(x => x, RoundedDocument(round, d)) == FetchDocument(round, d)
    decreases d
  {
    if d.JsonCompound? {
      var r := RoundedDocument(round, d);
      PartsRounded(round, d);
      PartsFetched(round, d);
      PartsFetched(x => x, r);
      var v, w := FetchDocument(x => x, r), FetchDocument(round, d);
      forall i | 0 <= i < |d.parts| ensures v.parts[i] == w.parts[i] {
        RoundedIsFetched(round, d.parts[i]);
      }
      assert v.parts == w.parts;
    }
  }

  /** Documents without booleans and without rounded numbers compare alike everywhere. */
  predicate PlainDocument(d: Document) {
    match d
    case JsonFlag(_) => false
    case JsonNumber(_, fractional) => !fractional
    case JsonCompound(_, parts) => forall i :: 0 <= i < |parts| ==> PlainDocument(parts[i])
    case _ => true
  }

  lemma {:induction false} PlainDocumentsAlike(round: Rounding, a: Document, b: Document)
    requires PlainDocument(a) && PlainDocument(b)
    ensures DocumentAlike(round, a, b) <==> DocumentEqual(a, b)
    ensures DocumentEqual(a, RoundedDocument(round, a))
    decreases a
  {
    if a.JsonCompound? {
      forall i | 0 <= i < |a.parts| ensures DocumentEqual(a.parts[i], RoundedDocument(round, a.parts[i])) {
        PlainDocumentsAlike(round, a.parts[i], a.parts[i]);
      }
      if b.JsonCompound? && |a.parts| == |b.parts| {
        forall i | 0 <= i < |a.parts|
          ensures DocumentAlike(round, a.parts[i], b.parts[i]) <==> DocumentEqual(a.parts[i], b.parts[i])
        {
          PlainDocumentsAlike(round, a.parts[i], b.parts[i]);
        }
      }
    }
  }

  predicate SameFetched(round: Rounding, a: Stored, b: Stored) {
    PythonEqual(Fetch(round, a), Fetch(round, b))
  }

  predicate SameWritten(ad: Adapter, v: Value, w: Value) {
    DumpCell(ad, v).Some? && DumpCell(ad, w).Some? && PythonEqual(DumpCell(ad, v).value, DumpCell(ad, w).value)
  }

  lemma IntervalCases(m: int, d: int, u: int, n: int, e: int, v: int)
    ensures Elapsed(m, d, u) == Elapsed(n, e, v) <==>
              (Span(m, d, u) == Span(n, e, v) && Years(m) == Years(n))
              || (Years(m) != Years(n) && Span(m, d, u) - Span(n, e, v) == (Years(n) - Years(m)) * (5 * DAY))
  {
    ElapsedIsSpan(m, d, u);
    ElapsedIsSpan(n, e, v);
  }

  /** How the comparison of fetched values of one column departs from the database's. */
  lemma FetchedCases(round: Rounding, a: Stored, b: Stored)
    requires Comparable(a, b)
    ensures SameFetched(round, a, b) <==> (DatabaseEqual(a, b) && !Hidden(round, a, b) && !BothNaN(a, b)) || Merged(round, a, b)
  {
    match (a, b)
    case (StoredInterval(m, d, u), StoredInterval(n, e, v)) => IntervalCases(m, d, u, n, e, v);
    case (StoredJson(x), StoredJson(y)) => DocumentsFetchedAlike(round, x, y);
    case _ =>
  }

  lemma IsWritten(round: Rounding, c: Column, s: Stored)
    requires WritesAndReads(round, c, s)
    ensures var v := Fetch(round, s);
            && DumpCell(c.adapter, v).Some? && (IsJson(v) ==> DumpCell(c.adapter, v) == Some(v))
            && (!IsJson(v) ==> DumpCell(c.adapter, v).value.Text? && c.adapter.validate(DumpCell(c.adapter, v).value) == Some(v))
  {
  }

  /** How the comparison of serialised values departs from the database's. */
  lemma WrittenCases(round: Rounding, c: Column, a: Stored, b: Stored)
    requires WritesAndReads(round, c, a) && WritesAndReads(round, c, b) && Comparable(a, b)
    ensures SameWritten(c.adapter, Fetch(round, a), Fetch(round, b)) <==>
              (DatabaseEqual(a, b) && !Hidden(round, a, b) && !Rescaled(a, b)) || Merged(round, a, b)
  {
    IsWritten(round, c, a);
    IsWritten(round, c, b);
    var v, w := Fetch(round, a), Fetch(round, b);
    if IsJson(v) && IsJson(w) {
      assert SameWritten(c.adapter, v, w) <==> SameFetched(round, a, b);
      FetchedCases(round, a, b);
    } else if !IsJson(v) && !IsJson(w) {
      assert SameWritten(c.adapter, v, w) <==> v == w;
      TextCases(round, a, b);
    } else {
      MixedCases(round, a, b);
    }
  }

  lemma TextCases(round: Rounding, a: Stored, b: Stored)
    requires Comparable(a, b) && !IsJson(Fetch(round, a)) && !IsJson(Fetch(round, b))
    ensures Fetch(round, a) == Fetch(round, b) <==> (DatabaseEqual(a, b) && !Hidden(round, a, b) && !Rescaled(a, b)) || Merged(round, a, b)
  {
    match (a, b)
    case (StoredInterval(m, d, u), StoredInterval(n, e, v)) => IntervalCases(m, d, u, n, e, v);
    case _ =>
  }

  lemma MixedCases(round: Rounding, a: Stored, b: Stored)
    requires Comparable(a, b) && IsJson(Fetch(round, a)) != IsJson(Fetch(round, b))
    ensures !DatabaseEqual(a, b) && !Merged(round, a, b)
    ensures !Fetch(round, a).Text? && !Fetch(round, b).Text?
  {
  }

  // ---- whole tuples

  ghost predicate OfColumns(round: Rounding, cols: seq<Column>, a: seq<Stored>) {
    |a| == |cols| && forall i :: 0 <= i < |cols| ==> Ordinary(round, cols[i]) && cols[i].holds(a[i])
  }

  function Adapters(cols: seq<Column>): (r: seq<Adapter>)
    ensures |r| == |cols|
  {
    seq(|cols|, i requires 0 <= i < |cols| => cols[i].adapter)
  }

  function FetchAll(round: Rounding, a: seq<Stored>): (r: seq<Value>)
    ensures |r| == |a|
  {
    seq(|a|, i requires 0 <= i < |a| => Fetch(round, a[i]))
  }

  /** Tied: equal in the database, key by key. */
  ghost predicate Tied(a: seq<Stored>, b: seq<Stored>)
    requires |a| == |b|
  {
    forall i :: 0 <= i < |a| ==> DatabaseEqual(a[i], b[i])
  }

  predicate Seen(round: Rounding, a: Stored, b: Stored) {
    (DatabaseEqual(a, b) && !Hidden(round, a, b)) || Merged(round, a, b)
  }

  ghost predicate SomeNaN(a: seq<Stored>, b: seq<Stored>)
    requires |a| == |b|
  {
    exists i :: 0 <= i < |a| && BothNaN(a[i], b[i])
  }

  ghost predicate SomeRescaled(a: seq<Stored>, b: seq<Stored>)
    requires |a| == |b|
  {
    exists i :: 0 <= i < |a| && Rescaled(a[i], b[i])
  }

  lemma RawComparison(round: Rounding, cols: seq<Column>, a: seq<Stored>, b: seq<Stored>)
    requires OfColumns(round, cols, a) && OfColumns(round, cols, b)
    ensures TupleEqual(FetchAll(round, a), FetchAll(round, b)) <==>
              (forall i :: 0 <= i < |a| ==> Seen(round, a[i], b[i])) && !SomeNaN(a, b)
  {
    forall i | 0 <= i < |a|
      ensures PythonEqual(FetchAll(round, a)[i], FetchAll(round, b)[i]) <==> Seen(round, a[i], b[i]) && !BothNaN(a[i], b[i])
    {
      assert cols[i].holds(a[i]) && cols[i].holds(b[i]) && Ordinary(round, cols[i]);
      FetchedCases(round, a[i], b[i]);
    }
  }

  lemma AllWritten(round: Rounding, cols: seq<Column>, a: seq<Stored>)
    requires OfColumns(round, cols, a)
    ensures var js := DumpValues(Adapters(cols), FetchAll(round, a));
            && js.Some? && |js.value| == |a|
            && forall i :: 0 <= i < |a| ==> Some(js.value[i]) == DumpCell(cols[i].adapter, Fetch(round, a[i]))
  {
    DumpedAt(Adapters(cols), FetchAll(round, a));
    forall i | 0 <= i < |a| ensures DumpCell(Adapters(cols)[i], FetchAll(round, a)[i]).Some? {
      assert Ordinary(round, cols[i]) && WritesAndReads(round, cols[i], a[i]);
      IsWritten(round, cols[i], a[i]);
    }
  }

  lemma WrittenComparison(round: Rounding, cols: seq<Column>, a: seq<Stored>, b: seq<Stored>)
    requires OfColumns(round, cols, a) && OfColumns(round, cols, b)
    requires DumpValues(Adapters(cols), FetchAll(round, a)).Some? && DumpValues(Adapters(cols), FetchAll(round, b)).Some?
    ensures TupleEqual(DumpValues(Adapters(cols), FetchAll(round, a)).value, DumpValues(Adapters(cols), FetchAll(round, b)).value) <==>
              (forall i :: 0 <= i < |a| ==> Seen(round, a[i], b[i])) && !SomeRescaled(a, b)
  {
    AllWritten(round, cols, a);
    AllWritten(round, cols, b);
    var v, w := DumpValues(Adapters(cols), FetchAll(round, a)).value, DumpValues(Adapters(cols), FetchAll(round, b)).value;
    forall i | 0 <= i < |a| ensures PythonEqual(v[i], w[i]) <==> Seen(round, a[i], b[i]) && !Rescaled(a[i], b[i]) {
      assert Ordinary(round, cols[i]) && WritesAndReads(round, cols[i], a[i]) && WritesAndReads(round, cols[i], b[i]);
      assert Comparable(a[i], b[i]);
      WrittenCases(round, cols[i], a[i], b[i]);
      assert Merged(round, a[i], b[i]) ==> !Rescaled(a[i], b[i]);
    }
  }

  /** The test fires exactly if no key is told apart by both comparisons - each pair is equal in the
      database and not hidden, or merged - and no NaN spoils the one while a scale spoils the other. */
  lemma DetectionIsExact(round: Rounding, cols: seq<Column>, a: seq<Stored>, b: seq<Stored>)
    requires OfColumns(round, cols, a) && OfColumns(round, cols, b)
    ensures Detected(Adapters(cols), FetchAll(round, a), FetchAll(round, b)) <==>
              (forall i :: 0 <= i < |a| ==> Seen(round, a[i], b[i])) && !(SomeNaN(a, b) && SomeRescaled(a, b))
  {
    RawComparison(round, cols, a, b);
    AllWritten(round, cols, a);
    AllWritten(round, cols, b);
    WrittenComparison(round, cols, a, b);
  }

  /** Tied in the database and let through by the test. */
  ghost predicate Missed(round: Rounding, a: seq<Stored>, b: seq<Stored>)
    requires |a| == |b|
  {
    Tied(a, b) && ((exists i :: 0 <= i < |a| && Hidden(round, a[i], b[i])) || (SomeNaN(a, b) && SomeRescaled(a, b)))
  }

  /** Distinct in the database and reported by the test. */
  ghost predicate FalselyTied(round: Rounding, a: seq<Stored>, b: seq<Stored>)
    requires |a| == |b|
  {
    && (exists i :: 0 <= i < |a| && Merged(round, a[i], b[i]))
    && (forall i :: 0 <= i < |a| ==> Seen(round, a[i], b[i]))
    && !(SomeNaN(a, b) && SomeRescaled(a, b))
  }

  lemma MergedIsNotEqual(round: Rounding, a: Stored, b: Stored)
    ensures Merged(round, a, b) ==> !DatabaseEqual(a, b)
    ensures Hidden(round, a, b) ==> DatabaseEqual(a, b)
  {
  }

  /** The test goes wrong on exactly these pairs, one way or the other. */
  lemma DetectionFaults(round: Rounding, cols: seq<Column>, a: seq<Stored>, b: seq<Stored>)
    requires OfColumns(round, cols, a) && OfColumns(round, cols, b)
    ensures var fires := Detected(Adapters(cols), FetchAll(round, a), FetchAll(round, b));
            && (Tied(a, b) && !fires <==> Missed(round, a, b))
            && (!Tied(a, b) && fires <==> FalselyTied(round, a, b))
  {
    DetectionIsExact(round, cols, a, b);
    forall i | 0 <= i < |a|
      ensures Merged(round, a[i], b[i]) ==> !DatabaseEqual(a[i], b[i])
      ensures Hidden(round, a[i], b[i]) ==> DatabaseEqual(a[i], b[i])
    {
      MergedIsNotEqual(round, a[i], b[i]);
    }
    if !Tied(a, b) && forall i :: 0 <= i < |a| ==> Seen(round, a[i], b[i]) {
      var i :| 0 <= i < |a| && !DatabaseEqual(a[i], b[i]);
      assert Merged(round, a[i], b[i]);
    }
  }

  /** Missed: a NaN beside a number at another scale; a year and 360 days. Falsely tied: JSON 0 and
      false; SQL NULL and JSON null; a year and 365 days. */
  lemma FaultExamples(round: Rounding)
    ensures Missed(round, [StoredNaN, StoredNumeric(1.0, 1)], [StoredNaN, StoredNumeric(1.0, 2)])
    ensures Missed(round, [StoredInterval(12, 0, 0)], [StoredInterval(0, 360, 0)])
    ensures FalselyTied(round, [StoredJson(JsonNumber(0.0, false))], [StoredJson(JsonFlag(false))])
    ensures FalselyTied(round, [SqlNull], [StoredJson(JsonNull)])
    ensures FalselyTied(round, [StoredInterval(12, 0, 0)], [StoredInterval(0, 365, 0)])
  {
    assert BothNaN([StoredNaN, StoredNumeric(1.0, 1)][0], [StoredNaN, StoredNumeric(1.0, 2)][0]);
    assert Rescaled([StoredNaN, StoredNumeric(1.0, 1)][1], [StoredNaN, StoredNumeric(1.0, 2)][1]);
    assert Hidden(round, [StoredInterval(12, 0, 0)][0], [StoredInterval(0, 360, 0)][0]);
    assert Merged(round, [StoredJson(JsonNumber(0.0, false))][0], [StoredJson(JsonFlag(false))][0]);
    assert Merged(round, [SqlNull][0], [StoredJson(JsonNull)][0]);
    assert Merged(round, [StoredInterval(12, 0, 0)][0], [StoredInterval(0, 365, 0)][0]);
  }

  // ---- cursors

  /** Keys a cursor cannot carry: intervals of a year or more, JSON null, and documents that rounding changes. */
  predicate Lost(round: Rounding, s: Stored) {
    match s
    case StoredInterval(m, _, _) => Years(m) != 0
    case StoredJson(d) => d.JsonNull? || !DocumentEqual(d, RoundedDocument(round, d))
    case _ => false
  }

  lemma ReturnedIsSame(round: Rounding, s: Stored)
    requires Fetch(round, s) != Missing
    ensures DatabaseEqual(s, Returned(round, s)) <==> !Lost(round, s)
  {
    match s
    case StoredInterval(m, d, u) => ElapsedIsSpan(m, d, u);
    case _ =>
  }

  lemma KeyIsFaithful(round: Rounding, c: Column, s: Stored)
    requires Ordinary(round, c) && c.holds(s)
    ensures FaithfulKey(c.adapter, Fetch(round, s), KeyOf(c, s)) <==> !Lost(round, s)
  {
    var v := Fetch(round, s);
    assert WritesAndReads(round, c, s);
    if !v.Missing? {
      IsWritten(round, c, s);
      assert c.holds(Returned(round, s));
      ReturnedIsSame(round, s);
      assert DatabaseEqual(s, Returned(round, s)) <==> c.rank(s) == c.rank(Returned(round, s));
    }
  }

  // ---- tables

  /** `stored(r)` are the keys of the row: what its columns hold, fetch and rank. */
  ghost predicate RowOf(round: Rounding, cols: seq<Column>, stored: Row -> seq<Stored>, r: Row) {
    && OfColumns(round, cols, stored(r)) && |r.keys| == |cols|
    && forall i :: 0 <= i < |cols| ==>
         cols[i].adapter.fetch(r) == Fetch(round, stored(r)[i]) && r.keys[i] == KeyOf(cols[i], stored(r)[i])
  }

  ghost predicate KeepsAll(round: Rounding, a: seq<Stored>) {
    forall i :: 0 <= i < |a| ==> !Lost(round, a[i])
  }

  lemma RowValues(round: Rounding, cols: seq<Column>, stored: Row -> seq<Stored>, r: Row)
    requires RowOf(round, cols, stored, r)
    ensures ValuesOf(Adapters(cols), r) == FetchAll(round, stored(r))
  {
  }

  lemma TiedKeys(round: Rounding, cols: seq<Column>, stored: Row -> seq<Stored>, r: Row, s: Row)
    requires RowOf(round, cols, stored, r) && RowOf(round, cols, stored, s)
    ensures r.keys == s.keys <==> Tied(stored(r), stored(s))
  {
    forall i | 0 <= i < |cols| ensures r.keys[i] == s.keys[i] <==> DatabaseEqual(stored(r)[i], stored(s)[i]) {
      assert cols[i].holds(stored(r)[i]) && cols[i].holds(stored(s)[i]) && Ordinary(round, cols[i]);
    }
  }

  lemma TieFaults(round: Rounding, cols: seq<Column>, stored: Row -> seq<Stored>, r: Row, s: Row)
    requires RowOf(round, cols, stored, r) && RowOf(round, cols, stored, s)
    ensures DriverOf(Adapters(cols)).tie(r, s) == (r.keys == s.keys) <==>
              !Missed(round, stored(r), stored(s)) && !FalselyTied(round, stored(r), stored(s))
  {
    RowValues(round, cols, stored, r);
    RowValues(round, cols, stored, s);
    TiedKeys(round, cols, stored, r, s);
    DetectionFaults(round, cols, stored(r), stored(s));
  }

  lemma MarkFaults(round: Rounding, cols: seq<Column>, stored: Row -> seq<Stored>, r: Row)
    requires RowOf(round, cols, stored, r)
    ensures ReadBack(Adapters(cols), r).Some? && DriverOf(Adapters(cols)).writes(r)
    ensures DriverOf(Adapters(cols)).mark(r) == r.keys <==> KeepsAll(round, stored(r))
  {
    var adapters, a := Adapters(cols), stored(r);
    RowValues(round, cols, stored, r);
    AllWritten(round, cols, a);
    var js := DumpValues(adapters, ValuesOf(adapters, r)).value;
    LoadedAt(adapters, js);
    forall i | 0 <= i < |cols|
      ensures LoadCell(adapters[i], js[i]).Some?
      ensures FaithfulKey(adapters[i], adapters[i].fetch(r), r.keys[i]) <==> !Lost(round, a[i])
    {
      assert cols[i].holds(a[i]) && Ordinary(round, cols[i]);
      assert WritesAndReads(round, cols[i], a[i]);
      IsWritten(round, cols[i], a[i]);
      KeyIsFaithful(round, cols[i], a[i]);
    }
    MarkIsExact(adapters, r);
  }

  ghost predicate RowsOf(round: Rounding, cols: seq<Column>, stored: Row -> seq<Stored>, table: set<Row>) {
    forall r :: r in table ==> RowOf(round, cols, stored, r)
  }

  ghost predicate ToldApart(round: Rounding, a: seq<Stored>, b: seq<Stored>) {
    |a| == |b| ==> !Missed(round, a, b) && !FalselyTied(round, a, b)
  }

  lemma PairIsExact(round: Rounding, cols: seq<Column>, stored: Row -> seq<Stored>, r: Row, s: Row)
    requires RowOf(round, cols, stored, r) && RowOf(round, cols, stored, s)
    ensures DriverOf(Adapters(cols)).tie(r, s) == (r.keys == s.keys) <==> ToldApart(round, stored(r), stored(s))
  {
    TieFaults(round, cols, stored, r, s);
  }

  lemma TableTies(round: Rounding, cols: seq<Column>, stored: Row -> seq<Stored>, table: set<Row>)
    requires RowsOf(round, cols, stored, table)
    ensures forall r, s :: r in table && s in table ==>
              (DriverOf(Adapters(cols)).tie(r, s) == (r.keys == s.keys) <==> ToldApart(round, stored(r), stored(s)))
  {
    forall r, s | r in table && s in table
      ensures DriverOf(Adapters(cols)).tie(r, s) == (r.keys == s.keys) <==> ToldApart(round, stored(r), stored(s))
    {
      PairIsExact(round, cols, stored, r, s);
    }
  }

  lemma TableMarks(round: Rounding, cols: seq<Column>, stored: Row -> seq<Stored>, table: set<Row>)
    requires RowsOf(round, cols, stored, table)
    ensures forall r :: r in table ==> (DriverOf(Adapters(cols)).mark(r) == r.keys <==> KeepsAll(round, stored(r)))
  {
    forall r | r in table ensures DriverOf(Adapters(cols)).mark(r) == r.keys <==> KeepsAll(round, stored(r)) {
      MarkFaults(round, cols, stored, r);
    }
  }

  lemma ExactPairwise(drv: Driver, round: Rounding, stored: Row -> seq<Stored>, table: set<Row>)
    requires forall r, s :: r in table && s in table ==> (drv.tie(r, s) == (r.keys == s.keys) <==> ToldApart(round, stored(r), stored(s)))
    requires forall r :: r in table ==> (drv.mark(r) == r.keys <==> KeepsAll(round, stored(r)))
    ensures Exact(drv, table) <==>
              && (forall r, s :: r in table && s in table && r != s ==> ToldApart(round, stored(r), stored(s)))
              && (forall r :: r in table ==> KeepsAll(round, stored(r)))
  {
  }

  /** The driver of ordinary columns is exact on a table exactly if no two of its rows are missed or
      falsely tied, and no key of its rows is lost in a cursor. */
  lemma TableIsExact(round: Rounding, cols: seq<Column>, stored: Row -> seq<Stored>, table: set<Row>)
    requires RowsOf(round, cols, stored, table)
    ensures Exact(DriverOf(Adapters(cols)), table) <==>
              && (forall r, s :: r in table && s in table && r != s ==> ToldApart(round, stored(r), stored(s)))
              && (forall r :: r in table ==> KeepsAll(round, stored(r)))
  {
    TableTies(round, cols, stored, table);
    TableMarks(round, cols, stored, table);
    ExactPairwise(DriverOf(Adapters(cols)), round, stored, table);
  }

  // ---- columns without surprises

  /** A key of a kind that every comparison treats alike and every cursor carries. */
  predicate PlainKey(s: Stored) {
    match s
    case StoredNaN => false
    case StoredInterval(m, _, _) => Years(m) == 0
    case StoredJson(d) => !d.JsonNull? && PlainDocument(d)
    case _ => true
  }

  lemma PlainPair(round: Rounding, a: Stored, b: Stored)
    requires PlainKey(a) && PlainKey(b)
    ensures !Hidden(round, a, b) && !Merged(round, a, b) && !BothNaN(a, b) && !Lost(round, a)
  {
    match (a, b)
    case (StoredJson(x), StoredJson(y)) => PlainDocumentsAlike(round, x, y);
    case (StoredJson(x), _) => PlainDocumentsAlike(round, x, x);
    case _ =>
  }

  lemma PlainRows(round: Rounding, a: seq<Stored>, b: seq<Stored>)
    requires |a| == |b| && forall i :: 0 <= i < |a| ==> PlainKey(a[i]) && PlainKey(b[i])
    ensures !Missed(round, a, b) && !FalselyTied(round, a, b) && KeepsAll(round, a)
  {
    forall i | 0 <= i < |a| ensures !Hidden(round, a[i], b[i]) && !Merged(round, a[i], b[i]) && !BothNaN(a[i], b[i]) && !Lost(round, a[i]) {
      PlainPair(round, a[i], b[i]);
    }
  }

  /** Over plain keys every forward walk is right, whatever is inserted and deleted meanwhile. */
  lemma PlainKeysAreReliable(round: Rounding, cols: seq<Column>, stored: Row -> seq<Stored>, ord: seq<OrderKey>, domain: iset<Row>)
    requires |ord| == |cols|
    requires forall r :: r in domain ==> RowOf(round, cols, stored, r) && forall i :: 0 <= i < |cols| ==> PlainKey(stored(r)[i])
    ensures Reliable(DriverOf(Adapters(cols)), ord, domain)
  {
    var drv := DriverOf(Adapters(cols));
    forall r, s | r in domain && s in domain ensures drv.tie(r, s) <==> r.keys == s.keys {
      PlainRows(round, stored(r), stored(s));
      TieFaults(round, cols, stored, r, s);
    }
    forall r | r in domain ensures drv.mark(r) == r.keys && drv.writes(r) {
      PlainRows(round, stored(r), stored(r));
      MarkFaults(round, cols, stored, r);
    }
    forall r | r in domain ensures Resumes(drv, ord, domain, r) {
      assert drv.mark(r) == r.keys;
    }
    ReliableExactly(drv, ord, domain);
  }

  // ---- walks that go wrong

  lemma TwoOnTable(drv: Driver, ord: seq<OrderKey>, r: Row, s: Row) returns (visits: seq<Visit>)
    requires |r.keys| == |s.keys| == |drv.mark(r)| == |ord| && r != s && !RowBefore(ord, s, r)
    requires drv.writes(r) && drv.writes(s) && !drv.tie(r, s)
    requires !Beyond(ord, Some(Cursor(Forward, Exclusive, drv.mark(r))), r)
    requires !Beyond(ord, Some(Cursor(Forward, Exclusive, drv.mark(r))), s)
    ensures Walk(drv, ord, Forward, None, visits) && Complete(Forward, visits) && FixedTable({r, s}, visits)
    ensures Collected(Forward, visits) == [r]
  {
    visits := LostRow(drv, ord, r, s, {r, s});
  }

  /** A missed tie at a page boundary: on an unchanging table of two rows the walk completes and one
      of them is never returned. */
  lemma MissedTieSkips(round: Rounding, cols: seq<Column>, stored: Row -> seq<Stored>, ord: seq<OrderKey>, r: Row, s: Row) returns (visits: seq<Visit>)
    requires |ord| == |cols| && r != s && RowOf(round, cols, stored, r) && RowOf(round, cols, stored, s)
    requires Missed(round, stored(r), stored(s)) && KeepsAll(round, stored(r))
    ensures Walk(DriverOf(Adapters(cols)), ord, Forward, None, visits) && Complete(Forward, visits) && FixedTable({r, s}, visits)
    ensures Collected(Forward, visits) == [r]
  {
    var drv := DriverOf(Adapters(cols));
    TieFaults(round, cols, stored, r, s);
    TiedKeys(round, cols, stored, r, s);
    MarkFaults(round, cols, stored, r);
    MarkFaults(round, cols, stored, s);
    RowBeforeTotal(ord, r, s);
    visits := TwoOnTable(drv, ord, r, s);
  }

  /** What the cursor of a row with a JSON null in its first key is bound to. */
  lemma JsonNullMark(round: Rounding, cols: seq<Column>, stored: Row -> seq<Stored>, r: Row)
    requires RowOf(round, cols, stored, r) && cols != [] && stored(r)[0] == StoredJson(JsonNull)
    ensures var t := DriverOf(Adapters(cols)).mark(r); |t| == |cols| && t[0] == Null
    ensures r.keys[0].Val?
  {
    var adapters := Adapters(cols);
    RowValues(round, cols, stored, r);
    AllWritten(round, cols, stored(r));
    MarkFaults(round, cols, stored, r);
    var js := DumpValues(adapters, ValuesOf(adapters, r)).value;
    LoadedAt(adapters, js);
    assert js[0] == Missing;
    assert ReadBack(adapters, r).value[0] == Missing;
  }

  lemma NullIsLast(ord: seq<OrderKey>, t: Tuple, keys: Tuple)
    requires |t| == |keys| == |ord| > 0 && ord[0].nulls.Last? && t[0] == Null && keys[0].Val?
    ensures !Before(ord, t, keys)
  {
  }

  lemma NullIsFirst(ord: seq<OrderKey>, t: Tuple, keys: Tuple)
    requires |t| == |keys| == |ord| > 0 && ord[0].nulls.First? && t[0] == Null && keys[0].Val?
    ensures Before(ord, t, keys)
  {
  }

  lemma NotTaken(round: Rounding, cols: seq<Column>, stored: Row -> seq<Stored>, ord: seq<OrderKey>, r: Row, s: Row)
    requires |ord| == |cols| && RowOf(round, cols, stored, r) && RowOf(round, cols, stored, s)
    requires RowBefore(ord, r, s) && !FalselyTied(round, stored(r), stored(s))
    ensures var drv := DriverOf(Adapters(cols));
            r != s && !RowBefore(ord, s, r) && !drv.tie(r, s) && drv.writes(r) && drv.writes(s)
  {
    RowBeforeTotal(ord, r, s);
    TiedKeys(round, cols, stored, r, s);
    DetectionFaults(round, cols, stored(r), stored(s));
    RowValues(round, cols, stored, r);
    RowValues(round, cols, stored, s);
    MarkFaults(round, cols, stored, r);
    MarkFaults(round, cols, stored, s);
  }

  /** Rows whose first key is a JSON null, nulls last: the cursor after one of them comes back as SQL
      NULL, beyond which the others do not lie. On an unchanging table they are never returned. */
  lemma JsonNullSkips(round: Rounding, cols: seq<Column>, stored: Row -> seq<Stored>, ord: seq<OrderKey>, r: Row, s: Row) returns (visits: seq<Visit>)
    requires |ord| == |cols| > 0 && ord[0].nulls.Last? && RowOf(round, cols, stored, r) && RowOf(round, cols, stored, s)
    requires stored(r)[0] == StoredJson(JsonNull) && stored(s)[0] == StoredJson(JsonNull)
    requires RowBefore(ord, r, s) && !FalselyTied(round, stored(r), stored(s))
    ensures Walk(DriverOf(Adapters(cols)), ord, Forward, None, visits) && Complete(Forward, visits) && FixedTable({r, s}, visits)
    ensures Collected(Forward, visits) == [r]
  {
    var drv := DriverOf(Adapters(cols));
    JsonNullMark(round, cols, stored, r);
    JsonNullMark(round, cols, stored, s);
    NullIsLast(ord, drv.mark(r), r.keys);
    NullIsLast(ord, drv.mark(r), s.keys);
    NotTaken(round, cols, stored, ord, r, s);
    visits := TwoOnTable(drv, ord, r, s);
  }

  /** The same with nulls first: everything lies beyond SQL NULL, and the row is returned again. */
  lemma JsonNullRepeats(round: Rounding, cols: seq<Column>, stored: Row -> seq<Stored>, ord: seq<OrderKey>, r: Row, s: Row) returns (visits: seq<Visit>)
    requires |ord| == |cols| > 0 && ord[0].nulls.First? && RowOf(round, cols, stored, r) && RowOf(round, cols, stored, s)
    requires stored(r)[0] == StoredJson(JsonNull)
    requires RowBefore(ord, r, s) && !FalselyTied(round, stored(r), stored(s))
    ensures Walk(DriverOf(Adapters(cols)), ord, Forward, None, visits)
    ensures Collected(Forward, visits) == [r, r]
  {
    var drv := DriverOf(Adapters(cols));
    JsonNullMark(round, cols, stored, r);
    NullIsFirst(ord, drv.mark(r), r.keys);
    NotTaken(round, cols, stored, ord, r, s);
    RowBeforeTotal(ord, r, r);
    visits := OutOfPlace(drv, ord, r, s, r);
  }
}
