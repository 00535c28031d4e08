/** Values as Python holds them: what the driver fetches for a key, and the JSON values of a cursor. */
module FetchedValues {

  /** `Missing` is None. `Number` is an int or a finite float, `Delta` a timedelta, `Compound` a list or
      a dictionary (its kind and keys make the shape), `Other` a value equal only to itself: a date,
      an identifier. */
  datatype Value =
    | Missing
    | NaN
    | Infinite(negative: bool)
    | Number(value: real)
    | Decimal(value: real, scale: nat)
    | Flag(on: bool)
    | Delta(micros: int)
    | Text(s: string)
    | Compound(shape: int, parts: seq<Value>)
    | Other(code: int)

  predicate Numeric(v: Value) { v.Number? || v.Decimal? || v.Flag? }

  function Amount(v: Value): real
    requires Numeric(v)
  {
    if v.Flag? then (if v.on then 1.0 else 0.0) else v.value
  }

  /** Python `==` on separately made values: numbers and booleans by amount, containers part by part,
      and a NaN differs from every value, itself included. */
  predicate PythonEqual(a: Value, b: Value)
    decreases a
  {
    if a.NaN? || b.NaN? then false
    else if Numeric(a) && Numeric(b) then Amount(a) == Amount(b)
    else if a.Compound? && b.Compound? then
      a.shape == b.shape && |a.parts| == |b.parts| && forall i :: 0 <= i < |a.parts| ==> PythonEqual(a.parts[i], b.parts[i])
    else a == b
  }

  lemma {:induction false} PythonEqualSymmetric(a: Value, b: Value)
    ensures PythonEqual(a, b) <==> PythonEqual(b, a)
    decreases a
  {
    if a.Compound? && b.Compound? && |a.parts| == |b.parts| {
      forall i | 0 <= i < |a.parts| ensures PythonEqual(a.parts[i], b.parts[i]) <==> PythonEqual(b.parts[i], a.parts[i]) {
        PythonEqualSymmetric(a.parts[i], b.parts[i]);
      }
    }
  }

  predicate TupleEqual(a: seq<Value>, b: seq<Value>) {
    |a| == |b| && forall i :: 0 <= i < |a| ==> PythonEqual(a[i], b[i])
  }

  /** A value JSON has a form for. */
  predicate IsJson(v: Value) {
    match v
    case Missing => true
    case Number(_) => true
    case Flag(_) => true
    case Text(_) => true
    case Compound(_, parts) => forall i :: 0 <= i < |parts| ==> IsJson(parts[i])
    case _ => false
  }

  /** A container is a JSON value exactly if all its parts are; values of types of their own never are. */
  lemma JsonInFull(shape: int, parts: seq<Value>, v: Value)
    ensures IsJson(Compound(shape, [])) && (IsJson(Compound(shape, parts + [v])) <==> IsJson(Compound(shape, parts)) && IsJson(v))
    ensures v.NaN? || v.Infinite? || v.Decimal? || v.Delta? || v.Other? ==> !IsJson(v)
    ensures v.Missing? || v.Number? || v.Flag? || v.Text? ==> IsJson(v)
  {
    var all := parts + [v];
    assert all[|parts|] == v && forall i :: 0 <= i < |parts| ==> all[i] == parts[i];
  }
}
