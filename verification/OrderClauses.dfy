/**
 Reading an ORDER BY clause: the modifiers wrapped around an expression become one order key.
 */
module OrderClauses {
  import opened Common
  import opened Ordering

  datatype Modifier = AscOp | DescOp | NullsFirstOp | NullsLastOp

  /** An ordering clause: modifiers around an expression that may lack a Python value type. */
  datatype Clause = Plain(expression: nat, typed: bool) | Modified(modifier: Modifier, element: Clause)

  datatype ClauseError = RepeatedDirection | RepeatedNulls | NoDirection | NoValueType

  datatype NamedKey = NamedKey(expression: nat, key: OrderKey)

  function Chain(c: Clause): seq<Modifier> {
    match c
    case Plain(_, _) => []
    case Modified(m, e) => [m] + Chain(e)
  }

  function Core(c: Clause): (p: Clause)
    ensures p.Plain?
  {
    match c
    case Plain(_, _) => c
    case Modified(_, e) => Core(e)
  }

  function Directions(ms: seq<Modifier>): seq<SortDirection> {
    if ms == [] then []
    else (match ms[0] case AscOp => [Asc] case DescOp => [Desc] case _ => []) + Directions(ms[1..])
  }

  function Placements(ms: seq<Modifier>): seq<NullPlacement> {
    if ms == [] then []
    else (match ms[0] case NullsFirstOp => [First] case NullsLastOp => [Last] case _ => []) + Placements(ms[1..])
  }

  /** A clause means a key when it has one direction, at most one null placement (last by default)
      and a typed expression - in whatever order the modifiers are nested. */
  ghost predicate Denotes(c: Clause, k: NamedKey) {
    var placements := Placements(Chain(c));
    && Directions(Chain(c)) == [k.key.direction]
    && (placements == [k.key.nulls] || (placements == [] && k.key.nulls == Last))
    && Core(c).typed && Core(c).expression == k.expression
  }

  method NormalizeOrder(c: Clause) returns (r: Result<NamedKey, ClauseError>)
    ensures r.Ok? ==> Denotes(c, r.value)
    ensures (exists k :: Denotes(c, k)) ==> r.Ok?
    ensures r == Err(RepeatedDirection) ==> |Directions(Chain(c))| > 1
    ensures r == Err(RepeatedNulls) ==> |Placements(Chain(c))| > 1
    ensures r == Err(NoDirection) <==> Directions(Chain(c)) == [] && |Placements(Chain(c))| <= 1
  {
    var current := c;
    var direction: Option<SortDirection> := None;
    var nulls: Option<NullPlacement> := None;
    while current.Modified?
      invariant Core(current) == Core(c)
      invariant Directions(Chain(c)) == (if direction.Some? then [direction.value] else []) + Directions(Chain(current))
      invariant Placements(Chain(c)) == (if nulls.Some? then [nulls.value] else []) + Placements(Chain(current))
      decreases current
    {
      ghost var rest := Chain(current.element);
      assert Chain(current) == [current.modifier] + rest && Chain(current)[1..] == rest;
      match current.modifier {
        case AscOp =>
          if direction.Some? { return Err(RepeatedDirection); }
          direction := Some(Asc);
        case DescOp =>
          if direction.Some? { return Err(RepeatedDirection); }
          direction := Some(Desc);
        case NullsFirstOp =>
          if nulls.Some? { return Err(RepeatedNulls); }
          nulls := Some(First);
        case NullsLastOp =>
          if nulls.Some? { return Err(RepeatedNulls); }
          nulls := Some(Last);
      }
      current := current.element;
    }
    if direction.None? {
      return Err(NoDirection);
    }
    if !current.typed {
      return Err(NoValueType);
    }
    r := Ok(NamedKey(current.expression, OrderKey(direction.value, if nulls.Some? then nulls.value else Last)));
    assert Denotes(c, r.value);
  }

  /** No clause denotes two keys; without a null placement the nulls come last. */
  lemma DenotesOne(c: Clause, k: NamedKey, k': NamedKey)
    requires Denotes(c, k) && Denotes(c, k')
    ensures k == k' && (Placements(Chain(c)) == [] ==> k.key.nulls == Last)
  {
    var ds, ps := Directions(Chain(c)), Placements(Chain(c));
    assert ds[0] == k.key.direction == k'.key.direction;
    if ps != [] {
      assert ps[0] == k.key.nulls == k'.key.nulls;
    }
  }

  /** The explicit clause of a key, as `_OrderKey.clause` builds it. */
  function ClauseOf(k: NamedKey): Clause {
    Modified(if k.key.nulls.First? then NullsFirstOp else NullsLastOp,
             Modified(if k.key.direction.Asc? then AscOp else DescOp, Plain(k.expression, true)))
  }

  /** Reading back a key's own clause gives the key, and no clause means two keys. */
  lemma ClauseRoundTrip(k: NamedKey, k': NamedKey)
    ensures Denotes(ClauseOf(k), k') <==> k' == k
  {
    var c := ClauseOf(k);
    var ms := Chain(c);
    assert Chain(c.element) == [c.element.modifier] + [];
    assert ms == [c.modifier, c.element.modifier];
    var inner := [c.element.modifier];
    assert ms[1..] == inner && inner[1..] == [];
    assert Directions(inner) == [k.key.direction] + Directions([]);
    assert Placements(inner) == Placements([]);
    assert Directions(ms) == [k.key.direction];
    assert Placements(ms) == [k.key.nulls] + Placements(inner);
    assert Core(c) == Core(c.element) == Core(c.element.element);
    assert Placements(ms) == [k.key.nulls];
    if Denotes(c, k') {
      assert [k'.key.direction][0] == [k.key.direction][0] && [k'.key.nulls][0] == [k.key.nulls][0];
    }
  }
}
