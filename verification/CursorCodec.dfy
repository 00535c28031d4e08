/**
 Opaque cursor tokens: a signed payload, `base64url(payload) "." base64url(signature)`.

 The foreign parts stay abstract, as functions: how a column is fetched, written, read and bound
 (`Adapter`), the JSON text of a payload, and the keyed hash. What they must do is named in the
 predicates below. Together the adapters make up the driver of the paginator.
 */
module CursorCodec {
  import opened Common
  import opened Ordering
  import opened SeekPredicate
  import opened FetchedValues
  import opened PageQuery
  import opened Paginator
  import opened Base64Url

  const CURSOR_VERSION := 1
  const MAX_CURSOR_LENGTH := 8192

  datatype Payload = Payload(version: int, direction: Direction, boundary: Boundary, fingerprint: string, values: seq<Value>)

  /** One ordering column: the Python value fetched for a row, its JSON form (or a refusal), the value
      read back from JSON (or a refusal), and the database value a Python value is bound to. */
  datatype Adapter = Adapter(
    fetch: Row -> Value,
    dump: Value -> Option<Value>,
    validate: Value -> Option<Value>,
    bind: Value -> real)

  datatype Codec = Codec(
    adapters: seq<Adapter>,
    dumps: Payload -> seq<Byte>,
    loads: seq<Byte> -> Option<Payload>,
    hmac: (seq<Byte>, seq<Byte>) -> seq<Byte>,
    secret: seq<Byte>,
    context: seq<Byte>,
    fingerprint: string)

  /** A continuation as Python holds it: the payload of a token. */
  datatype Continuation = Continuation(direction: Direction, boundary: Boundary, values: seq<Value>)

  datatype EncodeError = UnserializableValue | TooLong

  datatype CursorError = InvalidCursor | CursorMismatch | UnsupportedVersion

  // ---- values

  /** None is JSON null; a non-finite float has a fixed text; any other value goes through the type
      adapter, and what comes out must be a JSON value. */
  function DumpCell(a: Adapter, v: Value): Option<Value> {
    match v
    case Missing => Some(Missing)
    case NaN => Some(Text("NaN"))
    case Infinite(negative) => Some(Text(if negative then "-Infinity" else "Infinity"))
    case _ =>
      var j := a.dump(v);
      if j.Some? && IsJson(j.value) then j else None
  }

  /** Values in full: None is JSON null, non-finite floats have fixed texts, and what a type adapter makes
      of any other value counts if it is a JSON value. */
  lemma CellInFull(a: Adapter, v: Value)
    ensures DumpCell(a, Missing) == Some(Missing) && DumpCell(a, NaN) == Some(Text("NaN"))
    ensures DumpCell(a, Infinite(false)) == Some(Text("Infinity")) && DumpCell(a, Infinite(true)) == Some(Text("-Infinity"))
    ensures v != Missing && v != NaN && !v.Infinite? ==>
              DumpCell(a, v) == if a.dump(v).Some? && IsJson(a.dump(v).value) then a.dump(v) else None
    ensures LoadCell(a, v) == if v == Missing then Some(Missing) else a.validate(v)
    ensures BindCell(a, v) == if v == Missing then Null else Val(a.bind(v))
  {
  }

  function LoadCell(a: Adapter, j: Value): Option<Value> {
    if j.Missing? then Some(Missing) else a.validate(j)
  }

  function DumpValues(adapters: seq<Adapter>, values: seq<Value>): Option<seq<Value>>
    requires |adapters| == |values|
  {
    if values == [] then Some([])
    else
      var head, tail := DumpCell(adapters[0], values[0]), DumpValues(adapters[1..], values[1..]);
      if head.None? || tail.None? then None else Some([head.value] + tail.value)
  }

  function LoadValues(adapters: seq<Adapter>, js: seq<Value>): Option<seq<Value>>
    requires |adapters| == |js|
  {
    if js == [] then Some([])
    else
      var head, tail := LoadCell(adapters[0], js[0]), LoadValues(adapters[1..], js[1..]);
      if head.None? || tail.None? then None else Some([head.value] + tail.value)
  }

  method SerializeValues(adapters: seq<Adapter>, values: seq<Value>) returns (r: Option<seq<Value>>)
    requires |adapters| == |values|
    ensures r == DumpValues(adapters, values)
  {
    var serialized: seq<Value> := [];
    var i := 0;
    assert adapters[0..] == adapters && values[0..] == values;
    PrefixedNone(DumpValues(adapters, values));
    while i < |values|
      invariant 0 <= i <= |values|
      invariant DumpValues(adapters, values) == Prefixed(serialized, DumpValues(adapters[i..], values[i..]))
    {
      assert adapters[i..][1..] == adapters[i + 1..] && values[i..][1..] == values[i + 1..];
      match DumpCell(adapters[i], values[i]) {
        case None => return None;
        case Some(j) =>
          PrefixedOnce(serialized, j, DumpValues(adapters[i + 1..], values[i + 1..]));
          serialized := serialized + [j];
      }
      i := i + 1;
    }
    assert serialized + [] == serialized;
    return Some(serialized);
  }

  method DeserializeValues(adapters: seq<Adapter>, js: seq<Value>) returns (r: Option<seq<Value>>)
    ensures |adapters| != |js| ==> r == None
    ensures |adapters| == |js| ==> r == LoadValues(adapters, js)
  {
    if |adapters| != |js| {
      return None;
    }
    var values: seq<Value> := [];
    var i := 0;
    assert adapters[0..] == adapters && js[0..] == js;
    PrefixedNone(LoadValues(adapters, js));
    while i < |js|
      invariant 0 <= i <= |js|
      invariant LoadValues(adapters, js) == Prefixed(values, LoadValues(adapters[i..], js[i..]))
    {
      assert adapters[i..][1..] == adapters[i + 1..] && js[i..][1..] == js[i + 1..];
      match LoadCell(adapters[i], js[i]) {
        case None => return None;
        case Some(c) =>
          PrefixedOnce(values, c, LoadValues(adapters[i + 1..], js[i + 1..]));
          values := values + [c];
      }
      i := i + 1;
    }
    assert values + [] == values;
    return Some(values);
  }

  function Prefixed(front: seq<Value>, rest: Option<seq<Value>>): Option<seq<Value>> {
    match rest case None => None case Some(vs) => Some(front + vs)
  }

  lemma PrefixedNone(rest: Option<seq<Value>>)
    ensures Prefixed([], rest) == rest
  {
    assert rest.Some? ==> [] + rest.value == rest.value;
  }

  lemma PrefixedOnce(front: seq<Value>, v: Value, rest: Option<seq<Value>>)
    ensures rest.Some? ==> Prefixed(front, Some([v] + rest.value)) == Prefixed(front + [v], rest)
  {
    assert rest.Some? ==> front + ([v] + rest.value) == (front + [v]) + rest.value;
  }

  // ---- tokens

  function SplitAtDot(s: string): Option<(string, string)> {
    if s == "" then None
    else if s[0] == '.' then Some(("", s[1..]))
    else match SplitAtDot(s[1..]) case None => None case Some(p) => Some(([s[0]] + p.0, p.1))
  }

  function Signature(cd: Codec, payload: seq<Byte>): seq<Byte> {
    cd.hmac(cd.secret, cd.context + payload)
  }

  function PayloadOf(cd: Codec, c: Continuation, js: seq<Value>): Payload {
    Payload(CURSOR_VERSION, c.direction, c.boundary, cd.fingerprint, js)
  }

  function EncodeCursor(cd: Codec, c: Continuation): Result<string, EncodeError>
    requires |c.values| == |cd.adapters|
  {
    match DumpValues(cd.adapters, c.values)
    case None => Err(UnserializableValue)
    case Some(js) =>
      var payload := cd.dumps(PayloadOf(cd, c, js));
      var token := Encode(payload) + "." + Encode(Signature(cd, payload));
      if |token| > MAX_CURSOR_LENGTH then Err(TooLong) else Ok(token)
  }

  /** The payload bytes of a token, once its shape and signature check out. */
  function OpenToken(cd: Codec, token: string): Option<seq<Byte>> {
    if |token| > MAX_CURSOR_LENGTH then None
    else match SplitAtDot(token)
      case None => None
      case Some(parts) =>
        var payload, signature := Decode(parts.0), Decode(parts.1);
        if payload.None? || signature.None? || signature.value != Signature(cd, payload.value) then None
        else payload
  }

  function DecodeCursor(cd: Codec, token: string): (r: Result<Continuation, CursorError>)
    ensures r.Ok? ==> |r.value.values| == |cd.adapters|
  {
    match OpenToken(cd, token)
    case None => Err(InvalidCursor)
    case Some(bytes) =>
      match cd.loads(bytes)
      case None => Err(InvalidCursor)
      case Some(p) =>
        if p.version != CURSOR_VERSION then Err(UnsupportedVersion)
        else if p.fingerprint != cd.fingerprint then Err(CursorMismatch)
        else if |p.values| != |cd.adapters| then Err(InvalidCursor)
        else
          LoadedLength(cd.adapters, p.values);
          match LoadValues(cd.adapters, p.values)
          case None => Err(InvalidCursor)
          case Some(values) => Ok(Continuation(p.direction, p.boundary, values))
  }

  lemma {:induction false} LoadedLength(adapters: seq<Adapter>, js: seq<Value>)
    requires |adapters| == |js|
    ensures LoadValues(adapters, js).Some? ==> |LoadValues(adapters, js).value| == |js|
  {
    if js != [] {
      LoadedLength(adapters[1..], js[1..]);
    }
  }

  // ---- what the foreign parts must do

  /** The adapter reads back what was written for this value, and writes none but None as JSON null. */
  ghost predicate FaithfulValue(a: Adapter, v: Value) {
    v.Missing? || (DumpCell(a, v).Some? ==> !DumpCell(a, v).value.Missing? && a.validate(DumpCell(a, v).value) == Some(v))
  }

  ghost predicate FaithfulTuple(adapters: seq<Adapter>, values: seq<Value>) {
    |adapters| == |values| && forall i :: 0 <= i < |values| ==> FaithfulValue(adapters[i], values[i])
  }

  /** JSON text carries every JSON value. */
  ghost predicate ParsesBack(cd: Codec) {
    forall p: Payload :: (forall i :: 0 <= i < |p.values| ==> IsJson(p.values[i])) ==> cd.loads(cd.dumps(p)) == Some(p)
  }

  // ---- round trips

  lemma {:induction false} DumpedAt(adapters: seq<Adapter>, values: seq<Value>)
    requires |adapters| == |values|
    ensures DumpValues(adapters, values).Some? <==> forall i :: 0 <= i < |values| ==> DumpCell(adapters[i], values[i]).Some?
    ensures DumpValues(adapters, values).Some? ==>
              var js := DumpValues(adapters, values).value;
              && |js| == |values|
              && forall i :: 0 <= i < |values| ==> js[i] == DumpCell(adapters[i], values[i]).value && IsJson(js[i])
  {
    if values != [] {
      DumpedAt(adapters[1..], values[1..]);
      forall i | 1 <= i < |values| ensures adapters[i] == adapters[1..][i - 1] && values[i] == values[1..][i - 1] {
      }
      if DumpValues(adapters[1..], values[1..]).None? {
        var i :| 0 <= i < |values| - 1 && DumpCell(adapters[1..][i], values[1..][i]).None?;
        assert DumpCell(adapters[i + 1], values[i + 1]).None?;
      }
    }
  }

  lemma {:induction false} LoadedAt(adapters: seq<Adapter>, js: seq<Value>)
    requires |adapters| == |js|
    ensures LoadValues(adapters, js).Some? <==> forall i :: 0 <= i < |js| ==> LoadCell(adapters[i], js[i]).Some?
    ensures LoadValues(adapters, js).Some? ==>
              var vs := LoadValues(adapters, js).value;
              |vs| == |js| && forall i :: 0 <= i < |js| ==> Some(vs[i]) == LoadCell(adapters[i], js[i])
  {
    if js != [] {
      LoadedAt(adapters[1..], js[1..]);
      forall i | 1 <= i < |js| ensures adapters[i] == adapters[1..][i - 1] && js[i] == js[1..][i - 1] {
      }
      if LoadValues(adapters[1..], js[1..]).None? {
        var i :| 0 <= i < |js| - 1 && LoadCell(adapters[1..][i], js[1..][i]).None?;
        assert LoadCell(adapters[i + 1], js[i + 1]).None?;
      }
    }
  }

  /** Serialised values read back as they were exactly when every adapter is faithful to its value. */
  lemma ValuesRoundTrip(adapters: seq<Adapter>, values: seq<Value>)
    requires |adapters| == |values| && DumpValues(adapters, values).Some?
    ensures |DumpValues(adapters, values).value| == |adapters|
    ensures LoadValues(adapters, DumpValues(adapters, values).value) == Some(values) <==> FaithfulTuple(adapters, values)
  {
    DumpedAt(adapters, values);
    var js := DumpValues(adapters, values).value;
    LoadedAt(adapters, js);
    var back := LoadValues(adapters, js);
    forall i | 0 <= i < |values|
      ensures LoadCell(adapters[i], js[i]) == Some(values[i]) <==> FaithfulValue(adapters[i], values[i])
    {
      assert DumpCell(adapters[i], values[i]) == Some(js[i]);
    }
    if FaithfulTuple(adapters, values) {
      assert forall i :: 0 <= i < |values| ==> back.value[i] == values[i];
      assert back.value == values;
    }
  }

  lemma {:induction false} SplitJoined(a: string, b: string)
    requires '.' !in a
    ensures SplitAtDot(a + "." + b) == Some((a, b))
  {
    var s := a + "." + b;
    if a == "" {
      assert s[1..] == b;
    } else {
      assert s[1..] == a[1..] + "." + b;
      SplitJoined(a[1..], b);
      assert a == [a[0]] + a[1..];
    }
  }

  lemma OpenEncoded(cd: Codec, payload: seq<Byte>, token: string)
    requires token == Encode(payload) + "." + Encode(Signature(cd, payload)) && |token| <= MAX_CURSOR_LENGTH
    ensures OpenToken(cd, token) == Some(payload)
  {
    RoundTrip(payload);
    RoundTrip(Signature(cd, payload));
    SplitJoined(Encode(payload), Encode(Signature(cd, payload)));
  }

  lemma DecodeOpened(cd: Codec, c: Continuation)
    requires |c.values| == |cd.adapters| && ParsesBack(cd) && EncodeCursor(cd, c).Ok?
    ensures var js := DumpValues(cd.adapters, c.values).value;
            && |js| == |cd.adapters|
            && DecodeCursor(cd, EncodeCursor(cd, c).value) ==
                 match LoadValues(cd.adapters, js) case None => Err(InvalidCursor) case Some(vs) => Ok(Continuation(c.direction, c.boundary, vs))
  {
    var js := DumpValues(cd.adapters, c.values).value;
    var p := PayloadOf(cd, c, js);
    DumpedAt(cd.adapters, c.values);
    OpenEncoded(cd, cd.dumps(p), EncodeCursor(cd, c).value);
    assert cd.loads(cd.dumps(p)) == Some(p);
  }

  /** A token decodes, under the same secret, fingerprint and ordering, to the direction, boundary and
      values it was made from, exactly when every adapter is faithful to its value. */
  lemma CursorRoundTrip(cd: Codec, c: Continuation)
    requires |c.values| == |cd.adapters| && ParsesBack(cd) && EncodeCursor(cd, c).Ok?
    ensures DecodeCursor(cd, EncodeCursor(cd, c).value) == Ok(c) <==> FaithfulTuple(cd.adapters, c.values)
  {
    DecodeOpened(cd, c);
    ValuesRoundTrip(cd.adapters, c.values);
  }

  /** What the encoder issues, to the letter: the payload of version 1, and the keyed hash of the context
      and the payload, both in base64 with a dot between; nothing longer than 8192 characters. */
  lemma TokenInFull(cd: Codec, c: Continuation)
    requires |c.values| == |cd.adapters|
    ensures var js := DumpValues(cd.adapters, c.values);
            if js.None? then EncodeCursor(cd, c) == Err(UnserializableValue)
            else
              var payload := cd.dumps(Payload(1, c.direction, c.boundary, cd.fingerprint, js.value));
              var token := Encode(payload) + "." + Encode(cd.hmac(cd.secret, cd.context + payload));
              EncodeCursor(cd, c) == if |token| <= 8192 then Ok(token) else Err(TooLong)
  {
  }

  lemma {:induction false} SplitsAtFirstDot(s: string)
    ensures SplitAtDot(s).None? <==> '.' !in s
    ensures SplitAtDot(s).Some? ==> var p := SplitAtDot(s).value; s == p.0 + "." + p.1 && '.' !in p.0
  {
    if s != "" && s[0] != '.' {
      SplitsAtFirstDot(s[1..]);
      assert s == [s[0]] + s[1..];
      if SplitAtDot(s[1..]).Some? {
        var p := SplitAtDot(s[1..]).value;
        assert s == ([s[0]] + p.0) + "." + p.1;
      }
    }
  }

  /** The two parts of a token, and the payload it carries. */
  datatype Parts = Parts(body: string, tag: string, bytes: seq<Byte>, payload: Payload)

  /** A token of the right shape whose second part is the keyed hash of the context and the payload. */
  ghost predicate Signed(cd: Codec, token: string, q: Parts) {
    && |token| <= 8192 && token == q.body + "." + q.tag && '.' !in q.body
    && Decode(q.body) == Some(q.bytes) && Decode(q.tag) == Some(cd.hmac(cd.secret, cd.context + q.bytes))
    && cd.loads(q.bytes) == Some(q.payload)
  }

  /** Why a signed token is refused: another version, else another query, else values that are too few, too
      many or unreadable. */
  lemma SignedRefused(cd: Codec, token: string, q: Parts)
    requires Signed(cd, token, q)
    ensures DecodeCursor(cd, token) ==
              if q.payload.version != 1 then Err(UnsupportedVersion)
              else if q.payload.fingerprint != cd.fingerprint then Err(CursorMismatch)
              else if |q.payload.values| == |cd.adapters| && LoadValues(cd.adapters, q.payload.values).Some?
              then Ok(Continuation(q.payload.direction, q.payload.boundary, LoadValues(cd.adapters, q.payload.values).value))
              else Err(InvalidCursor)
  {
    SplitJoined(q.body, q.tag);
  }

  /** A payload that is taken out of a token was signed. */
  lemma OpenedIsSigned(cd: Codec, token: string) returns (q: Parts)
    requires OpenToken(cd, token).Some? && cd.loads(OpenToken(cd, token).value).Some?
    ensures Signed(cd, token, q)
  {
    SplitsAtFirstDot(token);
    var p, bytes := SplitAtDot(token).value, OpenToken(cd, token).value;
    q := Parts(p.0, p.1, bytes, cd.loads(bytes).value);
  }

  /** Everything else is an invalid cursor. */
  lemma UnsignedRefused(cd: Codec, token: string)
    requires forall q :: !Signed(cd, token, q)
    ensures DecodeCursor(cd, token) == Err(InvalidCursor)
  {
    if OpenToken(cd, token).Some? && cd.loads(OpenToken(cd, token).value).Some? {
      var q := OpenedIsSigned(cd, token);
    }
  }

  /** The payload of a signed token counts: version 1, made for this query, a readable value for each key. */
  ghost predicate Counts(cd: Codec, p: Payload, c: Continuation) {
    && p.version == 1 && p.fingerprint == cd.fingerprint && |p.values| == |cd.adapters|
    && LoadValues(cd.adapters, p.values) == Some(c.values) && c.direction == p.direction && c.boundary == p.boundary
  }

  /** A token is accepted exactly if it is signed and its payload counts; and it then stands for what its
      payload says. */
  lemma AcceptedExactly(cd: Codec, token: string, c: Continuation)
    ensures DecodeCursor(cd, token) == Ok(c) <==> exists q :: Signed(cd, token, q) && Counts(cd, q.payload, c)
  {
    if q :| Signed(cd, token, q) {
      SignedRefused(cd, token, q);
      forall r | Signed(cd, token, r) ensures DecodeCursor(cd, token) == Ok(c) <==> Counts(cd, r.payload, c) {
        SignedRefused(cd, token, r);
      }
    } else {
      UnsignedRefused(cd, token);
    }
  }

  /** A token signed with one secret is refused under every other with which the hash differs. */
  lemma OtherSecretIsRefused(cd: Codec, payload: seq<Byte>, secret: seq<Byte>)
    requires cd.hmac(secret, cd.context + payload) != cd.hmac(cd.secret, cd.context + payload)
    ensures DecodeCursor(cd.(secret := secret), Encode(payload) + "." + Encode(cd.hmac(cd.secret, cd.context + payload))) == Err(InvalidCursor)
  {
    RoundTrip(payload);
    RoundTrip(cd.hmac(cd.secret, cd.context + payload));
    SplitJoined(Encode(payload), Encode(cd.hmac(cd.secret, cd.context + payload)));
  }

  /** ... and so is one signed in another context. */
  lemma OtherContextIsRefused(cd: Codec, payload: seq<Byte>, context: seq<Byte>)
    requires cd.hmac(cd.secret, context + payload) != cd.hmac(cd.secret, cd.context + payload)
    ensures DecodeCursor(cd.(context := context), Encode(payload) + "." + Encode(cd.hmac(cd.secret, cd.context + payload))) == Err(InvalidCursor)
  {
    RoundTrip(payload);
    RoundTrip(cd.hmac(cd.secret, cd.context + payload));
    SplitJoined(Encode(payload), Encode(cd.hmac(cd.secret, cd.context + payload)));
  }

  /** What becomes of any correctly signed payload, error by error in the order they are looked for. */
  lemma SignedPayload(cd: Codec, p: Payload, token: string)
    requires ParsesBack(cd) && forall i :: 0 <= i < |p.values| ==> IsJson(p.values[i])
    requires token == Encode(cd.dumps(p)) + "." + Encode(cd.hmac(cd.secret, cd.context + cd.dumps(p)))
    ensures |token| > 8192 ==> DecodeCursor(cd, token) == Err(InvalidCursor)
    ensures |token| <= 8192 ==>
              && (DecodeCursor(cd, token) == Err(UnsupportedVersion) <==> p.version != 1)
              && (DecodeCursor(cd, token) == Err(CursorMismatch) <==> p.version == 1 && p.fingerprint != cd.fingerprint)
              && (DecodeCursor(cd, token).Ok? <==>
                    && p.version == 1 && p.fingerprint == cd.fingerprint
                    && |p.values| == |cd.adapters| && LoadValues(cd.adapters, p.values).Some?)
  {
    if |token| <= MAX_CURSOR_LENGTH {
      OpenEncoded(cd, cd.dumps(p), token);
    }
  }

  /** A token made for one query is refused by every other: the fingerprints differ. */
  lemma OtherQueryIsRefused(cd: Codec, c: Continuation, fingerprint: string)
    requires |c.values| == |cd.adapters| && ParsesBack(cd)
    requires EncodeCursor(cd, c).Ok? && fingerprint != cd.fingerprint
    ensures DecodeCursor(cd.(fingerprint := fingerprint), EncodeCursor(cd, c).value) == Err(CursorMismatch)
  {
    var js := DumpValues(cd.adapters, c.values).value;
    DumpedAt(cd.adapters, c.values);
    assert cd.loads(cd.dumps(PayloadOf(cd, c, js))) == Some(PayloadOf(cd, c, js));
    OpenEncoded(cd.(fingerprint := fingerprint), cd.dumps(PayloadOf(cd, c, js)), EncodeCursor(cd, c).value);
  }

  /** A payload with anything but its keyed hash for a signature is refused as invalid. */
  lemma OtherKeyIsRefused(cd: Codec, payload: seq<Byte>, signature: seq<Byte>)
    requires signature != cd.hmac(cd.secret, cd.context + payload)
    ensures DecodeCursor(cd, Encode(payload) + "." + Encode(signature)) == Err(InvalidCursor)
  {
    RoundTrip(payload);
    RoundTrip(signature);
    SplitJoined(Encode(payload), Encode(signature));
  }

  // ---- the driver the adapters make up

  function ValuesOf(adapters: seq<Adapter>, r: Row): (values: seq<Value>)
    ensures |values| == |adapters|
  {
    seq(|adapters|, i requires 0 <= i < |adapters| => adapters[i].fetch(r))
  }

  /** Bind parameters: None is compared as SQL NULL. */
  function BindCell(a: Adapter, v: Value): Cell {
    if v.Missing? then Null else Val(a.bind(v))
  }

  function Bound(adapters: seq<Adapter>, values: seq<Value>): (t: Tuple)
    requires |adapters| == |values|
    ensures |t| == |values|
  {
    seq(|values|, i requires 0 <= i < |values| => BindCell(adapters[i], values[i]))
  }

  /** What the key values of a row read back as, from the cursor made of them. */
  function ReadBack(adapters: seq<Adapter>, r: Row): (values: Option<seq<Value>>)
    ensures values.Some? ==> |values.value| == |adapters|
  {
    DumpedAt(adapters, ValuesOf(adapters, r));
    match DumpValues(adapters, ValuesOf(adapters, r))
    case None => None
    case Some(js) =>
      LoadedLength(adapters, js);
      LoadValues(adapters, js)
  }

  /** The test between neighbouring rows: whole tuples equal as fetched, or equal once serialised. */
  predicate Detected(adapters: seq<Adapter>, a: seq<Value>, b: seq<Value>)
    requires |a| == |b| == |adapters|
  {
    || TupleEqual(a, b)
    || (DumpValues(adapters, a).Some? && DumpValues(adapters, b).Some?
        && TupleEqual(DumpValues(adapters, a).value, DumpValues(adapters, b).value))
  }

  /** The driver: a cursor that does not read back is refused, so its mark does not matter. */
  function DriverOf(adapters: seq<Adapter>): Driver {
    Driver((r, s) => Detected(adapters, ValuesOf(adapters, r), ValuesOf(adapters, s)),
           r => match ReadBack(adapters, r) case Some(vs) => Bound(adapters, vs) case None => Bound(adapters, ValuesOf(adapters, r)),
           r => DumpValues(adapters, ValuesOf(adapters, r)).Some?)
  }

  /** A key reads back as itself: it is fetched as None only where it is NULL, and otherwise what JSON
      makes of it is bound to the same database value. */
  ghost predicate FaithfulKey(a: Adapter, v: Value, key: Cell) {
    if v.Missing? then key.Null?
    else
      var j := DumpCell(a, v);
      && j.Some?
      && (if j.value.Missing? then key.Null?
          else a.validate(j.value).Some? && BindCell(a, a.validate(j.value).value) == key)
  }

  /** The cursor made from a row reads back, and as the row's own key values, exactly when each of its
      keys does. */
  lemma MarkIsExact(adapters: seq<Adapter>, r: Row)
    requires |adapters| == |r.keys|
    ensures ReadBack(adapters, r).Some? && DriverOf(adapters).mark(r) == r.keys
       <==> forall i :: 0 <= i < |adapters| ==> FaithfulKey(adapters[i], adapters[i].fetch(r), r.keys[i])
  {
    var values := ValuesOf(adapters, r);
    DumpedAt(adapters, values);
    if DumpValues(adapters, values).Some? {
      var js := DumpValues(adapters, values).value;
      LoadedAt(adapters, js);
      forall i | 0 <= i < |adapters|
        ensures DumpCell(adapters[i], adapters[i].fetch(r)) == Some(js[i])
        ensures FaithfulKey(adapters[i], adapters[i].fetch(r), r.keys[i]) <==>
                LoadCell(adapters[i], js[i]).Some? && BindCell(adapters[i], LoadCell(adapters[i], js[i]).value) == r.keys[i]
      {
        assert values[i] == adapters[i].fetch(r);
      }
      if LoadValues(adapters, js).Some? {
        var back := LoadValues(adapters, js).value;
        assert DriverOf(adapters).mark(r) == Bound(adapters, back);
        assert forall i :: 0 <= i < |adapters| ==> Bound(adapters, back)[i] == BindCell(adapters[i], back[i]);
      }
    } else {
      var i :| 0 <= i < |values| && DumpCell(adapters[i], values[i]).None?;
      assert !FaithfulKey(adapters[i], adapters[i].fetch(r), r.keys[i]);
    }
  }
}
