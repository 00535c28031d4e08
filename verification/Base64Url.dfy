/**
 Base64 with the URL-safe alphabet (section 5 of RFC 4648), padding stripped on the way out and
 recomputed from the length on the way in (section 3.2).
 */
module Base64Url {
  import opened Common

  type Byte = b: int | 0 <= b < 256
  type Sextet = n: int | 0 <= n < 64

  function Symbol(n: Sextet): char {
    if n < 26 then ('A' as int + n) as char
    else if n < 52 then ('a' as int + n - 26) as char
    else if n < 62 then ('0' as int + n - 52) as char
    else if n == 62 then '-' else '_'
  }

  /** The decoder maps `-` and `_` onto `+` and `/`, so it takes either spelling. */
  function SymbolValue(c: char): Option<Sextet> {
    if 'A' <= c <= 'Z' then Some(c as int - 'A' as int)
    else if 'a' <= c <= 'z' then Some(c as int - 'a' as int + 26)
    else if '0' <= c <= '9' then Some(c as int - '0' as int + 52)
    else if c == '-' || c == '+' then Some(62)
    else if c == '_' || c == '/' then Some(63)
    else None
  }

  // The four sextets of a group of three bytes.
  function Top(a: Byte): Sextet { a / 4 }
  function Upper(a: Byte, b: Byte): Sextet { a % 4 * 16 + b / 16 }
  function Lower(b: Byte, c: Byte): Sextet { b % 16 * 4 + c / 64 }
  function Bottom(c: Byte): Sextet { c % 64 }

  function Quad(w: Sextet, x: Sextet, y: Sextet, z: Sextet): string {
    [Symbol(w), Symbol(x), Symbol(y), Symbol(z)]
  }

  function Padded(bs: seq<Byte>): string {
    if bs == [] then ""
    else
      var a := bs[0];
      if |bs| == 1 then [Symbol(Top(a)), Symbol(Upper(a, 0)), '=', '=']
      else
        var b := bs[1];
        if |bs| == 2 then [Symbol(Top(a)), Symbol(Upper(a, b)), Symbol(Lower(b, 0)), '=']
        else
          var c := bs[2];
          Quad(Top(a), Upper(a, b), Lower(b, c), Bottom(c)) + Padded(bs[3..])
  }

  function StripPadding(s: string): string {
    if s != [] && s[|s| - 1] == '=' then StripPadding(s[..|s| - 1]) else s
  }

  function Repeat(c: char, n: nat): (s: string)
    ensures |s| == n && forall i :: 0 <= i < n ==> s[i] == c
  {
    seq(n, _ => c)
  }

  // The three bytes of a group of four sextets.
  function First(w: Sextet, x: Sextet): Byte { w * 4 + x / 16 }
  function Second(x: Sextet, y: Sextet): Byte { x % 16 * 16 + y / 4 }
  function Third(y: Sextet, z: Sextet): Byte { y % 4 * 64 + z }

  /** The last group, when it ends in padding. */
  function DecodeTail(s: string): Option<seq<Byte>>
    requires |s| == 4
  {
    var w, x, y := SymbolValue(s[0]), SymbolValue(s[1]), SymbolValue(s[2]);
    if w.None? || x.None? then None
    else if s[2] == '=' then Some([First(w.value, x.value)])
    else if y.None? then None
    else Some([First(w.value, x.value), Second(x.value, y.value)])
  }

  /** Strict decoding of a padded string: whole groups of four, padding only in the last. */
  function DecodePadded(s: string): Option<seq<Byte>> {
    if s == "" then Some([])
    else if |s| < 4 then None
    else if |s| == 4 && s[3] == '=' then DecodeTail(s)
    else
      var w, x, y, z := SymbolValue(s[0]), SymbolValue(s[1]), SymbolValue(s[2]), SymbolValue(s[3]);
      var rest := DecodePadded(s[4..]);
      if w.None? || x.None? || y.None? || z.None? || rest.None? then None
      else Some([First(w.value, x.value), Second(x.value, y.value), Third(y.value, z.value)] + rest.value)
  }

  function Encode(bs: seq<Byte>): string { StripPadding(Padded(bs)) }

  /** `-n % 4`, which Python and Dafny agree on: the remainder is never negative. */
  function PadLength(n: int): (k: nat)
    ensures k < 4 && (n + k) % 4 == 0
  {
    -n % 4
  }

  function Repadded(s: string): string { s + Repeat('=', PadLength(|s|)) }

  function Decode(s: string): Option<seq<Byte>> { DecodePadded(Repadded(s)) }

  lemma SymbolRoundTrip(n: Sextet)
    ensures SymbolValue(Symbol(n)) == Some(n)
    ensures Symbol(n) != '=' && Symbol(n) != '.'
  {
  }

  // ---- the encoding itself, told from tables and numbers

  /** The symbols in order: A to Z, a to z, 0 to 9, then `-` and `_`. */
  lemma SymbolTable(n: Sextet)
    ensures Symbol(0) == 'A' && Symbol(25) == 'Z' && Symbol(26) == 'a' && Symbol(51) == 'z'
    ensures Symbol(52) == '0' && Symbol(61) == '9' && Symbol(62) == '-' && Symbol(63) == '_'
    ensures n !in {25, 51, 61, 62, 63} ==> Symbol(n + 1) as int == Symbol(n) as int + 1
  {
  }

  /** The decoder knows these symbols, and `+` and `/` for the last two, and no others. */
  lemma SymbolsKnown(c: char)
    ensures SymbolValue('+') == Some(62) && SymbolValue('/') == Some(63)
    ensures SymbolValue(c).Some? ==> Symbol(SymbolValue(c).value) == c || c == '+' || c == '/'
  {
  }

  /** Three bytes and their four sextets are the same 24 bits. */
  lemma GroupBits(a: Byte, b: Byte, c: Byte)
    ensures 65536 * a + 256 * b + c == 262144 * Top(a) + 4096 * Upper(a, b) + 64 * Lower(b, c) + Bottom(c)
  {
  }

  /** The test vectors of section 10 of RFC 4648, without padding, and one with the symbols of the
      URL-safe alphabet. */
  lemma TestVectors()
    ensures Encode([]) == "" && Encode([102]) == "Zg" && Encode([102, 111]) == "Zm8" && Encode([102, 111, 111]) == "Zm9v"
    ensures Encode([102, 111, 111, 98]) == "Zm9vYg" && Encode([251, 255]) == "-_8"
  {
    assert Padded([102]) == "Zg==";
    assert Padded([102, 111]) == "Zm8=";
    assert Padded([102, 111, 111]) == "Zm9v" + Padded([]);
    assert [102, 111, 111, 98][3..] == [98];
    assert Padded([98]) == "Yg==";
    assert Padded([102, 111, 111, 98]) == "Zm9v" + "Yg==";
    assert Padded([251, 255]) == "-_8=";
    StripsExactly("Zg", 2);
    StripsExactly("Zm8", 1);
    StripsExactly("Zm9v", 0);
    StripsExactly("Zm9vYg", 2);
    StripsExactly("-_8", 1);
    assert "Zg" + Repeat('=', 2) == "Zg==" && "Zm8" + Repeat('=', 1) == "Zm8=" && "Zm9v" + Repeat('=', 0) == "Zm9v";
    assert "Zm9vYg" + Repeat('=', 2) == "Zm9vYg==" == "Zm9v" + "Yg==" && "-_8" + Repeat('=', 1) == "-_8=";
  }

  predicate Bare(s: string) {
    forall i :: 0 <= i < |s| ==> SymbolValue(s[i]).Some?
  }

  lemma QuadIsBare(w: Sextet, x: Sextet, y: Sextet, z: Sextet)
    ensures Bare(Quad(w, x, y, z)) && '.' !in Quad(w, x, y, z)
    ensures SymbolValue(Symbol(w)).Some? && SymbolValue(Symbol(x)).Some? && SymbolValue(Symbol(y)).Some?
  {
    SymbolRoundTrip(w);
    SymbolRoundTrip(x);
    SymbolRoundTrip(y);
    SymbolRoundTrip(z);
  }

  lemma TailShape(bs: seq<Byte>) returns (body: string, pads: nat)
    requires |bs| < 3
    ensures Padded(bs) == body + Repeat('=', pads)
    ensures Bare(body) && '.' !in body && pads <= 2 && WholeQuads(|body| + pads)
  {
    if |bs| == 2 {
      SymbolRoundTrip(Top(bs[0]));
      SymbolRoundTrip(Upper(bs[0], bs[1]));
      SymbolRoundTrip(Lower(bs[1], 0));
      body, pads := [Symbol(Top(bs[0])), Symbol(Upper(bs[0], bs[1])), Symbol(Lower(bs[1], 0))], 1;
    } else if |bs| == 1 {
      SymbolRoundTrip(Top(bs[0]));
      SymbolRoundTrip(Upper(bs[0], 0));
      body, pads := [Symbol(Top(bs[0])), Symbol(Upper(bs[0], 0))], 2;
    } else {
      body, pads := "", 0;
    }
  }

  predicate WholeQuads(n: nat) { n % 4 == 0 }

  lemma OneQuadMore(n: nat)
    requires WholeQuads(n)
    ensures WholeQuads(n + 4)
  {
  }

  /** The encoding is a bare body and at most two pads, filling whole groups of four. */
  lemma {:induction false} PaddedShape(bs: seq<Byte>) returns (body: string, pads: nat)
    ensures Padded(bs) == body + Repeat('=', pads)
    ensures Bare(body) && '.' !in body && pads <= 2 && WholeQuads(|body| + pads)
  {
    if |bs| >= 3 {
      var rest;
      rest, pads := PaddedShape(bs[3..]);
      var w, x, y, z := Top(bs[0]), Upper(bs[0], bs[1]), Lower(bs[1], bs[2]), Bottom(bs[2]);
      QuadIsBare(w, x, y, z);
      body := Quad(w, x, y, z) + rest;
      OneQuadMore(|rest| + pads);
      assert body + Repeat('=', pads) == Quad(w, x, y, z) + (rest + Repeat('=', pads));
    } else {
      body, pads := TailShape(bs);
    }
  }

  lemma {:induction false} StripsExactly(body: string, pads: nat)
    requires Bare(body)
    ensures StripPadding(body + Repeat('=', pads)) == body
  {
    var s := body + Repeat('=', pads);
    if pads > 0 {
      assert s[..|s| - 1] == body + Repeat('=', pads - 1);
      StripsExactly(body, pads - 1);
    } else {
      assert s == body;
    }
  }

  lemma SextetsRoundTrip(a: Byte, b: Byte, c: Byte)
    ensures First(Top(a), Upper(a, b)) == a
    ensures Second(Upper(a, b), Lower(b, c)) == b
    ensures Third(Lower(b, c), Bottom(c)) == c
  {
  }

  lemma TwoByteTail(a: Byte, b: Byte)
    ensures DecodeTail([Symbol(Top(a)), Symbol(Upper(a, b)), Symbol(Lower(b, 0)), '=']) == Some([a, b])
  {
    SymbolRoundTrip(Top(a));
    SymbolRoundTrip(Upper(a, b));
    SymbolRoundTrip(Lower(b, 0));
    SextetsRoundTrip(a, b, 0);
  }

  lemma OneByteTail(a: Byte, x: Sextet)
    requires x == Upper(a, 0)
    ensures DecodeTail([Symbol(Top(a)), Symbol(x), '=', '=']) == Some([a])
  {
    SymbolRoundTrip(Top(a));
    SymbolRoundTrip(x);
    assert First(Top(a), x) == a by {
      SextetsRoundTrip(a, 0, 0);
    }
  }

  lemma TailRoundTrip(bs: seq<Byte>)
    requires |bs| < 3
    ensures DecodePadded(Padded(bs)) == Some(bs)
  {
    if |bs| == 2 {
      TwoByteTail(bs[0], bs[1]);
      assert bs == [bs[0], bs[1]];
    } else if |bs| == 1 {
      OneByteTail(bs[0], Upper(bs[0], 0));
      assert bs == [bs[0]];
    }
  }

  lemma QuadDecodes(c: string, w: Sextet, x: Sextet, y: Sextet, z: Sextet, rest: string)
    requires |c| == 4 && c[3] != '=' && DecodePadded(rest).Some?
    requires SymbolValue(c[0]) == Some(w) && SymbolValue(c[1]) == Some(x) && SymbolValue(c[2]) == Some(y) && SymbolValue(c[3]) == Some(z)
    ensures DecodePadded(c + rest) == Some([First(w, x), Second(x, y), Third(y, z)] + DecodePadded(rest).value)
  {
    var s := c + rest;
    assert s[4..] == rest;
    assert s[0] == c[0] && s[1] == c[1] && s[2] == c[2] && s[3] == c[3];
  }

  lemma GroupRoundTrip(a: Byte, b: Byte, c: Byte, tail: seq<Byte>, rest: string)
    requires DecodePadded(rest) == Some(tail)
    ensures DecodePadded(Quad(Top(a), Upper(a, b), Lower(b, c), Bottom(c)) + rest) == Some([a, b, c] + tail)
  {
    SymbolRoundTrip(Top(a));
    SymbolRoundTrip(Upper(a, b));
    SymbolRoundTrip(Lower(b, c));
    SymbolRoundTrip(Bottom(c));
    QuadDecodes(Quad(Top(a), Upper(a, b), Lower(b, c), Bottom(c)), Top(a), Upper(a, b), Lower(b, c), Bottom(c), rest);
    SextetsRoundTrip(a, b, c);
  }

  lemma {:induction false} PaddedRoundTrip(bs: seq<Byte>)
    ensures DecodePadded(Padded(bs)) == Some(bs)
  {
    if |bs| >= 3 {
      PaddedRoundTrip(bs[3..]);
      GroupRoundTrip(bs[0], bs[1], bs[2], bs[3..], Padded(bs[3..]));
      assert bs == [bs[0], bs[1], bs[2]] + bs[3..];
    } else {
      TailRoundTrip(bs);
    }
  }

  lemma PadCount(n: nat, pads: nat)
    requires pads <= 2 && WholeQuads(n + pads)
    ensures PadLength(n) == pads
  {
    var k, q, r := PadLength(n), (n + pads) / 4, (n + PadLength(n)) / 4;
    assert n + pads == 4 * q && n + k == 4 * r;
    assert k - pads == 4 * (r - q);
  }

  lemma PaddingRecomputed(body: string, pads: nat)
    requires pads <= 2 && WholeQuads(|body| + pads)
    ensures Repadded(body) == body + Repeat('=', pads)
  {
    PadCount(|body|, pads);
  }

  /** Every byte string survives: strip the padding, recompute it from the length, decode. The text
      in between holds no dot, so joining two of them with one dot is unambiguous. */
  lemma RoundTrip(bs: seq<Byte>)
    ensures Decode(Encode(bs)) == Some(bs)
    ensures '.' !in Encode(bs)
  {
    var body, pads := PaddedShape(bs);
    StripsExactly(body, pads);
    PaddingRecomputed(body, pads);
    PaddedRoundTrip(bs);
  }
}
