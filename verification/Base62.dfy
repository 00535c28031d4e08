/** Base62 text: digits, lower-case letters, upper-case letters. */
module Base62 {
  import opened Common

  datatype Base62Error = NegativeNumber | InvalidCharacter

  type Digit = d: int | 0 <= d < 62

  function CharOf(d: Digit): char {
    if d < 10 then ('0' as int + d) as char
    else if d < 36 then ('a' as int + d - 10) as char
    else ('A' as int + d - 36) as char
  }

  function DigitOf(c: char): (d: Option<Digit>)
    ensures d.Some? ==> CharOf(d.value) == c
  {
    if '0' <= c <= '9' then Some(c as int - '0' as int)
    else if 'a' <= c <= 'z' then Some(c as int - 'a' as int + 10)
    else if 'A' <= c <= 'Z' then Some(c as int - 'A' as int + 36)
    else None
  }

  /** The digits in order: 0 to 9, a to z, A to Z. */
  lemma CharTable(d: Digit)
    ensures CharOf(0) == '0' && CharOf(9) == '9' && CharOf(10) == 'a' && CharOf(35) == 'z' && CharOf(36) == 'A' && CharOf(61) == 'Z'
    ensures d !in {9, 35, 61} ==> CharOf(d + 1) as int == CharOf(d) as int + 1
  {
  }

  // ---- positional notation, most significant digit first

  function Digits(n: nat): (ds: seq<Digit>)
    ensures ds != []
  {
    if n < 62 then [n] else Digits(n / 62) + [n % 62]
  }

  function Value(ds: seq<Digit>): nat {
    if ds == [] then 0 else Value(ds[..|ds| - 1]) * 62 + ds[|ds| - 1]
  }

  function Power(k: nat): nat {
    if k == 0 then 1 else 62 * Power(k - 1)
  }

  lemma {:induction false} ValueOfDigits(n: nat)
    ensures Value(Digits(n)) == n
  {
    var ds := Digits(n);
    if n < 62 {
      assert ds[..0] == [];
    } else {
      ValueOfDigits(n / 62);
      assert ds[..|ds| - 1] == Digits(n / 62);
    }
  }

  /** Notation has no leading zero, but for zero itself. */
  lemma {:induction false} NoLeadingZero(n: nat)
    ensures Digits(n)[0] == 0 <==> n == 0
    ensures n == 0 ==> |Digits(n)| == 1
  {
    if n >= 62 {
      NoLeadingZero(n / 62);
    }
  }

  lemma {:induction false} ValueIsPositive(ds: seq<Digit>)
    requires ds != [] && ds[0] != 0
    ensures Value(ds) > 0
  {
    if |ds| > 1 {
      ValueIsPositive(ds[..|ds| - 1]);
    }
  }

  lemma {:induction false} DigitsOfValue(ds: seq<Digit>)
    requires ds != [] && (|ds| == 1 || ds[0] != 0)
    ensures Digits(Value(ds)) == ds
  {
    var front, last := ds[..|ds| - 1], ds[|ds| - 1];
    assert ds == front + [last];
    if |ds| > 1 {
      ValueIsPositive(front);
      DigitsOfValue(front);
    }
  }

  lemma {:induction false} DigitCount(n: nat)
    ensures n < Power(|Digits(n)|)
    ensures n > 0 ==> Power(|Digits(n)| - 1) <= n
  {
    if n < 62 {
      assert Power(1) == 62 * Power(0);
    } else {
      DigitCount(n / 62);
    }
  }

  lemma {:induction false} PowerMono(j: nat, k: nat)
    requires j <= k
    ensures Power(j) <= Power(k)
  {
    if j < k {
      PowerMono(j, k - 1);
    }
  }

  // ---- text

  function Text(ds: seq<Digit>): (s: string)
    ensures |s| == |ds| && forall i :: 0 <= i < |s| ==> s[i] == CharOf(ds[i])
  {
    seq(|ds|, i requires 0 <= i < |ds| => CharOf(ds[i]))
  }

  predicate Valid(s: string) {
    forall i :: 0 <= i < |s| ==> DigitOf(s[i]).Some?
  }

  function DigitsOf(s: string): (ds: seq<Digit>)
    requires Valid(s)
    ensures |ds| == |s| && forall i :: 0 <= i < |s| ==> DigitOf(s[i]) == Some(ds[i])
  {
    seq(|s|, i requires 0 <= i < |s| => DigitOf(s[i]).value)
  }

  method Encode(num: int) returns (r: Result<string, Base62Error>)
    ensures num < 0 ==> r == Err(NegativeNumber)
    ensures num >= 0 ==> r == Ok(Text(Digits(num)))
  {
    if num < 0 {
      return Err(NegativeNumber);
    }
    if num == 0 {
      assert Text(Digits(0)) == [CharOf(0)];
      return Ok([CharOf(0)]);
    }
    var n: nat := num;
    var encoded: seq<char> := [];
    while n > 0
      invariant n > 0 ==> Text(Digits(num)) == Text(Digits(n)) + Reversed(encoded)
      invariant n == 0 ==> Text(Digits(num)) == Reversed(encoded)
      decreases n
    {
      ghost var before := n;
      var remainder := n % 62;
      n := n / 62;
      encoded := encoded + [CharOf(remainder)];
      assert Reversed(encoded) == [CharOf(remainder)] + Reversed(encoded[..|encoded| - 1]);
      TextSplits(before);
    }
    return Ok(Reversed(encoded));
  }

  function Reversed(s: seq<char>): (r: seq<char>)
    ensures |r| == |s| && forall i :: 0 <= i < |s| ==> r[i] == s[|s| - 1 - i]
  {
    seq(|s|, i requires 0 <= i < |s| => s[|s| - 1 - i])
  }

  lemma TextSplits(n: nat)
    requires n > 0
    ensures Text(Digits(n)) == (if n >= 62 then Text(Digits(n / 62)) else []) + [CharOf(n % 62)]
  {
  }

  method Decode(encoded: string) returns (r: Result<nat, Base62Error>)
    ensures !Valid(encoded) ==> r == Err(InvalidCharacter)
    ensures Valid(encoded) ==> r == Ok(Value(DigitsOf(encoded)))
  {
    var num: nat := 0;
    var i := 0;
    while i < |encoded|
      invariant 0 <= i <= |encoded|
      invariant Valid(encoded[..i])
      invariant num == Value(DigitsOf(encoded[..i]))
    {
      match DigitOf(encoded[i]) {
        case None => return Err(InvalidCharacter);
        case Some(d) =>
          assert encoded[..i + 1][..i] == encoded[..i];
          assert DigitsOf(encoded[..i + 1])[..i] == DigitsOf(encoded[..i]);
          num := num * 62 + d;
      }
      i := i + 1;
    }
    assert encoded[..i] == encoded;
    return Ok(num);
  }

  lemma CharRoundTrip(d: Digit)
    ensures DigitOf(CharOf(d)) == Some(d)
  {
  }

  lemma TextRoundTrip(ds: seq<Digit>)
    ensures Valid(Text(ds)) && DigitsOf(Text(ds)) == ds
  {
    forall i | 0 <= i < |ds| ensures DigitOf(Text(ds)[i]) == Some(ds[i]) {
      CharRoundTrip(ds[i]);
    }
  }

  /** Text is read from the left, each character adding its place in the alphabet to 62 times what came
      before; and written with the remainder by 62 last. */
  lemma ReadAndWritten(s: string, c: char, n: nat)
    requires Valid(s)
    ensures Value(DigitsOf("")) == 0
    ensures DigitOf(c).Some? ==> Valid(s + [c]) && Value(DigitsOf(s + [c])) == 62 * Value(DigitsOf(s)) + DigitOf(c).value
    ensures n < 62 ==> Text(Digits(n)) == [CharOf(n)]
    ensures n >= 62 ==> Text(Digits(n)) == Text(Digits(n / 62)) + [CharOf(n % 62)]
    ensures Text(Digits(61)) == "Z" && Text(Digits(62)) == "10" && Text(Digits(3843)) == "ZZ"
  {
    if DigitOf(c).Some? {
      var t := s + [c];
      assert forall i :: 0 <= i < |t| ==> t[i] == if i < |s| then s[i] else c;
      assert DigitsOf(t)[..|t| - 1] == DigitsOf(s);
    }
    if n >= 62 {
      TextSplits(n);
    }
    TextSplits(62);
    TextSplits(3843);
  }

  /** Decoding undoes encoding, for every natural number. */
  lemma DecodeEncode(n: nat)
    ensures Valid(Text(Digits(n))) && Value(DigitsOf(Text(Digits(n)))) == n
  {
    TextRoundTrip(Digits(n));
    ValueOfDigits(n);
  }

  /** Encoding undoes decoding on exactly the valid strings that are not empty and carry no leading
      zero, other than "0" itself. */
  lemma EncodeDecode(s: string)
    requires Valid(s)
    ensures Text(Digits(Value(DigitsOf(s)))) == s <==> s != "" && (s == "0" || s[0] != '0')
  {
    var ds := DigitsOf(s);
    var n := Value(ds);
    NoLeadingZero(n);
    TextRoundTrip(Digits(n));
    if s != "" && (s == "0" || s[0] != '0') {
      assert s[0] == CharOf(ds[0]);
      DigitsOfValue(ds);
    }
    if Text(Digits(n)) == s && |s| > 1 {
      assert ds == Digits(n);
      assert ds[0] != 0 && DigitOf(s[0]) == Some(ds[0]);
    }
    if Text(Digits(n)) == s && |s| == 1 {
      assert s[0] == '0' ==> s == "0";
    }
  }

  /** The encoding of a positive number has the least length k with n < 62^k. */
  lemma EncodedLength(n: nat, k: nat)
    requires n > 0
    ensures n < Power(k) <==> |Text(Digits(n))| <= k
  {
    var len := |Digits(n)|;
    DigitCount(n);
    if len <= k {
      PowerMono(len, k);
    } else {
      PowerMono(k, len - 1);
    }
  }
}
