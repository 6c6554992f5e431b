/**
 * Integers as JSON text: the decimal form Python's `json.dumps` writes for an
 * `int` (an optional minus sign, then digits with no leading zero), and a
 * reader for that form, which is the encoder's inverse.
 */
module JsonInt {
  import opened Wrappers

  predicate IsDigit(c: char) {
    '0' <= c <= '9'
  }

  predicate AllDigits(s: string) {
    forall i :: 0 <= i < |s| ==> IsDigit(s[i])
  }

  function DigitValue(c: char): (d: nat)
    requires IsDigit(c)
    ensures d < 10
  {
    c as int - '0' as int
  }

  function DigitChar(d: nat): (c: char)
    requires d < 10
    ensures IsDigit(c) && DigitValue(c) == d
  {
    ('0' as int + d) as char
  }

  /** The shortest decimal numeral of `n`: non-empty, digits only, no leading zero. */
  function NatToDecimal(n: nat): (s: string)
    ensures |s| > 0 && AllDigits(s)
    ensures (s[0] == '0') == (n == 0)
    ensures n == 0 ==> s == "0"
    decreases n
  {
    if n < 10 then [DigitChar(n)] else NatToDecimal(n / 10) + [DigitChar(n % 10)]
  }

  /** The value of a numeral, read most significant digit first. */
  function DecimalToNat(s: string): (n: nat)
    requires AllDigits(s)
    decreases |s|
  {
    if s == [] then 0 else DecimalToNat(s[..|s| - 1]) * 10 + DigitValue(s[|s| - 1])
  }

  lemma {:induction false} DecimalRoundTrip(n: nat)
    ensures DecimalToNat(NatToDecimal(n)) == n
    decreases n
  {
    if n >= 10 {
      var s := NatToDecimal(n / 10);
      var t := s + [DigitChar(n % 10)];
      assert t == NatToDecimal(n);
      assert t[..|t| - 1] == s;
      DecimalRoundTrip(n / 10);
    }
  }

  /** `json.dumps(n)` for a Python `int`. */
  function Encode(n: int): (s: string)
    ensures |s| > 0
    ensures n < 0 <==> s[0] == '-'
    ensures n >= 0 ==> AllDigits(s)
  {
    if n < 0 then "-" + NatToDecimal(-n) else NatToDecimal(n)
  }

  /** Canonical numeral: digits only and no leading zero except for "0" itself. */
  predicate IsCanonical(s: string) {
    |s| > 0 && AllDigits(s) && (s[0] == '0' ==> |s| == 1)
  }

  /** Reads a JSON integer in the form `Encode` writes; anything else is `None` (`DecodeSound`). */
  function Decode(s: string): (r: Option<int>)
    ensures r.Some? ==> |s| > 0
  {
    if |s| > 1 && s[0] == '-' && IsCanonical(s[1..]) && s[1..] != "0" then Some(-(DecimalToNat(s[1..]) as int))
    else if IsCanonical(s) then Some(DecimalToNat(s))
    else None
  }

  lemma {:induction false} RoundTrip(n: int)
    ensures Decode(Encode(n)) == Some(n)
  {
    if n < 0 {
      var d := NatToDecimal(-n);
      assert Encode(n)[1..] == d;
      DecimalRoundTrip(-n);
    } else {
      DecimalRoundTrip(n);
    }
  }

  /** Distinct integers are written as distinct texts. */
  lemma {:induction false} EncodeInjective(a: int, b: int)
    requires Encode(a) == Encode(b)
    ensures a == b
  {
    RoundTrip(a);
    RoundTrip(b);
  }

  /** A numeral whose first digit is not `0` has a positive value. */
  lemma {:induction false} LeadingDigitBound(s: string)
    requires |s| > 0 && AllDigits(s)
    ensures DecimalToNat(s) >= DigitValue(s[0])
    decreases |s|
  {
    if |s| > 1 {
      var p := s[..|s| - 1];
      assert p[0] == s[0];
      LeadingDigitBound(p);
    }
  }

  /** Writing out the value of a canonical numeral gives the numeral back. */
  lemma {:induction false} CanonicalRoundTrip(s: string)
    requires IsCanonical(s)
    ensures NatToDecimal(DecimalToNat(s)) == s
    decreases |s|
  {
    if |s| > 1 {
      var p := s[..|s| - 1];
      var c := s[|s| - 1];
      assert p[0] == s[0] && p[0] != '0';
      LeadingDigitBound(p);
      CanonicalRoundTrip(p);
      var n := DecimalToNat(s);
      assert n / 10 == DecimalToNat(p) && n % 10 == DigitValue(c);
      assert DigitChar(DigitValue(c)) == c;
      assert s == p + [c];
    } else {
      assert DigitChar(DigitValue(s[0])) == s[0];
    }
  }

  /** `Decode` accepts only what `Encode` writes: a decoded text is the encoding of its value. */
  lemma {:induction false} DecodeSound(s: string, n: int)
    requires Decode(s) == Some(n)
    ensures Encode(n) == s
  {
    if |s| > 1 && s[0] == '-' && IsCanonical(s[1..]) && s[1..] != "0" {
      var t := s[1..];
      assert |t| == 1 ==> t == [t[0]];
      LeadingDigitBound(t);
      CanonicalRoundTrip(t);
      assert s == "-" + t;
    } else {
      CanonicalRoundTrip(s);
    }
  }
}
