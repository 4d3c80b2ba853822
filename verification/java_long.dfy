/** Java's signed 64-bit `long` and the two conversions between it and
    decimal text that the runner relies on: `Long.parseLong(s, 10)` (reading
    the expected count of a count-query check) and `Long.toString` / `%d`
    (writing a count or a clock value). Only ASCII text is modelled. */
module JavaLong {
  import opened Wrappers

  const MinLong: int := -0x8000_0000_0000_0000
  const MaxLong: int := 0x7FFF_FFFF_FFFF_FFFF

  /** A value of Java's primitive `long`. */
  type int64 = x: int | -0x8000_0000_0000_0000 <= x <= 0x7FFF_FFFF_FFFF_FFFF

  predicate IsDigit(c: char) {
    '0' <= c <= '9'
  }

  predicate IsSign(c: char) {
    c == '-' || c == '+'
  }

  predicate AllDigits(s: string) {
    forall i | 0 <= i < |s| :: IsDigit(s[i])
  }

  function DigitValue(c: char): (d: nat)
    requires IsDigit(c)
    ensures d < 10
  {
    c as int - '0' as int
  }

  function DigitChar(d: nat): (c: char)
    requires d < 10
    ensures IsDigit(c) && DigitValue(c) == d
  {
    ('0' as int + d) as char
  }

  /** The number a string of decimal digits denotes, most significant digit first. */
  function DigitsValue(s: string): nat
    requires AllDigits(s)
  {
    if |s| == 0 then 0 else 10 * DigitsValue(s[..|s| - 1]) + DigitValue(s[|s| - 1])
  }

  /** The digits after an optional leading sign. */
  function Magnitude(s: string): string
    requires |s| > 0
  {
    if IsSign(s[0]) then s[1..] else s
  }

  /** `Long.parseLong(s, 10)`: an optional `+` or `-`, then at least one
      decimal digit, denoting a value in the range of `long`. Anything else
      is a `NumberFormatException`, modelled as `None`. */
  function ParseLong(s: string): (r: Option<int64>)
    ensures |s| == 0 ==> r.None?
    ensures r.Some? ==> forall i | 0 <= i < |s| :: IsDigit(s[i]) || (i == 0 && IsSign(s[i]))
    ensures r.Some? ==> IsDigit(s[|s| - 1])
    ensures r.Some? && r.value < 0 ==> s[0] == '-'
  {
    if |s| == 0 then None
    else
      var digits := Magnitude(s);
      if |digits| == 0 || !AllDigits(digits) then None
      else
        var magnitude: int := DigitsValue(digits);
        var n := if s[0] == '-' then -magnitude else magnitude;
        if MinLong <= n <= MaxLong then
          assert IsDigit(s[|s| - 1]);
          Some(n)
        else None
  }

  /** Canonical digits: no leading zero except for "0" itself. */
  predicate CanonicalDigits(s: string) {
    |s| > 0 && AllDigits(s) && (s[0] != '0' || |s| == 1)
  }

  /** The canonical decimal digits of a natural number. */
  function NatDigits(k: nat): (r: string)
    ensures CanonicalDigits(r)
    ensures DigitsValue(r) == k
    decreases k
  {
    if k < 10 then [DigitChar(k)]
    else
      var prefix := NatDigits(k / 10);
      var r := prefix + [DigitChar(k % 10)];
      assert r[..|r| - 1] == prefix;
      r
  }

  /** `Long.toString(n)`, which is also what `%d` and string concatenation
      print for a `long`: a `-` for negative values, then canonical digits. */
  function DecimalString(n: int): (r: string)
    ensures |r| > 0
    ensures r[0] == '-' <==> n < 0
    ensures forall i | 0 <= i < |r| :: IsDigit(r[i]) || (i == 0 && r[i] == '-')
    ensures CanonicalDigits(Magnitude(r))
    ensures !IsSign(r[0]) ==> r == Magnitude(r)
  {
    if n < 0 then "-" + NatDigits(-n) else NatDigits(n)
  }

  // ---------------------------------------------------------------------
  // Properties of the parser
  // ---------------------------------------------------------------------

  /** Every well-formed literal whose value fits in a `long` is accepted
      with that value; the sign may be absent, `+` or `-`. */
  lemma ParseLongAccepts(sign: string, digits: string)
    requires sign == "" || sign == "+" || sign == "-"
    requires |digits| > 0 && AllDigits(digits)
    requires sign == "-" ==> DigitsValue(digits) <= -MinLong
    requires sign != "-" ==> DigitsValue(digits) <= MaxLong
    ensures ParseLong(sign + digits) == Some(if sign == "-" then -(DigitsValue(digits) as int) else DigitsValue(digits))
  {
    var s := sign + digits;
    if sign == "" {
      assert s == digits && !IsSign(s[0]);
    } else {
      assert s[0] == sign[0] && s[1..] == digits;
    }
    ParseLongByBound(s);
  }

  /** The empty string is not a number. */
  lemma ParseLongRejectsEmpty()
    ensures ParseLong("") == None
  {
  }

  /** A character other than a digit, and other than a sign in front, makes the parse fail. */
  lemma ParseLongRejectsNonDigit(s: string, i: nat)
    requires i < |s|
    requires !IsDigit(s[i])
    requires i > 0 || !IsSign(s[i])
    ensures ParseLong(s) == None
  {
  }

  /** A sign with no digits after it makes the parse fail. */
  lemma ParseLongRejectsBareSign(c: char)
    requires IsSign(c)
    ensures ParseLong([c]) == None
  {
  }

  /** Digits whose value lies outside the `long` range make the parse fail,
      whatever the sign. */
  lemma ParseLongRejectsOutOfRange(sign: string, digits: string)
    requires sign == "" || sign == "+" || sign == "-"
    requires |digits| > 0 && AllDigits(digits)
    requires sign == "-" ==> DigitsValue(digits) > -MinLong
    requires sign != "-" ==> DigitsValue(digits) > MaxLong
    ensures ParseLong(sign + digits) == None
  {
    var s := sign + digits;
    assert Magnitude(s) == digits;
  }

  /** Reading back what `Long.toString` printed gives the same `long`. */
  lemma ParseDecimalString(n: int64)
    ensures ParseLong(DecimalString(n)) == Some(n)
  {
  }

  /** A canonical digit string is the one `NatDigits` prints for its value. */
  lemma {:induction false} CanonicalDigitsRoundTrip(s: string)
    requires CanonicalDigits(s)
    ensures NatDigits(DigitsValue(s)) == s
    decreases |s|
  {
    var last := s[|s| - 1];
    var prefix := s[..|s| - 1];
    if |s| == 1 {
      assert DigitsValue(s) == DigitValue(last);
      assert DigitChar(DigitValue(last)) == last;
    } else {
      assert prefix[0] == s[0] != '0';
      LeadingNonZeroPositive(prefix);
      CanonicalDigitsRoundTrip(prefix);
      var k := DigitsValue(s);
      assert k / 10 == DigitsValue(prefix) && k % 10 == DigitValue(last);
      assert DigitChar(DigitValue(last)) == last;
      assert s == prefix + [last];
    }
  }

  lemma {:induction false} LeadingNonZeroPositive(s: string)
    requires |s| > 0 && AllDigits(s) && s[0] != '0'
    ensures DigitsValue(s) > 0
    decreases |s|
  {
    if |s| > 1 {
      LeadingNonZeroPositive(s[..|s| - 1]);
    }
  }

  /** Conversely, a literal without `+` and without superfluous leading
      zeros is exactly what `Long.toString` prints for the value it parses to. */
  lemma DecimalStringOfParse(s: string)
    requires |s| > 0 && s[0] != '+' && CanonicalDigits(Magnitude(s))
    requires s[0] == '-' ==> s != "-0"
    requires ParseLong(s).Some?
    ensures DecimalString(ParseLong(s).value) == s
  {
    var digits := Magnitude(s);
    CanonicalDigitsRoundTrip(digits);
    if s[0] == '-' {
      assert s == "-" + digits;
      assert digits != "0";
      if DigitsValue(digits) == 0 {
        assert digits[0] != '0';
        LeadingNonZeroPositive(digits);
      }
    }
  }

  // ---------------------------------------------------------------------
  // The parser as the JDK runs it, with a 64-bit accumulator
  // ---------------------------------------------------------------------

  /** Java's `/` on integers rounds toward zero. */
  function TruncatingDiv(a: int, b: nat): int
    requires b > 0
  {
    if a >= 0 then a / b else -((-a) / b)
  }

  lemma {:induction false} DigitsValuePrefixBound(s: string, j: nat)
    requires AllDigits(s) && j <= |s|
    ensures DigitsValue(s[..j]) <= DigitsValue(s)
    ensures j < |s| ==> 10 * DigitsValue(s[..j]) + DigitValue(s[j]) <= DigitsValue(s)
    decreases |s|
  {
    if j < |s| {
      var init := s[..|s| - 1];
      assert s[..j + 1][..j] == s[..j];
      if j + 1 < |s| {
        DigitsValuePrefixBound(init, j + 1);
        assert init[..j + 1] == s[..j + 1];
        assert DigitsValue(s[..j + 1]) == 10 * DigitsValue(s[..j]) + DigitValue(s[j]);
      } else {
        assert s[..j + 1] == s;
        assert init == s[..j];
      }
    } else {
      assert s[..j] == s;
    }
  }

  lemma DigitsValueAppend(seen: string, c: char)
    requires AllDigits(seen) && IsDigit(c)
    ensures AllDigits(seen + [c])
    ensures DigitsValue(seen + [c]) == 10 * DigitsValue(seen) + DigitValue(c)
  {
    assert (seen + [c])[..|seen|] == seen;
  }

  /** The bound on the magnitude that the sign allows. */
  function MagnitudeBound(s: string): nat
    requires |s| > 0
  {
    if s[0] == '-' then -MinLong else MaxLong
  }

  /** Once there is at least one character after the sign, the parse
      succeeds exactly when those characters are digits whose value is
      within the bound for the sign. */
  lemma ParseLongByBound(s: string)
    requires |s| > 0 && |Magnitude(s)| > 0
    ensures ParseLong(s) ==
      if AllDigits(Magnitude(s)) && DigitsValue(Magnitude(s)) <= MagnitudeBound(s) then
        Some(if s[0] == '-' then -(DigitsValue(Magnitude(s)) as int) else DigitsValue(Magnitude(s)))
      else None
  {
  }

  /** A prefix of digits whose value already exceeds a bound rules the whole string out. */
  lemma OverflowingPrefix(digits: string, j: nat, bound: int)
    requires j <= |digits| && AllDigits(digits[..j]) && DigitsValue(digits[..j]) > bound
    ensures !(AllDigits(digits) && DigitsValue(digits) <= bound)
  {
    if AllDigits(digits) {
      DigitsValuePrefixBound(digits, j);
    }
  }

  /** The JDK's accumulation loop over the digits after the sign: the
      negated magnitude is built in a `long`, checked against `limit`
      before each multiplication and each subtraction. */
  method AccumulateNegated(digits: string, limit: int64) returns (r: Option<int64>)
    requires limit == -MaxLong || limit == MinLong
    ensures r.Some? <==> AllDigits(digits) && DigitsValue(digits) <= -(limit as int)
    ensures r.Some? ==> r.value == -(DigitsValue(digits) as int)
  {
    var multmin: int64 := TruncatingDiv(limit, 10);
    assert multmin == -922337203685477580;
    var result: int64 := 0;
    var i := 0;
    while i < |digits|
      invariant i <= |digits|
      invariant AllDigits(digits[..i])
      invariant limit <= result <= 0
      invariant result == -(DigitsValue(digits[..i]) as int)
    {
      ghost var seen := digits[..i];
      if !IsDigit(digits[i]) {
        return None;
      }
      var d := DigitValue(digits[i]);
      assert digits[..i + 1] == seen + [digits[i]];
      DigitsValueAppend(seen, digits[i]);
      if result < multmin {
        OverflowingPrefix(digits, i + 1, -(limit as int));
        return None;
      }
      result := result * 10;
      if result < limit + d {
        OverflowingPrefix(digits, i + 1, -(limit as int));
        return None;
      }
      result := result - d;
      i := i + 1;
    }
    assert digits[..i] == digits;
    return Some(result);
  }

  /** The parse with every intermediate value held in a `long`: the
      magnitude is accumulated negatively against a limit, as the JDK does,
      so that `Long.MIN_VALUE` is reachable without overflow. It agrees with
      `ParseLong` on every input. */
  method ParseLongBounded(s: string) returns (r: Option<int64>)
    ensures r == ParseLong(s)
  {
    if |s| == 0 {
      return None;
    }
    var negative := false;
    var start := 0;
    var limit: int64 := -MaxLong;
    if s[0] < '0' {
      if s[0] == '-' {
        negative := true;
        limit := MinLong;
      } else if s[0] != '+' {
        ParseLongRejectsNonDigit(s, 0);
        return None;
      }
      if |s| == 1 {
        ParseLongRejectsBareSign(s[0]);
        return None;
      }
      start := 1;
    }
    assert s[start..] == Magnitude(s);
    ParseLongByBound(s);
    var acc := AccumulateNegated(s[start..], limit);
    match acc
    case None =>
      return None;
    case Some(result) =>
      return Some(if negative then result else -result);
  }
}
