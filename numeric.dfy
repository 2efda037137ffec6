/**
 * The numeric built-ins of Python the driver relies on, over exact rationals:
 * `int(x)` on a float (truncation toward zero), `x // m` (floor division), `x % m`
 * (modulo taking the sign of the divisor) and `float(s)` (a partial decimal parser).
 */
module Numeric {
  import opened Wrappers
  import opened Text

  /** Python `int(x)` for a float `x`: rounds toward zero, unlike `x // 1`, which floors. */
  function Trunc(x: real): (t: int)
    ensures 0.0 <= x ==> t as real <= x < t as real + 1.0
    ensures x < 0.0 ==> t as real - 1.0 < x <= t as real
  {
    if x >= 0.0 then x.Floor else -((-x).Floor)
  }

  /** Truncation is symmetric about zero; on a negative non-integer it is one above the floor. */
  lemma TruncVersusFloor(x: real)
    ensures Trunc(-x) == -Trunc(x)
    ensures 0.0 <= x ==> Trunc(x) == x.Floor
    ensures x < 0.0 && x.Floor as real != x ==> Trunc(x) == x.Floor + 1
  {
  }

  /**
   * Python `x // m` on floats for a positive divisor: the floor of the quotient. The source
   * passes the result to `int()`, which keeps an integral float as it is.
   */
  function FloorDiv(x: real, m: real): (q: int)
    requires m > 0.0
    ensures q as real <= x / m < q as real + 1.0
  {
    (x / m).Floor
  }

  /** The bounds of `FloorDiv` determine it: the `q` with `q <= x / m < q + 1` is `x // m`. */
  lemma FloorDivUnique(x: real, m: real, q: int)
    requires m > 0.0 && q as real <= x / m < q as real + 1.0
    ensures FloorDiv(x, m) == q
  {
  }

  /**
   * Python `x % m` on floats for a positive divisor: the remainder of floor division, so that
   * `x == (x // m) * m + x % m`; it is never negative, whatever the sign of `x`.
   */
  function FloatMod(x: real, m: real): (r: real)
    requires m > 0.0
    ensures 0.0 <= r < m
    ensures x == FloorDiv(x, m) as real * m + r
  {
    ScaleBounds(x, m, FloorDiv(x, m));
    x - FloorDiv(x, m) as real * m
  }

  /** Multiplying `q <= x / m < q + 1` through by the positive `m`. */
  lemma ScaleBounds(x: real, m: real, q: int)
    requires m > 0.0 && q as real <= x / m < q as real + 1.0
    ensures q as real * m <= x < q as real * m + m
  {
    ScaleQuotient(x, m, x / m, q as real);
  }

  /** The same, for the quotient `y` named apart from the division that produced it. */
  lemma ScaleQuotient(x: real, m: real, y: real, a: real)
    requires m > 0.0 && m * y == x && a <= y < a + 1.0
    ensures a * m <= x < a * m + m
  {
    MulMonotone(m, a, y);
    QuotientBelow(x, m, y, a + 1.0);
  }

  /** A quotient below `b` puts the dividend below `m * b`. */
  lemma QuotientBelow(x: real, m: real, y: real, b: real)
    requires m > 0.0 && m * y == x && y < b
    ensures x < m * b
  {
    MulStrict(m, y, b);
  }

  /** Multiplication by a positive number keeps `<=`. */
  lemma MulMonotone(a: real, b: real, c: real)
    requires 0.0 < a && b <= c
    ensures a * b <= a * c
  {
  }

  /** Multiplication by a positive number keeps `<`. */
  lemma MulStrict(a: real, b: real, c: real)
    requires 0.0 < a && b < c
    ensures a * b < a * c
  {
  }

  predicate IsDigit(c: char) {
    '0' <= c <= '9'
  }

  predicate AllDigits(s: string) {
    forall i :: 0 <= i < |s| ==> IsDigit(s[i])
  }

  function Pow10(k: nat): (p: nat)
    ensures p >= 1
  {
    if k == 0 then 1 else 10 * Pow10(k - 1)
  }

  /** The number a string of decimal digits denotes, most significant digit first. */
  function DigitsValue(s: string): (n: nat)
    requires AllDigits(s)
    ensures n < Pow10(|s|)
  {
    if |s| == 0 then 0
    else 10 * DigitsValue(s[..|s| - 1]) + (s[|s| - 1] as int - '0' as int)
  }

  /** Position of the first `c` in `s`, or `|s|` when there is none. */
  function IndexOf(s: string, c: char): (k: nat)
    ensures k <= |s|
    ensures k < |s| ==> s[k] == c
    ensures forall i :: 0 <= i < k ==> s[i] != c
  {
    if |s| == 0 then 0
    else if s[0] == c then 0
    else 1 + IndexOf(s[1..], c)
  }

  /**
   * An unsigned decimal: digits, optionally followed by a point and more digits, with at least
   * one digit in all ("7", "7.", ".5", "4807.038"); anything else is `None`.
   */
  function ParseUnsigned(s: string): (r: Option<real>)
    ensures r.Some? ==> 0.0 <= r.value
  {
    var k := IndexOf(s, '.');
    DecimalValue(s[..k], if k < |s| then s[k + 1..] else "")
  }

  /** The value of the digits before and after the point, when both are digits and not both empty. */
  function DecimalValue(whole: string, frac: string): (r: Option<real>)
    ensures r.Some? ==> 0.0 <= r.value && AllDigits(whole) && AllDigits(frac) && |whole| + |frac| > 0
  {
    if AllDigits(whole) && AllDigits(frac) && |whole| + |frac| > 0 then
      Some(Fixed(DigitsValue(whole), DigitsValue(frac), |frac|))
    else
      None
  }

  /** The value of a decimal with integer part `w` and `places` fractional digits denoting `f`. */
  function Fixed(w: nat, f: nat, places: nat): (v: real)
    ensures 0.0 <= v
  {
    w as real + Shift(f as real, places)
  }

  /** `x / 10^k`, one decimal place at a time. */
  function Shift(x: real, k: nat): (r: real)
    ensures 0.0 <= x ==> 0.0 <= r
  {
    if k == 0 then x else Shift(x, k - 1) / 10.0
  }

  /** Shifting distributes over a sum. */
  lemma {:induction false} ShiftAdd(x: real, y: real, k: nat)
    ensures Shift(x + y, k) == Shift(x, k) + Shift(y, k)
  {
    if k > 0 {
      ShiftAdd(x, y, k - 1);
    }
  }

  /** Shifting commutes with negation. */
  lemma {:induction false} ShiftNeg(x: real, k: nat)
    ensures Shift(-x, k) == -Shift(x, k)
  {
    if k > 0 {
      ShiftNeg(x, k - 1);
    }
  }

  /**
   * Python `float(s)` restricted to plain decimals: surrounding whitespace is ignored, then an
   * optional sign and an unsigned decimal. `None` stands for the `ValueError` `float` raises.
   * It accepts a field exactly when its stripped text is an optional sign followed by an
   * unsigned decimal; in particular it rejects an empty or all-blank field.
   */
  function ParseReal(s: string): (r: Option<real>)
    ensures Strip(s) == [] ==> r.None?
    ensures r.Some? <==> SignedDecimal(Strip(s))
  {
    ParseSignedGrammar(Strip(s));
    ParseSigned(Strip(s))
  }

  /** An optional sign in front of an unsigned decimal. */
  function ParseSigned(t: string): Option<real>
  {
    if |t| > 0 && t[0] == '-' then
      match ParseUnsigned(t[1..])
      case None => None
      case Some(v) => Some(-v)
    else if |t| > 0 && t[0] == '+' then
      ParseUnsigned(t[1..])
    else
      ParseUnsigned(t)
  }

  /**
   * The unsigned decimals `float` accepts here: digits alone, or digits, one point and digits,
   * with at least one digit in all.
   */
  predicate UnsignedDecimal(u: string) {
    (|u| > 0 && AllDigits(u)) ||
    exists k :: 0 <= k < |u| && u[k] == '.' && AllDigits(u[..k]) && AllDigits(u[k + 1..]) && |u| > 1
  }

  /** An unsigned decimal, or a `+` or `-` sign followed by one. */
  predicate SignedDecimal(t: string) {
    UnsignedDecimal(t) || (|t| > 0 && (t[0] == '+' || t[0] == '-') && UnsignedDecimal(t[1..]))
  }

  /** The digit character for `d`. */
  function DigitChar(d: nat): (c: char)
    requires d < 10
    ensures IsDigit(c) && c as int - '0' as int == d
  {
    ('0' as int + d) as char
  }

  /** Appending a digit multiplies the value by ten and adds the digit. */
  lemma DigitsValueSnoc(s: string, c: char)
    requires AllDigits(s) && IsDigit(c)
    ensures AllDigits(s + [c])
    ensures DigitsValue(s + [c]) == 10 * DigitsValue(s) + (c as int - '0' as int)
  {
    assert (s + [c])[..|s|] == s;
  }

  /** `n` with its last `k` decimal digits removed, `n / 10^k`. */
  function Drop(n: nat, k: nat): nat
  {
    if k == 0 then n else Drop(n / 10, k - 1)
  }

  /** The last `width` decimal digits of `n`, padded on the left with zeros. */
  function Digits(n: nat, width: nat): (s: string)
    ensures |s| == width && AllDigits(s)
  {
    if width == 0 then ""
    else
      var front := Digits(n / 10, width - 1);
      DigitsValueSnoc(front, DigitChar(n % 10));
      front + [DigitChar(n % 10)]
  }

  /** `str(n)` for a natural number: its decimal digits, denoting `n`. */
  function NatToString(n: nat): (s: string)
    ensures |s| >= 1 && AllDigits(s)
    ensures DigitsValue(s) == n
  {
    if n < 10 then
      DigitsValueSnoc("", DigitChar(n));
      [DigitChar(n)]
    else
      var front := NatToString(n / 10);
      DigitsValueSnoc(front, DigitChar(n % 10));
      front + [DigitChar(n % 10)]
  }

  /**
   * How a receiver writes the fixed-point value `m / 10^places`: an optional minus sign, the
   * integer part and, when `places > 0`, a point and exactly `places` fractional digits.
   */
  function FormatDecimal(m: int, places: nat): string
  {
    (if m < 0 then "-" else "") + FormatUnsigned(if m < 0 then -m else m, places)
  }

  /** The unsigned part of `FormatDecimal`: it starts and ends with a digit. */
  function FormatUnsigned(a: nat, places: nat): (s: string)
    ensures |s| > 0 && IsDigit(s[0]) && IsDigit(s[|s| - 1])
  {
    var w := NatToString(Drop(a, places));
    if places == 0 then w
    else
      var s := w + "." + Digits(a, places);
      assert s[0] == w[0];
      s
  }

  /** Every unsigned decimal of the grammar is accepted, with the value its digits denote. */
  lemma ParseUnsignedDecimal(whole: string, frac: string)
    requires AllDigits(whole) && AllDigits(frac) && |whole| + |frac| > 0
    ensures ParseUnsigned(whole + "." + frac) ==
      Some(Fixed(DigitsValue(whole), DigitsValue(frac), |frac|))
  {
    var s := whole + "." + frac;
    assert s[..|whole|] == whole && s[|whole| + 1..] == frac;
    ParseUnsignedAtPoint(s, |whole|);
    DecimalValueOf(whole, frac);
  }

  /** An unsigned decimal is split at its first point. */
  lemma ParseUnsignedAtPoint(s: string, k: nat)
    requires k < |s| && s[k] == '.'
    requires forall i :: 0 <= i < k ==> IsDigit(s[i])
    ensures ParseUnsigned(s) == DecimalValue(s[..k], s[k + 1..])
  {
    assert IndexOf(s, '.') == k;
  }

  lemma DecimalValueOf(whole: string, frac: string)
    requires AllDigits(whole) && AllDigits(frac) && |whole| + |frac| > 0
    ensures DecimalValue(whole, frac) ==
      Some(Fixed(DigitsValue(whole), DigitsValue(frac), |frac|))
  {
  }

  /** A plain string of digits is accepted as the integer it denotes. */
  lemma ParseUnsignedInteger(whole: string)
    requires AllDigits(whole) && |whole| > 0
    ensures ParseUnsigned(whole) == Some(Fixed(DigitsValue(whole), 0, 0))
  {
    var k := IndexOf(whole, '.');
    assert k < |whole| ==> IsDigit(whole[k]);
    assert whole[..k] == whole;
    DecimalValueOf(whole, "");
  }

  /** `ParseUnsigned` accepts exactly the unsigned decimals. */
  lemma ParseUnsignedGrammar(u: string)
    ensures ParseUnsigned(u).Some? <==> UnsignedDecimal(u)
  {
    var k := IndexOf(u, '.');
    if ParseUnsigned(u).Some? {
      if k < |u| {
        assert u[k] == '.' && AllDigits(u[..k]) && AllDigits(u[k + 1..]);
      } else {
        assert u[..k] == u;
      }
    }
    if UnsignedDecimal(u) {
      if |u| > 0 && AllDigits(u) {
        ParseUnsignedInteger(u);
      } else {
        var j :| 0 <= j < |u| && u[j] == '.' && AllDigits(u[..j]) && AllDigits(u[j + 1..]) && |u| > 1;
        assert forall i :: 0 <= i < j ==> u[..j][i] == u[i];
        ParseUnsignedAtPoint(u, j);
      }
    }
  }

  /** An unsigned decimal starts with a digit or a point, never with a sign. */
  lemma UnsignedDecimalStart(u: string)
    requires UnsignedDecimal(u)
    ensures IsDigit(u[0]) || u[0] == '.'
  {
    if !(|u| > 0 && AllDigits(u)) {
      var j :| 0 <= j < |u| && u[j] == '.' && AllDigits(u[..j]) && AllDigits(u[j + 1..]) && |u| > 1;
      if j > 0 {
        assert u[..j][0] == u[0];
      }
    }
  }

  /** `ParseSigned` accepts exactly the signed decimals. */
  lemma ParseSignedGrammar(t: string)
    ensures ParseSigned(t).Some? <==> SignedDecimal(t)
  {
    ParseUnsignedGrammar(t);
    if |t| > 0 && (t[0] == '+' || t[0] == '-') {
      ParseUnsignedGrammar(t[1..]);
      if UnsignedDecimal(t) {
        UnsignedDecimalStart(t);
      }
    }
  }

  /** Parsing the unsigned part gives the value back exactly. */
  lemma ParseFormatUnsigned(a: nat, places: nat)
    ensures ParseUnsigned(FormatUnsigned(a, places)) == Some(Shift(a as real, places))
  {
    var w := NatToString(Drop(a, places));
    var f := Digits(a, places);
    ShiftSplit(a, places);
    if places == 0 {
      assert FormatUnsigned(a, places) == w;
      ParseUnsignedInteger(w);
    } else {
      assert FormatUnsigned(a, places) == w + "." + f;
      ParseUnsignedDecimal(w, f);
    }
  }

  /** The integer part and the last `k` digits of `a` make up `a / 10^k`. */
  lemma {:induction false} ShiftSplit(a: nat, k: nat)
    ensures Fixed(Drop(a, k), DigitsValue(Digits(a, k)), k) == Shift(a as real, k)
  {
    if k > 0 {
      var b, d := a / 10, a % 10;
      ShiftSplit(b, k - 1);
      var v := DigitsValue(Digits(b, k - 1));
      DigitsStep(a, k);
      ShiftDigit(b as real, d as real, k);
      ShiftDigit(v as real, d as real, k);
      assert a as real == 10.0 * b as real + d as real;
    }
  }

  /** The value of the last `k` digits of `a` in terms of the last `k - 1` digits of `a / 10`. */
  lemma DigitsStep(a: nat, k: nat)
    requires k > 0
    ensures DigitsValue(Digits(a, k)) == 10 * DigitsValue(Digits(a / 10, k - 1)) + a % 10
  {
    DigitsValueSnoc(Digits(a / 10, k - 1), DigitChar(a % 10));
  }

  /** Appending digit `d` to `x` and shifting by `k` places. */
  lemma ShiftDigit(x: real, d: real, k: nat)
    requires k > 0
    ensures Shift(10.0 * x + d, k) == Shift(x, k - 1) + Shift(d, k)
  {
    ShiftAdd(10.0 * x, d, k);
    ShiftTen(x, k);
  }

  /** Shifting ten times `x` by `k > 0` places is shifting `x` by `k - 1`. */
  lemma {:induction false} ShiftTen(x: real, k: nat)
    requires k > 0
    ensures Shift(10.0 * x, k) == Shift(x, k - 1)
    decreases k
  {
    if k > 1 {
      ShiftTen(x, k - 1);
    }
  }

  /** A field without surrounding whitespace is parsed as it stands. */
  lemma ParseRealUnstripped(s: string)
    requires s == [] || (!IsSpace(s[0]) && !IsSpace(s[|s| - 1]))
    ensures ParseReal(s) == ParseSigned(s)
  {
    StripKeeps(s);
  }

  /** A leading minus sign negates the unsigned value. */
  lemma ParseSignedNegative(u: string, x: real, k: nat)
    requires ParseUnsigned(u) == Some(Shift(x, k))
    ensures ParseSigned("-" + u) == Some(Shift(-x, k))
  {
    assert ("-" + u)[1..] == u;
    ShiftNeg(x, k);
  }

  /**
   * Parsing a formatted fixed-point decimal gives its value, `m / 10^places`, back exactly: every
   * value a receiver can write with `places` decimals is read back without loss.
   */
  lemma ParseFormatDecimal(m: int, places: nat)
    ensures ParseReal(FormatDecimal(m, places)) == Some(Shift(m as real, places))
  {
    var s := FormatDecimal(m, places);
    FormatDecimalEnds(m, places);
    ParseRealUnstripped(s);
    ParseSignedFormat(m, places);
  }

  /** A formatted decimal starts with a sign or a digit and ends with a digit. */
  lemma FormatDecimalEnds(m: int, places: nat)
    ensures var s := FormatDecimal(m, places);
      |s| > 0 && (s[0] == '-' || IsDigit(s[0])) && IsDigit(s[|s| - 1])
  {
  }

  /** The sign and the unsigned part of a formatted decimal are read back. */
  lemma ParseSignedFormat(m: int, places: nat)
    ensures ParseSigned(FormatDecimal(m, places)) == Some(Shift(m as real, places))
  {
    var a: nat := if m < 0 then -m else m;
    var u := FormatUnsigned(a, places);
    ParseFormatUnsigned(a, places);
    if m < 0 {
      assert FormatDecimal(m, places) == "-" + u;
      ParseSignedNegative(u, a as real, places);
      assert -(a as real) == m as real;
    } else {
      assert FormatDecimal(m, places) == u;
    }
  }

  /** `float` accepts a field of digits as the integer they denote. */
  lemma ParseRealInteger(whole: string)
    requires AllDigits(whole) && |whole| > 0
    ensures ParseReal(whole) == Some(DigitsValue(whole) as real)
  {
    DigitNotSpace(whole[0]);
    DigitNotSpace(whole[|whole| - 1]);
    ParseRealUnstripped(whole);
    ParseSignedDigit(whole);
    ParseUnsignedInteger(whole);
  }

  /**
   * `float` accepts digits, a point and digits, with the value the digits denote: `4807.038` is
   * 4807 and 38 thousandths.
   */
  lemma ParseRealDecimal(whole: string, frac: string)
    requires AllDigits(whole) && AllDigits(frac) && |whole| > 0
    ensures ParseReal(whole + "." + frac) == Some(Fixed(DigitsValue(whole), DigitsValue(frac), |frac|))
  {
    var s := whole + "." + frac;
    assert s[0] == whole[0];
    DigitNotSpace(s[0]);
    if |frac| > 0 {
      assert s[|s| - 1] == frac[|frac| - 1];
      DigitNotSpace(s[|s| - 1]);
    }
    ParseRealUnstripped(s);
    ParseSignedDigit(s);
    ParseUnsignedDecimal(whole, frac);
  }

  /** A digit is not whitespace. */
  lemma DigitNotSpace(c: char)
    requires IsDigit(c) || c == '.'
    ensures !IsSpace(c)
  {
  }

  /** Text starting with a digit has no sign. */
  lemma ParseSignedDigit(t: string)
    requires |t| > 0 && IsDigit(t[0])
    ensures ParseSigned(t) == ParseUnsigned(t)
  {
  }
}
