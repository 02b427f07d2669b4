/**
 * The numbers the reconciliation pipeline meets: `str()` of an integer, the
 * decimal literals `float()` accepts, and `round(x, 8)`. Values are exact reals;
 * binary floating point is not modelled.
 */
module Numbers {
  import opened Wrappers

  predicate IsDigit(c: char) {
    '0' <= c <= '9'
  }

  predicate AllDigits(s: string) {
    forall i :: 0 <= i < |s| ==> IsDigit(s[i])
  }

  function DigitChar(d: nat): (c: char)
    requires d < 10
    ensures IsDigit(c)
  {
    (48 + d) as char
  }

  function DigitValue(c: char): (d: nat)
    requires IsDigit(c)
    ensures d < 10 && DigitChar(d) == c
  {
    (c as int - 48) as nat
  }

  /** The value of a string of decimal digits, most significant first. */
  function DigitsValue(s: string): nat
    requires AllDigits(s)
  {
    if s == [] then 0 else DigitsValue(s[..|s| - 1]) * 10 + DigitValue(s[|s| - 1])
  }

  /** `str(n)` for a non-negative integer: decimal digits without leading zeros. */
  function NatToString(n: nat): (r: string)
    ensures r != [] && AllDigits(r)
    ensures r[0] == '0' ==> n == 0 && r == "0"
    decreases n
  {
    if n < 10 then [DigitChar(n)] else NatToString(n / 10) + [DigitChar(n % 10)]
  }

  /** `str(i)` for any integer. */
  function IntToString(i: int): string {
    if i < 0 then "-" + NatToString(-i) else NatToString(i)
  }

  /** Reading back the digits of `str(n)` gives `n`. */
  lemma {:induction false} NatToStringValue(n: nat)
    ensures DigitsValue(NatToString(n)) == n
    decreases n
  {
    var r := NatToString(n);
    if n >= 10 {
      NatToStringValue(n / 10);
      assert r[..|r| - 1] == NatToString(n / 10);
    }
  }

  function Pow10(e: nat): (r: nat)
    ensures r >= 1
  {
    if e == 0 then 1 else 10 * Pow10(e - 1)
  }

  /** `x` times ten to the power `e`, for a possibly negative exponent. */
  function Scale(x: real, e: int): real {
    if e >= 0 then x * Pow10(e) as real else x / Pow10(-e) as real
  }

  /** The first position of `a` or `b` in `s`, or `|s|` when neither occurs. */
  function Find(s: string, a: char, b: char): (k: nat)
    ensures k <= |s|
    ensures forall i :: 0 <= i < k ==> s[i] != a && s[i] != b
    ensures k < |s| ==> s[k] == a || s[k] == b
  {
    if s == [] || s[0] == a || s[0] == b then 0 else 1 + Find(s[1..], a, b)
  }

  /** A decimal literal without sign or exponent: digits, then optionally a point and more digits, with at least one digit. */
  function ParseMantissa(m: string): Option<real> {
    var k := Find(m, '.', '.');
    MantissaValue(m[..k], if k < |m| then m[k + 1..] else [])
  }

  /** The value of the digits before and after the point. */
  function MantissaValue(whole: string, frac: string): Option<real> {
    if AllDigits(whole) && AllDigits(frac) && |whole| + |frac| > 0 then
      Some(DecimalValue(whole, frac))
    else
      None
  }

  /** The number `whole.frac` denotes. */
  function DecimalValue(whole: string, frac: string): real
    requires AllDigits(whole) && AllDigits(frac)
  {
    DigitsValue(whole) as real + DigitsValue(frac) as real / Pow10(|frac|) as real
  }

  /** An exponent: an optional sign followed by at least one digit. */
  function ParseExponent(e: string): Option<int> {
    var neg := e != [] && e[0] == '-';
    var digits := if e != [] && (e[0] == '+' || e[0] == '-') then e[1..] else e;
    if digits != [] && AllDigits(digits) then
      Some(if neg then -(DigitsValue(digits) as int) else DigitsValue(digits))
    else
      None
  }

  /** A literal without its sign: a mantissa, then optionally `e` or `E` and an exponent. */
  function ParseUnsigned(body: string): Option<real> {
    var k := Find(body, 'e', 'E');
    var m := ParseMantissa(body[..k]);
    var e := if k < |body| then ParseExponent(body[k + 1..]) else Some(0);
    if m.None? || e.None? then None else Some(Scale(m.value, e.value))
  }

  /**
   * The decimal literals `float()` accepts: an optional sign, a mantissa, and an
   * optional exponent introduced by `e` or `E`. `None` is the `ValueError` case.
   */
  function ParseNum(s: string): Option<real> {
    var body := if s != [] && (s[0] == '+' || s[0] == '-') then s[1..] else s;
    var u := ParseUnsigned(body);
    if u.None? then None
    else if s != [] && s[0] == '-' then Some(-u.value)
    else u
  }

  lemma FindAt(s: string, a: char, b: char, k: nat)
    requires k <= |s|
    requires forall i :: 0 <= i < k ==> s[i] != a && s[i] != b
    requires k < |s| ==> s[k] == a || s[k] == b
    ensures Find(s, a, b) == k
  {
  }

  /** A literal without sign or exponent reads as its mantissa. */
  lemma ParsePlain(s: string)
    requires s != [] && s[0] != '+' && s[0] != '-'
    requires forall i :: 0 <= i < |s| ==> s[i] != 'e' && s[i] != 'E'
    ensures ParseNum(s) == ParseMantissa(s)
  {
    FindAt(s, 'e', 'E', |s|);
    assert s[..|s|] == s;
    if ParseMantissa(s).Some? {
      assert Scale(ParseMantissa(s).value, 0) == ParseMantissa(s).value;
    }
  }

  lemma MantissaValueOf(w: string, f: string)
    requires AllDigits(w) && AllDigits(f) && |w| + |f| > 0
    ensures MantissaValue(w, f) == Some(DecimalValue(w, f))
  {
  }

  lemma SplitAtPoint(w: string, f: string)
    requires AllDigits(w)
    ensures ParseMantissa(w + "." + f) == MantissaValue(w, f)
  {
    var s := w + "." + f;
    assert s[..|w|] == w;
    assert s[|w| + 1..] == f;
    assert s[|w|] == '.';
    forall i | 0 <= i < |w|
      ensures s[i] != '.'
    {
      assert s[i] == w[i];
    }
    FindAt(s, '.', '.', |w|);
  }

  /** A literal of the form `digits.digits` reads as its decimal value. */
  lemma ParseDecimal(w: string, f: string)
    requires AllDigits(w) && AllDigits(f) && |w| + |f| > 0
    ensures ParseNum(w + "." + f) == Some(DecimalValue(w, f))
  {
    var s := w + "." + f;
    forall i | 0 <= i < |s|
      ensures s[i] != 'e' && s[i] != 'E' && s[i] != '+' && s[i] != '-'
    {
      if i < |w| { assert s[i] == w[i]; } else if i > |w| { assert s[i] == f[i - |w| - 1]; }
    }
    ParsePlain(s);
    SplitAtPoint(w, f);
    MantissaValueOf(w, f);
  }

  /** `float(str(n))` is `n` for every natural number. */
  lemma ParseNatToString(n: nat)
    ensures ParseNum(NatToString(n)) == Some(n as real)
  {
    var s := NatToString(n);
    ParsePlain(s);
    FindAt(s, '.', '.', |s|);
    assert s[..|s|] == s;
    assert ParseMantissa(s) == MantissaValue(s, []);
    NatToStringValue(n);
  }

  /** How the sign of a literal enters its value. */
  lemma ParseNumSign(s: string)
    ensures s != [] && s[0] == '-' ==>
      ParseNum(s) == if ParseUnsigned(s[1..]).None? then None else Some(-ParseUnsigned(s[1..]).value)
    ensures s != [] && IsDigit(s[0]) ==> ParseNum(s) == ParseUnsigned(s)
  {
  }

  /** A minus sign in front of an unsigned literal negates its value. */
  lemma ParseNegated(t: string, x: real)
    requires t != [] && IsDigit(t[0]) && ParseNum(t) == Some(x)
    ensures ParseNum("-" + t) == Some(-x)
  {
    var s := "-" + t;
    assert s[1..] == t;
    ParseNumSign(t);
    ParseNumSign(s);
  }

  /** `float(str(i))` is `i` for every integer: the integers `str` writes always parse back. */
  lemma ParseIntToString(i: int)
    ensures ParseNum(IntToString(i)) == Some(i as real)
  {
    ParseNatToString(if i < 0 then -i else i);
    if i < 0 {
      ParseNegated(NatToString(-i), (-i) as real);
    }
  }

  /** A character that cannot appear in a number. */
  predicate Foreign(c: char) {
    !IsDigit(c) && c !in "+-.eE"
  }

  lemma MantissaRejects(m: string, j: nat)
    requires j < |m| && Foreign(m[j])
    ensures ParseMantissa(m) == None
  {
    var p := Find(m, '.', '.');
    if j < p {
      assert m[..p][j] == m[j];
    } else {
      assert m[p + 1..][j - p - 1] == m[j];
    }
  }

  lemma ExponentRejects(e: string, j: nat)
    requires j < |e| && Foreign(e[j])
    ensures ParseExponent(e) == None
  {
    if e[0] == '+' || e[0] == '-' {
      assert e[1..][j - 1] == e[j];
    }
  }

  /** Text that holds a character other than a digit, sign, point or exponent marker is not a number. */
  lemma ParseNumRejects(s: string, i: nat)
    requires i < |s| && Foreign(s[i])
    ensures ParseNum(s) == None
  {
    var body := if s[0] == '+' || s[0] == '-' then s[1..] else s;
    var j := if s[0] == '+' || s[0] == '-' then i - 1 else i;
    assert body[j] == s[i];
    var k := Find(body, 'e', 'E');
    if j < k {
      assert body[..k][j] == s[i];
      MantissaRejects(body[..k], j);
    } else {
      assert body[k + 1..][j - k - 1] == s[i];
      ExponentRejects(body[k + 1..], j - k - 1);
    }
  }

  /**
   * The integer nearest to `y`, ties to the even neighbour: the rounding rule
   * Python's `round` applies.
   */
  function RoundHalfEven(y: real): (r: int)
    ensures -0.5 <= y - r as real <= 0.5
    ensures (y - r as real == 0.5 || r as real - y == 0.5) ==> r % 2 == 0
  {
    var f := y.Floor;
    var d := y - f as real;
    if d < 0.5 then f
    else if d > 0.5 then f + 1
    else if f % 2 == 0 then f
    else f + 1
  }

  const Scale8: real := 100000000.0

  /** `round(x, 8)`: `x` rounded to eight decimal places, ties to even. */
  function Round8(x: real): real {
    RoundHalfEven(x * Scale8) as real / Scale8
  }

  /** Rounding moves a value by at most half a unit of the eighth decimal place. */
  lemma Round8Error(x: real)
    ensures -0.5 / Scale8 <= Round8(x) - x <= 0.5 / Scale8
  {
    var n := RoundHalfEven(x * Scale8);
    assert Round8(x) - x == (n as real - x * Scale8) / Scale8;
  }

  /** A value with at most eight decimal places is its own rounding. */
  lemma Round8OfGrid(n: int)
    ensures Round8(n as real / Scale8) == n as real / Scale8
  {
    assert (n as real / Scale8) * Scale8 == n as real;
    assert RoundHalfEven(n as real) == n;
  }

  /** Rounding twice is rounding once. */
  lemma Round8Idempotent(x: real)
    ensures Round8(Round8(x)) == Round8(x)
  {
    Round8OfGrid(RoundHalfEven(x * Scale8));
  }

  /** Integers are not moved by rounding. */
  lemma Round8OfInt(i: int)
    ensures Round8(i as real) == i as real
  {
    Round8OfGrid(i * 100000000);
    assert (i * 100000000) as real / Scale8 == i as real;
  }

  lemma RoundHalfEvenMonotone(u: real, v: real)
    requires u <= v
    ensures RoundHalfEven(u) <= RoundHalfEven(v)
  {
    if u.Floor < v.Floor {
      assert RoundHalfEven(u) <= u.Floor + 1 <= v.Floor <= RoundHalfEven(v);
    }
  }

  /** Rounding keeps order: it never swaps two values. */
  lemma Round8Monotone(x: real, y: real)
    requires x <= y
    ensures Round8(x) <= Round8(y)
  {
    RoundHalfEvenMonotone(x * Scale8, y * Scale8);
  }
}
