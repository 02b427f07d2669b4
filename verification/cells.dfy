/**
 * Cell values and the comparison the pipeline applies to them: `clean_string`
 * on a value of any type, and `is_mismatch`.
 */
module Cells {
  import opened Wrappers
  import opened Whitespace
  import opened Numbers

  /**
   * A cell as pandas holds it: a missing value (NaN), a string, an integer or a
   * float (an exact real here).
   */
  datatype Cell = Missing | Text(s: string) | Int(i: int) | Float(x: real)

  /** `clean_string`: strings are whitespace-normalised, other values are returned as they are. */
  function CleanValue(v: Cell): Cell {
    if v.Text? then Text(CleanString(v.s)) else v
  }

  /**
   * `clean_string` turns a string into one with no whitespace at either end, no
   * two whitespace characters in a row, and the same other characters in the
   * same order; any other value comes back unchanged.
   */
  lemma CleanValueShape(v: Cell)
    ensures v.Text? ==> CleanValue(v).Text? && IsClean(CleanValue(v).s) && NonSpace(CleanValue(v).s) == NonSpace(v.s)
    ensures !v.Text? ==> CleanValue(v) == v
  {
    if v.Text? {
      CleanStringIsClean(v.s);
      CleanStringKeepsNonSpace(v.s);
    }
  }

  /** `clean_string` applied twice is `clean_string` applied once. */
  lemma CleanValueIdempotent(v: Cell)
    ensures CleanValue(CleanValue(v)) == CleanValue(v)
  {
    if v.Text? {
      CleanStringIdempotent(v.s);
    }
  }

  /**
   * What `str()` shows of a value once `is_mismatch` has normalised it: a number
   * rounded to eight decimals, or text. `str` writes two rounded floats the same
   * exactly when they are equal and, when both are zero, carry the same sign
   * (`-0.0` and `0.0` print differently although they are equal). A printed
   * float always reads back as a number, so comparing these forms is comparing
   * the printed strings.
   */
  datatype Canon = Num(value: real, negativeZero: bool) | Str(text: string)

  /**
   * `round(x, 8)` for a float whose sign is `negative`: the rounded value, and
   * whether it is a zero that keeps the minus sign (`round` keeps the sign, so
   * a small negative value rounds to `-0.0`).
   */
  function Rounded(x: real, negative: bool): Canon {
    Num(Round8(x), negative && Round8(x) == 0.0)
  }

  /**
   * Whether `float()` of the cleaned value carries a minus sign: a negative
   * number, or text with a leading `-` (which makes even a zero literal `-0.0`).
   */
  predicate SignBit(v: Cell) {
    match CleanValue(v)
    case Missing => false
    case Int(i) => i < 0
    case Float(x) => x < 0.0
    case Text(t) => t != [] && t[0] == '-'
  }

  /**
   * One side of `is_mismatch`: clean the value, and replace it by its rounded
   * number when `float()` accepts it. NaN fails `float(v) == float(v)` and keeps
   * its printed form `nan`.
   */
  function Canonical(v: Cell): Canon {
    match CleanValue(v)
    case Missing => Str("nan")
    case Int(i) => Rounded(i as real, SignBit(v))
    case Float(x) => Rounded(x, SignBit(v))
    case Text(t) =>
      match ParseNum(t)
      case Some(x) => Rounded(x, SignBit(v))
      case None => Str(t)
  }

  /** `is_mismatch`: the two printed normal forms differ. */
  predicate IsMismatch(a: Cell, b: Cell) {
    Canonical(a) != Canonical(b)
  }

  /** Agreeing (not being a mismatch) is reflexive, symmetric and transitive. */
  lemma AgreementIsEquivalence(a: Cell, b: Cell, c: Cell)
    ensures !IsMismatch(a, a)
    ensures IsMismatch(a, b) == IsMismatch(b, a)
    ensures !IsMismatch(a, b) && !IsMismatch(b, c) ==> !IsMismatch(a, c)
  {
  }

  /**
   * The three cases of `is_mismatch` on two strings: both numeric, compare the
   * rounded numbers, where a zero with a minus sign differs from one without;
   * neither numeric, compare the cleaned strings; exactly one numeric, always a
   * mismatch.
   */
  lemma MismatchOfTexts(a: string, b: string)
    ensures var pa, pb := ParseNum(CleanString(a)), ParseNum(CleanString(b));
      && (pa.Some? && pb.Some? ==> (IsMismatch(Text(a), Text(b)) <==>
            Round8(pa.value) != Round8(pb.value) || (Round8(pa.value) == 0.0 && SignBit(Text(a)) != SignBit(Text(b)))))
      && (pa.None? && pb.None? ==> (IsMismatch(Text(a), Text(b)) <==> CleanString(a) != CleanString(b)))
      && (pa.Some? != pb.Some? ==> IsMismatch(Text(a), Text(b)))
  {
  }

  /** Collapsing a whitespace run to one space never creates a mismatch. */
  lemma MismatchIgnoresRunLength(x: string, w: string, y: string)
    requires AllSpace(w) && w != []
    ensures !IsMismatch(Text(x + w + y), Text(x + " " + y))
  {
    CleanStringRunLength(x, w, y);
  }

  /** Whitespace added at either end of a string never creates a mismatch. */
  lemma MismatchIgnoresEdgeSpace(w1: string, s: string, w2: string)
    requires AllSpace(w1) && AllSpace(w2)
    ensures !IsMismatch(Text(w1 + s + w2), Text(s))
  {
    CleanStringTrailingSpace(w1 + s, w2);
    CleanStringLeadingSpace(w1, s);
  }

  /** Two values that differ in a character other than whitespace, and are not numbers, are a mismatch. */
  lemma MismatchOfDifferentText(a: string, b: string)
    requires ParseNum(CleanString(a)).None? && ParseNum(CleanString(b)).None?
    requires NonSpace(a) != NonSpace(b)
    ensures IsMismatch(Text(a), Text(b))
  {
    CleanStringKeepsNonSpace(a);
    CleanStringKeepsNonSpace(b);
  }

  /**
   * Numbers are a mismatch exactly when their roundings to eight decimals
   * differ, or both round to zero and only one of them carries a minus sign,
   * whatever their types.
   */
  lemma NumbersWithinRounding(a: Cell, x: real, b: Cell, y: real)
    requires a == Float(x) || (a.Text? && ParseNum(CleanString(a.s)) == Some(x))
    requires b == Float(y) || (b.Text? && ParseNum(CleanString(b.s)) == Some(y))
    ensures IsMismatch(a, b) <==> Round8(x) != Round8(y) || (Round8(x) == 0.0 && SignBit(a) != SignBit(b))
  {
  }

  lemma CleanStringOfDigits(s: string)
    requires forall i :: 0 <= i < |s| ==> IsDigit(s[i]) || s[i] == '-'
    ensures CleanString(s) == s
  {
    CleanStringOfClean(s);
  }

  /** An integer and its decimal text are not a mismatch. */
  lemma IntAgreesWithItsText(i: int)
    ensures !IsMismatch(Int(i), Text(IntToString(i)))
  {
    var s := IntToString(i);
    assert forall k :: 0 <= k < |s| ==> IsDigit(s[k]) || s[k] == '-';
    CleanStringOfDigits(s);
    ParseIntToString(i);
  }

  /** A string without whitespace is its own `clean_string`. */
  lemma CleanStringOfPlain(s: string)
    requires forall i :: 0 <= i < |s| ==> !IsSpace(s[i])
    ensures CleanString(s) == s
  {
    CleanStringOfClean(s);
  }

  lemma CanonicalOfNumber(s: string, x: real, negative: bool)
    requires CleanString(s) == s
    requires ParseNum(s) == Some(x)
    requires negative == (s != [] && s[0] == '-')
    ensures Canonical(Text(s)) == Rounded(x, negative)
  {
  }

  lemma CanonicalOfWord(s: string)
    requires forall i :: 0 <= i < |s| ==> !IsSpace(s[i])
    requires ParseNum(s) == None
    ensures Canonical(Text(s)) == Str(s)
  {
    CleanStringOfPlain(s);
  }

  /** A literal `digits.digits` is the number it spells, rounded. */
  lemma CanonicalOfDecimal(w: string, f: string, s: string, x: real)
    requires AllDigits(w) && AllDigits(f) && |w| + |f| > 0 && s == w + "." + f
    requires x == DecimalValue(w, f)
    ensures Canonical(Text(s)) == Num(Round8(x), false)
  {
    ParseDecimal(w, f);
    forall i | 0 <= i < |s|
      ensures !IsSpace(s[i])
    {
      if i < |w| { assert s[i] == w[i]; } else if i > |w| { assert s[i] == f[i - |w| - 1]; }
    }
    CleanStringOfPlain(s);
    CanonicalOfNumber(s, x, false);
  }

  /** An integer written without a point is the integer, and is not moved by rounding. */
  lemma CanonicalOfNat(n: nat, s: string)
    requires s == NatToString(n)
    ensures Canonical(Text(s)) == Num(n as real, false)
  {
    ParseNatToString(n);
    Round8OfInt(n);
    assert forall i :: 0 <= i < |s| ==> IsDigit(s[i]);
    CleanStringOfPlain(s);
    CanonicalOfNumber(s, n as real, false);
  }

  lemma CanonicalOfThree()
    ensures Canonical(Text("3")) == Num(3.0, false)
  {
    assert NatToString(3) == "3";
    CanonicalOfNat(3, "3");
  }

  lemma CanonicalOfThreePointZero()
    ensures Canonical(Text("3.0")) == Num(3.0, false)
  {
    assert DigitsValue("3") == 3 by { assert "3"[..0] == []; }
    assert DigitsValue("0") == 0 by { assert "0"[..0] == []; }
    CanonicalOfDecimal("3", "0", "3.0", 3.0);
    Round8OfInt(3);
  }

  /** "3" and "3.0" are the same number. */
  lemma ExampleThree()
    ensures !IsMismatch(Text("3"), Text("3.0"))
  {
    CanonicalOfThree();
    CanonicalOfThreePointZero();
  }

  lemma CanonicalOfThirty()
    ensures Canonical(Text("30")) == Num(30.0, false)
  {
    assert NatToString(30) == "30";
    CanonicalOfNat(30, "30");
  }

  lemma CanonicalOfThirtyPointZero()
    ensures Canonical(Text("30.0")) == Num(30.0, false)
  {
    assert DigitsValue("30") == 30 by { assert "30"[..1] == "3"; assert "3"[..0] == []; }
    assert DigitsValue("0") == 0 by { assert "0"[..0] == []; }
    CanonicalOfDecimal("30", "0", "30.0", 30.0);
    Round8OfInt(30);
  }

  /** "30" and "30.0" are the same number. */
  lemma ExampleThirty()
    ensures !IsMismatch(Text("30"), Text("30.0"))
  {
    CanonicalOfThirty();
    CanonicalOfThirtyPointZero();
  }

  lemma DigitsOfZeros(z: string)
    requires forall i :: 0 <= i < |z| ==> z[i] == '0'
    ensures AllDigits(z) && DigitsValue(z) == 0
    decreases |z|
  {
    if z != [] {
      DigitsOfZeros(z[..|z| - 1]);
    }
  }

  lemma DigitsOfZerosThen(z: string, d: char)
    requires forall i :: 0 <= i < |z| ==> z[i] == '0'
    requires IsDigit(d)
    ensures AllDigits(z + [d]) && DigitsValue(z + [d]) == DigitValue(d)
  {
    DigitsOfZeros(z);
    assert (z + [d])[..|z|] == z;
  }

  lemma DecimalOneAnd(f: string, d: char)
    requires forall i :: 0 <= i < |f| ==> f[i] == '0'
    requires IsDigit(d)
    ensures AllDigits(f + [d])
    ensures DecimalValue("1", f + [d]) == 1.0 + DigitValue(d) as real / Pow10(|f| + 1) as real
  {
    DigitsOfZerosThen(f, d);
    assert DigitsValue("1") == 1 by { assert "1"[..0] == []; }
    var p := Pow10(|f + [d]|);
    assert p == Pow10(|f| + 1);
    assert DecimalValue("1", f + [d]) == 1.0 + DigitsValue(f + [d]) as real / p as real;
  }

  /** `1.` followed by zeros and one last digit `d`. */
  lemma CanonicalOneAnd(f: string, d: char, s: string, x: real)
    requires forall i :: 0 <= i < |f| ==> f[i] == '0'
    requires IsDigit(d) && s == "1" + "." + (f + [d])
    requires x == 1.0 + DigitValue(d) as real / Pow10(|f| + 1) as real
    ensures Canonical(Text(s)) == Num(Round8(x), false)
  {
    DecimalOneAnd(f, d);
    CanonicalOfDecimal("1", f + [d], s, x);
  }

  lemma RoundsToOne(x: real)
    requires 1.0 <= x && x * Scale8 < 100000000.5
    ensures Round8(x) == 1.0
  {
    var y := x * Scale8;
    assert 100000000.0 <= y;
    assert y.Floor == 100000000;
  }

  lemma CanonicalOfNinth(d: char, s: string, x: real)
    requires (d == '1' && s == "1.000000001" && x == 1.000000001) || (d == '2' && s == "1.000000002" && x == 1.000000002)
    ensures Canonical(Text(s)) == Num(1.0, false)
  {
    assert Pow10(9) == 1000000000;
    assert x == 1.0 + DigitValue(d) as real / Pow10(9) as real;
    CanonicalOneAnd("00000000", d, s, x);
    RoundsToOne(x);
  }

  /** Values that differ only in the ninth decimal agree. */
  lemma ExampleNinthDecimal()
    ensures !IsMismatch(Text("1.000000001"), Text("1.000000002"))
  {
    CanonicalOfNinth('1', "1.000000001", 1.000000001);
    CanonicalOfNinth('2', "1.000000002", 1.000000002);
  }

  lemma CanonicalOfEighth(d: char, s: string, x: real)
    requires (d == '1' && s == "1.00000001" && x == 1.00000001) || (d == '2' && s == "1.00000002" && x == 1.00000002)
    ensures Canonical(Text(s)) == Num(x, false)
  {
    assert Pow10(8) == 100000000;
    assert x == 1.0 + DigitValue(d) as real / Pow10(8) as real;
    CanonicalOneAnd("0000000", d, s, x);
    assert x == (100000000 + DigitValue(d)) as real / Scale8;
    Round8OfGrid(100000000 + DigitValue(d));
  }

  /** Values that differ in the eighth decimal are a mismatch. */
  lemma ExampleEighthDecimal()
    ensures IsMismatch(Text("1.00000001"), Text("1.00000002"))
  {
    CanonicalOfEighth('1', "1.00000001", 1.00000001);
    CanonicalOfEighth('2', "1.00000002", 1.00000002);
  }

  lemma CanonicalOfLetters(s: string)
    requires s != [] && Foreign(s[0])
    requires forall i :: 0 <= i < |s| ==> !IsSpace(s[i])
    ensures Canonical(Text(s)) == Str(s)
  {
    ParseNumRejects(s, 0);
    CanonicalOfWord(s);
  }

  lemma ParseMinus(t: string, x: real, s: string)
    requires t != [] && IsDigit(t[0]) && ParseNum(t) == Some(x)
    requires forall i :: 0 <= i < |t| ==> !IsSpace(t[i])
    requires s == "-" + t
    ensures s != [] && s[0] == '-' && ParseNum(s) == Some(-x)
    ensures CleanString(s) == s
  {
    ParseNegated(t, x);
    forall i | 0 <= i < |s|
      ensures !IsSpace(s[i])
    {
      if i > 0 { assert s[i] == t[i - 1]; }
    }
    CleanStringOfPlain(s);
  }

  lemma NumberCharsNotSpace(t: string)
    requires forall i :: 0 <= i < |t| ==> IsDigit(t[i]) || t[i] == '.'
    ensures forall i :: 0 <= i < |t| ==> !IsSpace(t[i])
  {
  }

  lemma ParseZeroPointZero(t: string)
    requires t == "0.0"
    ensures ParseNum(t) == Some(0.0)
  {
    var w := "0";
    assert DigitsValue(w) == 0 by { assert w[..0] == []; }
    assert t == w + "." + w;
    ParseDecimal(w, w);
  }

  lemma CanonicalOfZeroPointZero(t: string)
    requires t == "0.0"
    ensures Canonical(Text(t)) == Num(0.0, false)
  {
    ParseZeroPointZero(t);
    NumberCharsNotSpace(t);
    CleanStringOfPlain(t);
    CanonicalOfNumber(t, 0.0, false);
    Round8OfInt(0);
  }

  lemma CanonicalOfMinusZero(t: string, s: string)
    requires t == "0.0" && s == "-" + t
    ensures Canonical(Text(s)) == Num(0.0, true)
  {
    ParseZeroPointZero(t);
    NumberCharsNotSpace(t);
    ParseMinus(t, 0.0, s);
    CanonicalOfNumber(s, -0.0, true);
    Round8OfInt(0);
  }

  /** A minus sign on zero is a mismatch: "-0.0" and "0.0" print differently once rounded. */
  lemma ExampleNegativeZero(a: string, b: string)
    requires a == "-0.0" && b == "0.0"
    ensures IsMismatch(Text(a), Text(b))
  {
    assert a == "-" + b;
    CanonicalOfMinusZero(b, a);
    CanonicalOfZeroPointZero(b);
  }

  lemma RoundsToZero(x: real)
    requires -0.5 < x * Scale8 < 0.5
    ensures Round8(x) == 0.0
  {
    var y := x * Scale8;
    if y < 0.0 {
      assert y.Floor == -1;
    } else {
      assert y.Floor == 0;
    }
  }

  lemma ParseOneBillionth(t: string)
    requires t == "0.000000001"
    ensures ParseNum(t) == Some(0.000000001)
    ensures IsDigit(t[0]) && forall i :: 0 <= i < |t| ==> !IsSpace(t[i])
  {
    NumberCharsNotSpace(t);
    var z := "00000000";
    DigitsOfZerosThen(z, '1');
    assert DigitsValue("0") == 0 by { assert "0"[..0] == []; }
    assert Pow10(9) == 1000000000;
    assert t == "0" + "." + (z + ['1']);
    ParseDecimal("0", z + ['1']);
  }

  lemma CanonicalOfMinusBillionth(t: string, s: string, x: real)
    requires t == "0.000000001" && s == "-" + t && x == 0.000000001
    ensures Canonical(Text(s)) == Num(0.0, true)
  {
    ParseOneBillionth(t);
    ParseMinus(t, x, s);
    CanonicalOfNumber(s, -x, true);
    RoundsToZero(-x);
  }

  lemma CanonicalOfZero()
    ensures Canonical(Text("0")) == Num(0.0, false)
  {
    var zero := "0";
    assert NatToString(0) == zero;
    CanonicalOfNat(0, zero);
  }

  /**
   * A small negative value rounds to a zero that keeps its sign:
   * "-0.000000001" and "0" are a mismatch.
   */
  lemma ExampleRoundsToNegativeZero(s: string)
    requires s == "-0.000000001"
    ensures IsMismatch(Text(s), Text("0"))
  {
    var t := "0.000000001";
    assert s == "-" + t;
    CanonicalOfMinusBillionth(t, s, 0.000000001);
    CanonicalOfZero();
  }

  /** Text is compared literally: "abc" and "abd" are a mismatch. */
  lemma ExampleDifferentText(a: string, b: string)
    requires a == "abc" && b == "abd"
    ensures IsMismatch(Text(a), Text(b))
  {
    CanonicalOfLetters(a);
    CanonicalOfLetters(b);
    assert a[2] != b[2];
  }

  lemma EdgeSpaceAgree(t: string, w1: string, s: string, w2: string)
    requires AllSpace(w1) && AllSpace(w2) && t == w1 + s + w2
    ensures Canonical(Text(t)) == Canonical(Text(s))
  {
    MismatchIgnoresEdgeSpace(w1, s, w2);
  }

  lemma RunAgree(t: string, u: string, x: string, w: string, y: string)
    requires AllSpace(w) && w != [] && t == x + w + y && u == x + " " + y
    ensures Canonical(Text(t)) == Canonical(Text(u))
  {
    MismatchIgnoresRunLength(x, w, y);
  }

  /** A trailing space does not make "abc " differ from "abc". */
  lemma ExampleTrailingSpace()
    ensures !IsMismatch(Text("abc"), Text("abc "))
  {
    EdgeSpaceAgree("abc ", "", "abc", " ");
  }

  /** A run of spaces inside the text counts as one: "a   b" agrees with "a b". */
  lemma ExampleInnerRun()
    ensures !IsMismatch(Text("a   b"), Text("a b"))
  {
    RunAgree("a   b", "a b", "a", "   ", "b");
  }

  lemma AliceWithSpaceAgrees()
    ensures Canonical(Text("alice ")) == Canonical(Text("alice"))
  {
    EdgeSpaceAgree("alice ", "", "alice", " ");
  }

  lemma AliceWithoutSpace()
    ensures Canonical(Text("alice")) == Str("alice")
  {
    CanonicalOfLetters("alice");
  }

  lemma AliceWithSpace()
    ensures Canonical(Text("alice ")) == Str("alice")
  {
    AliceWithSpaceAgrees();
    AliceWithoutSpace();
  }

  /** Case matters: "Alice" and "alice " are a mismatch. */
  lemma ExampleCase()
    ensures IsMismatch(Text("Alice"), Text("alice "))
  {
    CanonicalOfLetters("Alice");
    AliceWithSpace();
  }
}
