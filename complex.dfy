/** The calculator's complex value type (`class Complex` in main.js): the four arithmetic
    operations and the text it shows on the display. */
module ComplexNumbers {
  import opened Numerals

  /** A complex value `re + im·i`. Either part may be NaN, as after a failed calculation. */
  datatype Complex = Complex(re: Number, im: Number)

  const Zero: Complex := Complex(Fin(0.0), Fin(0.0))

  /** The value every failed parse or calculation produces. */
  const Invalid: Complex := Complex(NaN, NaN)

  predicate IsFinite(z: Complex) {
    z.re.Fin? && z.im.Fin?
  }

  function Add(a: Complex, b: Complex): Complex {
    Complex(Plus(a.re, b.re), Plus(a.im, b.im))
  }

  function Subtract(a: Complex, b: Complex): Complex {
    Complex(Minus(a.re, b.re), Minus(a.im, b.im))
  }

  /** (a + bi)(c + di) = (ac - bd) + (ad + bc)i */
  function Multiply(a: Complex, b: Complex): Complex {
    Complex(Minus(Times(a.re, b.re), Times(a.im, b.im)),
            Plus(Times(a.re, b.im), Times(a.im, b.re)))
  }

  /** What `divide` gives back: a value, or the exception it throws. */
  datatype Quotient = Ok(value: Complex) | DivisionByZero

  /** (a + bi) / (c + di) = [(ac + bd) + (bc - ad)i] / (c² + d²), throwing when the
      denominator c² + d² is 0. A NaN part of the divisor makes the denominator NaN, which is
      not 0: that case gives NaN parts. */
  function Divide(a: Complex, b: Complex): Quotient {
    var den := Plus(Times(b.re, b.re), Times(b.im, b.im));
    if den == Fin(0.0) then DivisionByZero
    else
      Ok(Complex(Over(Plus(Times(a.re, b.re), Times(a.im, b.im)), den),
                 Over(Minus(Times(a.im, b.re), Times(a.re, b.im)), den)))
  }

  /** The display text of a value: "Error" for NaN, the real part alone when there is no
      imaginary part, a bare `i` for a unit imaginary part. */
  function ToString(z: Complex): string {
    if z.re.NaN? || z.im.NaN? then "Error"
    else
      var x, y := z.re.value, z.im.value;
      if y == 0.0 then NumberText(x)
      else if x == 0.0 then
        if y == 1.0 then "i" else if y == -1.0 then "-i" else NumberText(y) + "i"
      else
        NumberText(x) + (if y >= 0.0 then "+" else "-")
        + (if Abs(y) == 1.0 then "" else NumberText(Abs(y))) + "i"
  }

  // Algebra over exact reals.

  /** Subtracting what was added gives back the original value. */
  lemma AddSubtractInverse(a: Complex, b: Complex)
    requires IsFinite(b)
    ensures Subtract(Add(a, b), b) == a
  {
  }

  lemma SquarePositive(c: real)
    requires c != 0.0
    ensures c * c > 0.0
  {
  }

  lemma SquareNonNegative(c: real)
    ensures c * c >= 0.0
  {
  }

  /** c² + d² is nonzero unless c and d are both 0. */
  lemma SquaresNonZero(c: real, d: real)
    requires c != 0.0 || d != 0.0
    ensures NonZero(c * c + d * d)
  {
    if c != 0.0 {
      SquarePositive(c);
      SquareNonNegative(d);
    } else {
      SquarePositive(d);
      SquareNonNegative(c);
    }
  }

  lemma NonZeroNotZero(x: real)
    requires NonZero(x)
    ensures x != 0.0
  {
  }

  /** `divide` throws exactly when the divisor is 0: a NaN part does not make it throw. */
  lemma DivisionByZeroIff(a: Complex, b: Complex)
    ensures Divide(a, b).DivisionByZero? <==> b == Zero
  {
    if IsFinite(b) {
      var c, d := b.re.value, b.im.value;
      var den := Plus(Times(b.re, b.re), Times(b.im, b.im));
      assert den == Fin(c * c + d * d);
      if c != 0.0 || d != 0.0 {
        SquaresNonZero(c, d);
        NonZeroNotZero(c * c + d * d);
      } else {
        assert den == Fin(0.0);
      }
    }
  }

  /** A divisor with a NaN part gives NaN parts. */
  lemma DivideInvalid(a: Complex, b: Complex)
    requires !IsFinite(b)
    ensures Divide(a, b) == Ok(Invalid)
  {
  }

  /** Parts of the quotient of (p + qi)(c + di) by c + di. */
  lemma ProductQuotient(p: real, q: real, c: real, d: real, den: real)
    requires den == c * c + d * d && NonZero(den)
    ensures ((p * c - q * d) * c + (p * d + q * c) * d) / den == p
    ensures ((p * d + q * c) * c - (p * c - q * d) * d) / den == q
  {
    assert (p * c - q * d) * c + (p * d + q * c) * d == p * den;
    assert (p * d + q * c) * c - (p * c - q * d) * d == q * den;
  }

  /** Dividing a product by a nonzero finite factor gives back the other factor. */
  lemma MultiplyDivideInverse(a: Complex, b: Complex)
    requires IsFinite(a) && IsFinite(b) && b != Zero
    ensures Divide(Multiply(a, b), b) == Ok(a)
  {
    var p, q, c, d := a.re.value, a.im.value, b.re.value, b.im.value;
    SquaresNonZero(c, d);
    ProductQuotient(p, q, c, d, c * c + d * d);
    var m := Multiply(a, b);
    assert m.re == Fin(p * c - q * d);
    assert m.im == Fin(p * d + q * c);
    var den := Plus(Times(b.re, b.re), Times(b.im, b.im));
    assert den == Fin(c * c + d * d);
    assert Plus(Times(m.re, b.re), Times(m.im, b.im)) == Fin((p * c - q * d) * c + (p * d + q * c) * d);
    assert Over(Plus(Times(m.re, b.re), Times(m.im, b.im)), den) == Fin(p);
    assert Over(Minus(Times(m.im, b.re), Times(m.re, b.im)), den) == Fin(q);
  }

  /** Parts of the quotient (p + qi) / (c + di), multiplied back by c + di. */
  lemma QuotientProduct(p: real, q: real, c: real, d: real, den: real) returns (u: real, v: real)
    requires den == c * c + d * d && NonZero(den)
    ensures Over(Fin(p * c + q * d), Fin(den)) == Fin(u)
    ensures Over(Fin(q * c - p * d), Fin(den)) == Fin(v)
    ensures Multiply(Complex(Fin(u), Fin(v)), Complex(Fin(c), Fin(d))) == Complex(Fin(p), Fin(q))
  {
    u, v := (p * c + q * d) / den, (q * c - p * d) / den;
    assert u * den == p * c + q * d;
    assert v * den == q * c - p * d;
    assert (u * c - v * d) * den == p * den;
    assert (u * d + v * c) * den == q * den;
    assert u * c - v * d == p && u * d + v * c == q;
    MultiplyFinite(u, v, c, d);
  }

  lemma MultiplyFinite(u: real, v: real, c: real, d: real)
    ensures Multiply(Complex(Fin(u), Fin(v)), Complex(Fin(c), Fin(d)))
         == Complex(Fin(u * c - v * d), Fin(u * d + v * c))
  {
    var uc, vd, ud, vc := u * c, v * d, u * d, v * c;
    assert Times(Fin(u), Fin(c)) == Fin(uc) && Times(Fin(v), Fin(d)) == Fin(vd);
    assert Times(Fin(u), Fin(d)) == Fin(ud) && Times(Fin(v), Fin(c)) == Fin(vc);
  }

  /** A quotient, multiplied by the divisor, gives back the dividend. */
  lemma DivideMultiplyInverse(a: Complex, b: Complex)
    requires IsFinite(a) && IsFinite(b) && b != Zero
    ensures Divide(a, b).Ok? && Multiply(Divide(a, b).value, b) == a
  {
    var p, q, c, d := a.re.value, a.im.value, b.re.value, b.im.value;
    SquaresNonZero(c, d);
    NonZeroNotZero(c * c + d * d);
    var u, v := QuotientProduct(p, q, c, d, c * c + d * d);
    assert Plus(Times(b.re, b.re), Times(b.im, b.im)) == Fin(c * c + d * d);
    assert Plus(Times(a.re, b.re), Times(a.im, b.im)) == Fin(p * c + q * d);
    assert Minus(Times(a.im, b.re), Times(a.re, b.im)) == Fin(q * c - p * d);
    assert Divide(a, b) == Ok(Complex(Fin(u), Fin(v)));
    assert a == Complex(Fin(p), Fin(q)) && b == Complex(Fin(c), Fin(d));
  }

  // Properties of the display text.

  /** The characters the display text of a finite value is made of. */
  predicate IsValueChar(c: char) {
    IsDigit(c) || c == '.' || c == '-' || c == '+' || c == 'i'
  }

  predicate AllValueChars(t: string) {
    forall k :: 0 <= k < |t| ==> IsValueChar(t[k])
  }

  lemma ConcatValueChars(a: string, b: string)
    requires AllValueChars(a) && AllValueChars(b)
    ensures AllValueChars(a + b)
  {
    assert forall k :: |a| <= k < |a + b| ==> (a + b)[k] == b[k - |a|];
  }

  lemma NumberValueChars(x: real)
    ensures AllValueChars(NumberText(x))
  {
    NumberTextChars(x);
  }

  lemma ToStringChars(z: Complex)
    requires IsFinite(z)
    ensures AllValueChars(ToString(z))
  {
    var x, y := z.re.value, z.im.value;
    if y == 0.0 {
      NumberValueChars(x);
    } else if x == 0.0 {
      if y != 1.0 && y != -1.0 {
        NumberValueChars(y);
        ConcatValueChars(NumberText(y), "i");
      }
    } else {
      var sign := if y >= 0.0 then "+" else "-";
      var m := if Abs(y) == 1.0 then "" else NumberText(Abs(y));
      NumberValueChars(x);
      NumberValueChars(Abs(y));
      ConcatValueChars(NumberText(x), sign);
      ConcatValueChars(NumberText(x) + sign, m);
      ConcatValueChars(NumberText(x) + sign + m, "i");
    }
  }

  /** "Error" is shown exactly when a part is NaN. */
  lemma ToStringErrorIff(z: Complex)
    ensures ToString(z) == "Error" <==> !IsFinite(z)
  {
    if IsFinite(z) {
      ToStringChars(z);
      assert !IsValueChar("Error"[0]);
    }
  }

  /** The printer writes neither `i` nor `+`. */
  lemma NumberTextNoUnit(x: real)
    ensures 'i' !in NumberText(x) && '+' !in NumberText(x)
  {
    NumberTextChars(x);
  }

  lemma NoUnitCount(a: string)
    requires 'i' !in a
    ensures multiset(a)['i'] == 0
  {
  }

  lemma OneUnitAtEnd(a: string)
    requires 'i' !in a
    ensures multiset(a + "i")['i'] == 1 && (a + "i")[|a|] == 'i'
  {
    NoUnitCount(a);
    assert multiset(a + "i") == multiset(a) + multiset{'i'};
  }

  /** A finite value's text has no `i` when the imaginary part is 0, and exactly one
      otherwise, at the end. */
  lemma ToStringImaginaryUnit(z: Complex)
    requires IsFinite(z)
    ensures var t := ToString(z);
      multiset(t)['i'] == (if z.im.value == 0.0 then 0 else 1)
      && (z.im.value != 0.0 ==> t[|t| - 1] == 'i')
  {
    var x, y := z.re.value, z.im.value;
    if y == 0.0 {
      NumberTextNoUnit(x);
      NoUnitCount(NumberText(x));
    } else if x == 0.0 {
      if y == 1.0 || y == -1.0 {
        OneUnitAtEnd(if y == 1.0 then "" else "-");
      } else {
        NumberTextNoUnit(y);
        OneUnitAtEnd(NumberText(y));
      }
    } else {
      var a := ToStringHead(x, y);
      OneUnitAtEnd(a);
    }
  }

  /** The display text of a value with both parts nonzero: the real part, the sign of the
      imaginary part, its magnitude unless that is 1, and `i`. */
  lemma ToStringPair(x: real, y: real) returns (sign: string, m: string)
    requires x != 0.0 && y != 0.0
    ensures sign == (if y >= 0.0 then "+" else "-")
    ensures m == (if Abs(y) == 1.0 then "" else NumberText(Abs(y)))
    ensures ToString(Complex(Fin(x), Fin(y))) == NumberText(x) + (sign + m) + "i"
  {
    var t := NumberText(x);
    sign := if y >= 0.0 then "+" else "-";
    m := if Abs(y) == 1.0 then "" else NumberText(Abs(y));
    assert ToString(Complex(Fin(x), Fin(y))) == t + sign + m + "i";
    assert t + sign + m == t + (sign + m);
  }

  /** What the text of a value with both parts nonzero has before its final `i`. */
  lemma ToStringHead(x: real, y: real) returns (a: string)
    requires x != 0.0 && y != 0.0
    ensures ToString(Complex(Fin(x), Fin(y))) == a + "i" && 'i' !in a
  {
    var sign := if y >= 0.0 then "+" else "-";
    var m := if Abs(y) == 1.0 then "" else NumberText(Abs(y));
    NumberTextNoUnit(x);
    NumberTextNoUnit(Abs(y));
    NoUnitJoin(NumberText(x), sign, m);
    a := NumberText(x) + sign + m;
  }

  lemma NoUnitJoin(a: string, sign: string, m: string)
    requires 'i' !in a && 'i' !in m && (sign == "+" || sign == "-")
    ensures 'i' !in a + sign + m
  {
  }

  /** No `+` in `t` is directly followed by `-`. */
  predicate NoPlusMinus(t: string) {
    forall k :: 0 <= k < |t| - 1 && t[k] == '+' ==> t[k + 1] != '-'
  }

  lemma NoPlusNoPlusMinus(t: string)
    requires '+' !in t
    ensures NoPlusMinus(t)
  {
  }

  /** The two-part text: a sign between two sign-free texts, the second not starting with `-`. */
  lemma SignedTextNoPlusMinus(a: string, sign: string, m: string)
    requires '+' !in a && '+' !in m && (sign == "+" || sign == "-")
    requires m == [] || m[0] != '-'
    ensures NoPlusMinus(a + sign + m + "i")
  {
    var t := a + sign + m + "i";
    forall k | 0 <= k < |t| - 1 && t[k] == '+'
      ensures t[k + 1] != '-'
    {
      if k == |a| {
        assert t[k + 1] == (m + "i")[0];
      }
    }
  }

  /** The text never holds `+-`: a negative imaginary part is written with `-` alone. */
  lemma ToStringNoPlusMinus(z: Complex)
    ensures NoPlusMinus(ToString(z))
  {
    if !IsFinite(z) {
      NoPlusNoPlusMinus("Error");
    } else {
      var x, y := z.re.value, z.im.value;
      if y == 0.0 {
        NumberTextNoUnit(x);
        NoPlusNoPlusMinus(NumberText(x));
      } else if x == 0.0 {
        if y != 1.0 && y != -1.0 {
          NumberTextNoUnit(y);
          assert '+' !in NumberText(y) + "i";
          NoPlusNoPlusMinus(NumberText(y) + "i");
        } else {
          NoPlusNoPlusMinus(ToString(z));
        }
      } else {
        var sign := if y >= 0.0 then "+" else "-";
        var m := if Abs(y) == 1.0 then "" else NumberText(Abs(y));
        NumberTextNoUnit(x);
        NumberTextNoUnit(Abs(y));
        NumberTextShape(Abs(y));
        SignedTextNoPlusMinus(NumberText(x), sign, m);
        assert ToString(z) == NumberText(x) + sign + m + "i";
      }
    }
  }

  // Examples of display text.

  /** The text of a value with both parts nonzero, from the texts of its real part and of
      the magnitude of its imaginary part. */
  lemma ShowPair(x: real, y: real, a: string, b: string)
    requires x != 0.0 && y != 0.0 && Abs(y) != 1.0
    requires NumberText(x) == a && NumberText(Abs(y)) == b
    ensures ToString(Complex(Fin(x), Fin(y))) == a + (if y >= 0.0 then "+" else "-") + b + "i"
  {
  }

  /** (5, 0) shows as "5". */
  lemma ExampleShowWhole()
    ensures ToString(Complex(Fin(5.0), Fin(0.0))) == "5"
  {
    WholeText(5);
  }

  /** (0, 3) shows as "3i". */
  lemma ExampleShowImaginary()
    ensures ToString(Complex(Fin(0.0), Fin(3.0))) == "3i"
  {
    WholeText(3);
  }

  /** Whole parts, the imaginary one not ±1: the digits of each around the sign. */
  lemma ShowWholePair(a: nat, b: int)
    requires a > 0 && b != 0 && b != 1 && b != -1
    ensures ToString(Complex(Fin(a as real), Fin(b as real)))
         == NatDigits(a) + (if b > 0 then "+" else "-") + NatDigits(if b > 0 then b else -b) + "i"
  {
    var m: nat := if b > 0 then b else -b;
    WholeText(a);
    WholeText(m);
    assert Abs(b as real) == m as real;
    ShowPair(a as real, b as real, NatDigits(a), NatDigits(m));
  }

  /** (2, 3) shows as "2+3i". */
  lemma ExampleShowPair()
    ensures ToString(Complex(Fin(2.0), Fin(3.0))) == "2+3i"
  {
    ShowWholePair(2, 3);
  }

  /** A signed number with one nonzero decimal place is neither 0 nor ±1, and its magnitude
      prints as its whole digits, `.` and that digit. */
  lemma SignedTenths(n: nat, d: nat, negative: bool)
    requires 0 < d < 10
    ensures var y := n as real + d as real / 10.0; var v := if negative then -y else y;
      v != 0.0 && Abs(v) != 1.0 && (v >= 0.0 <==> !negative)
      && NumberText(Abs(v)) == NatDigits(n) + "." + [DigitChar(d)]
  {
    var y := n as real + d as real / 10.0;
    var v := if negative then -y else y;
    assert y * 10.0 == (10 * n + d) as real && 10 * n + d != 10;
    assert y > 0.0 && y != 1.0 && Abs(v) == y;
    TenthsText(n, d);
  }

  /** A whole real part and an imaginary part with one nonzero decimal place. */
  lemma ShowTenthsPair(a: nat, n: nat, d: nat, negative: bool)
    requires a > 0 && 0 < d < 10
    ensures var y := n as real + d as real / 10.0;
      ToString(Complex(Fin(a as real), Fin(if negative then -y else y)))
      == NatDigits(a) + (if negative then "-" else "+") + (NatDigits(n) + "." + [DigitChar(d)]) + "i"
  {
    var y := n as real + d as real / 10.0;
    var v := if negative then -y else y;
    SignedTenths(n, d, negative);
    WholeText(a);
    ShowPair(a as real, v, NatDigits(a), NatDigits(n) + "." + [DigitChar(d)]);
  }

  /** The pieces of the text of (1, -2.5), spelled out. */
  lemma DifferenceText()
    ensures -(2 as real + 5 as real / 10.0) == -2.5
    ensures NatDigits(1) + "-" + (NatDigits(2) + "." + [DigitChar(5)]) + "i" == "1-2.5i"
  {
    assert NatDigits(1) == "1" && NatDigits(2) == "2" && DigitChar(5) == '5';
  }

  /** (1, -2.5) shows as "1-2.5i". */
  lemma ExampleShowDifference()
    ensures ToString(Complex(Fin(1.0), Fin(-2.5))) == "1-2.5i"
  {
    ShowTenthsPair(1, 2, 5, true);
    DifferenceText();
  }

  /** (1, 2) + (3, -4) is (4, -2), which shows as "4-2i". */
  lemma ExampleSum()
    ensures Add(Complex(Fin(1.0), Fin(2.0)), Complex(Fin(3.0), Fin(-4.0))) == Complex(Fin(4.0), Fin(-2.0))
    ensures ToString(Complex(Fin(4.0), Fin(-2.0))) == "4-2i"
  {
    ShowWholePair(4, -2);
  }
}
