/** The numbers a calculator component holds, and the two conversions between numbers and
    text that the calculator borrows from the JavaScript runtime: printing a number in plain
    decimal notation (`Number.prototype.toString`) and reading one back (`parseFloat`). */
module Numerals {

  /** One component of a complex value: an exact real, or the NaN marker. */
  datatype Number = Fin(value: real) | NaN

  // Arithmetic on components; NaN is absorbing, as in IEEE-754.

  function Negate(x: Number): Number {
    if x.Fin? then Fin(-x.value) else NaN
  }

  function Plus(x: Number, y: Number): Number {
    if x.Fin? && y.Fin? then Fin(x.value + y.value) else NaN
  }

  function Minus(x: Number, y: Number): Number {
    if x.Fin? && y.Fin? then Fin(x.value - y.value) else NaN
  }

  function Times(x: Number, y: Number): Number {
    if x.Fin? && y.Fin? then Fin(x.value * y.value) else NaN
  }

  /** Written with strict comparisons only: a real is nonzero when it is on either side of 0. */
  predicate NonZero(r: real) {
    r < 0.0 || r > 0.0
  }

  /** Division. A zero divisor gives NaN here; the calculator never divides by zero, because
      its `divide` throws before it would. */
  function Over(x: Number, y: Number): Number {
    if x.Fin? && y.Fin? && NonZero(y.value) then Fin(x.value / y.value) else NaN
  }

  function Abs(x: real): real {
    if x < 0.0 then -x else x
  }

  // Decimal digit strings.

  predicate IsDigit(c: char) {
    '0' <= c <= '9'
  }

  predicate AllDigits(s: string) {
    forall k :: 0 <= k < |s| ==> IsDigit(s[k])
  }

  function DigitValue(c: char): nat
    requires IsDigit(c)
  {
    c as int - '0' as int
  }

  function DigitChar(d: nat): (c: char)
    requires d < 10
    ensures IsDigit(c) && DigitValue(c) == d
  {
    ('0' as int + d) as char
  }

  function Pow10(k: nat): (p: nat)
    ensures p > 0
  {
    if k == 0 then 1 else 10 * Pow10(k - 1)
  }

  /** The value of a digit string read most significant digit first. */
  function DigitsValue(s: string): nat
    requires AllDigits(s)
  {
    if s == [] then 0 else 10 * DigitsValue(s[..|s| - 1]) + DigitValue(s[|s| - 1])
  }

  /** The shortest decimal notation of a natural number: no leading zero. */
  function NatDigits(n: nat): (r: string)
    ensures |r| > 0 && AllDigits(r) && DigitsValue(r) == n
    ensures r[0] == '0' ==> n == 0
  {
    if n < 10 then [DigitChar(n)]
    else
      var r := NatDigits(n / 10) + [DigitChar(n % 10)];
      assert r[..|r| - 1] == NatDigits(n / 10);
      r
  }

  /** The longest prefix of `t` made of digits. */
  function DigitPrefix(t: string): (r: string)
    ensures AllDigits(r) && r <= t
    ensures |r| == |t| || !IsDigit(t[|r|])
  {
    if t == [] || !IsDigit(t[0]) then [] else [t[0]] + DigitPrefix(t[1..])
  }

  lemma {:induction false} DigitPrefixOf(d: string, rest: string)
    requires AllDigits(d)
    requires rest == [] || !IsDigit(rest[0])
    ensures DigitPrefix(d + rest) == d
  {
    if d == [] {
      assert d + rest == rest;
    } else {
      assert (d + rest)[1..] == d[1..] + rest;
      DigitPrefixOf(d[1..], rest);
    }
  }

  // Printing.

  /** How many fractional digits the printer keeps. JavaScript prints the shortest decimal
      that reads back as the same double; an exact real is printed exactly when it has at
      most this many fractional digits, and truncated otherwise. */
  const FractionDigits: nat := 20

  /** `x` has at most `d` digits after the decimal point. */
  predicate Fits(x: real, d: nat) {
    var p := x * Pow10(d) as real;
    p.Floor as real == p
  }

  /** The magnitudes JavaScript writes in plain decimal notation: 0, and from 10^-6 up to but
      excluding 10^21. Outside this range it writes exponent notation such as `1e+24`, which
      the calculator's pattern does not accept. */
  predicate PlainRange(x: real) {
    x == 0.0 || (0.000001 <= Abs(x) && Abs(x) < 1000000000000000000000.0)
  }

  /** The numbers the printer writes exactly, in the notation JavaScript also uses for them. */
  predicate Printable(x: real) {
    Fits(x, FractionDigits) && PlainRange(x)
  }

  /** The number of units of 10^-d in `y`, rounded down. */
  function Truncated(y: real, d: nat): nat
    requires y >= 0.0
  {
    var p := y * Pow10(d) as real;
    assert p >= 0.0;
    p.Floor
  }

  /** Removes trailing zero fractional digits from `n` units of 10^-k. */
  function Strip(n: nat, k: nat): (r: (nat, nat))
    ensures r.1 <= k
    ensures r.1 == 0 || r.0 % 10 != 0
  {
    if k > 0 && n % 10 == 0 then Strip(n / 10, k - 1) else (n, k)
  }

  /** The integer digits and the `k` fractional digits of `n / 10^k`: the fractional part
      is the last `k` digits of `n`, with leading zeros. */
  function DecimalDigits(n: nat, k: nat): (parts: (string, string))
    ensures |parts.0| > 0 && AllDigits(parts.0) && AllDigits(parts.1) && |parts.1| == k
  {
    if k == 0 then (NatDigits(n), [])
    else
      var parts := DecimalDigits(n / 10, k - 1);
      (parts.0, parts.1 + [DigitChar(n % 10)])
  }

  /** The integer and fractional digits written for `y >= 0` with at most `d` places. */
  function MagnitudeDigits(y: real, d: nat): (parts: (string, string))
    requires y >= 0.0
  {
    var r := Strip(Truncated(y, d), d);
    DecimalDigits(r.0, r.1)
  }

  function MagnitudeText(y: real, d: nat): string
    requires y >= 0.0
  {
    var (a, b) := MagnitudeDigits(y, d);
    if b == [] then a else a + "." + b
  }

  /** Plain decimal notation of `x` with at most `d` places: an optional `-`, the integer
      digits, and a `.` with the fractional digits when there are any. */
  function DecimalText(x: real, d: nat): string {
    (if x < 0.0 && Truncated(-x, d) > 0 then "-" else "") + MagnitudeText(Abs(x), d)
  }

  /** The calculator's `Number.prototype.toString`. */
  function NumberText(x: real): string {
    DecimalText(x, FractionDigits)
  }

  // Reading (parseFloat on the shapes the calculator gives it).

  /** `m * 10^-k`, computed one decimal place at a time. */
  function Shift(m: real, k: nat): real {
    if k == 0 then m else Shift(m, k - 1) / 10.0
  }

  /** Reads digits, an optional `.` and more digits from the front of `u`; NaN when there is
      no digit at all. What follows the numeral is ignored, as parseFloat ignores it. */
  function ReadMagnitude(u: string): Number {
    var d1 := DigitPrefix(u);
    var rest := u[|d1|..];
    var d2 := if rest != [] && rest[0] == '.' then DigitPrefix(rest[1..]) else [];
    if d1 == [] && d2 == [] then NaN
    else Fin(DigitsValue(d1) as real + Shift(DigitsValue(d2) as real, |d2|))
  }

  /** parseFloat: an optional sign, then an unsigned decimal numeral. */
  function ParseFloat(t: string): Number {
    if t != [] && t[0] == '-' then Negate(ReadMagnitude(t[1..]))
    else if t != [] && t[0] == '+' then ReadMagnitude(t[1..])
    else ReadMagnitude(t)
  }

  // Arithmetic steps, stated over plain variables so that each is proved in a small context.

  lemma Cancel(x: real, z: real, p: real, n: real)
    requires p > 0.0 && x * p == n && z * p == n
    ensures x == z
  {
    assert (x - z) * p == 0.0;
  }

  lemma {:induction false} ShiftLinear(a: real, b: real, k: nat)
    ensures Shift(a + b, k) == Shift(a, k) + Shift(b, k)
  {
    if k > 0 {
      ShiftLinear(a, b, k - 1);
    }
  }

  lemma {:induction false} ShiftTen(m: real, k: nat)
    ensures Shift(10.0 * m, k + 1) == Shift(m, k)
  {
    if k > 0 {
      ShiftTen(m, k - 1);
    }
  }

  lemma {:induction false} ShiftScale(m: real, k: nat)
    ensures Shift(m, k) * Pow10(k) as real == m
  {
    if k > 0 {
      ShiftScale(m, k - 1);
      var s, p := Shift(m, k - 1), Pow10(k - 1) as real;
      assert Pow10(k) as real == 10.0 * p;
      assert (s / 10.0) * (10.0 * p) == s * p;
    }
  }

  // Properties of the reader.

  lemma ReadMagnitudeOf(u: string, a: string, b: string)
    requires |a| > 0 && AllDigits(a) && AllDigits(b) && |a| < |u| && u[|a|] == '.'
    requires DigitPrefix(u) == a && DigitPrefix(u[|a| + 1..]) == b
    ensures ReadMagnitude(u) == Fin(DigitsValue(a) as real + Shift(DigitsValue(b) as real, |b|))
  {
  }

  lemma ReadMagnitudeWhole(u: string, a: string)
    requires |a| > 0 && AllDigits(a) && DigitPrefix(u) == a && |a| == |u|
    ensures ReadMagnitude(u) == Fin(DigitsValue(a) as real)
  {
  }

  /** parseFloat of a digit string with a fractional part is its decimal value. */
  lemma ReadDecimal(a: string, b: string)
    requires |a| > 0 && AllDigits(a) && AllDigits(b) && b != []
    ensures ReadMagnitude(a + "." + b)
         == Fin(DigitsValue(a) as real + Shift(DigitsValue(b) as real, |b|))
  {
    var u := a + "." + b;
    var tail := "." + b;
    assert u == a + tail;
    DigitPrefixOf(a, tail);
    assert u[|a| + 1..] == b;
    DigitPrefixOf(b, []);
    assert b + [] == b;
    ReadMagnitudeOf(u, a, b);
  }

  /** parseFloat of a digit string is its value. */
  lemma ReadInteger(a: string)
    requires |a| > 0 && AllDigits(a)
    ensures ReadMagnitude(a) == Fin(DigitsValue(a) as real)
  {
    DigitPrefixOf(a, []);
    assert a + [] == a;
    ReadMagnitudeWhole(a, a);
  }

  /** parseFloat reads integer and fractional digits as their value. */
  lemma ReadParts(a: string, b: string)
    requires |a| > 0 && AllDigits(a) && AllDigits(b)
    ensures ReadMagnitude(if b == [] then a else a + "." + b)
         == Fin(DigitsValue(a) as real + Shift(DigitsValue(b) as real, |b|))
  {
    if b == [] {
      ReadInteger(a);
      assert DigitsValue(b) == 0 && Shift(0.0, 0) == 0.0;
    } else {
      ReadDecimal(a, b);
    }
  }

  // Properties of the printer.

  lemma TruncatedExact(y: real, d: nat)
    requires y >= 0.0 && Fits(y, d)
    ensures Truncated(y, d) as real == y * Pow10(d) as real
  {
  }

  /** The scaled value of a `y` with at most `d` places, shifted back, is `y`. */
  lemma TruncatedShift(y: real, d: nat)
    requires y >= 0.0 && Fits(y, d)
    ensures Shift(Truncated(y, d) as real, d) == y
  {
    var t := Truncated(y, d) as real;
    TruncatedExact(y, d);
    ShiftScale(t, d);
    Cancel(Shift(t, d), y, Pow10(d) as real, t);
  }

  /** Dropping trailing zeros, one place at a time, does not change the value. */
  lemma {:induction false} StripShift(n: nat, k: nat)
    ensures var r := Strip(n, k); Shift(n as real, k) == Shift(r.0 as real, r.1)
  {
    if k > 0 && n % 10 == 0 {
      var m := n / 10;
      assert n as real == 10.0 * m as real;
      ShiftTen(m as real, k - 1);
      StripShift(m, k - 1);
    }
  }

  /** The integer digits and the fractional digits of `n / 10^k`, read back, are worth
      `n / 10^k`. */
  lemma {:induction false} DigitsShift(n: nat, k: nat)
    ensures var parts := DecimalDigits(n, k);
      DigitsValue(parts.0) as real + Shift(DigitsValue(parts.1) as real, k) == Shift(n as real, k)
  {
    if k > 0 {
      var parts := DecimalDigits(n / 10, k - 1);
      var b := parts.1 + [DigitChar(n % 10)];
      assert b[..|b| - 1] == parts.1;
      var v, c := DigitsValue(parts.1) as real, (n % 10) as real;
      assert DigitsValue(b) as real == 10.0 * v + c;
      assert n as real == 10.0 * (n / 10) as real + c;
      ShiftLinear(10.0 * v, c, k);
      ShiftTen(v, k - 1);
      ShiftLinear(10.0 * (n / 10) as real, c, k);
      ShiftTen((n / 10) as real, k - 1);
      DigitsShift(n / 10, k - 1);
    }
  }

  /** The digits the printer writes for a `y` with at most `d` places are worth `y`. */
  lemma MagnitudeValue(y: real, d: nat)
    requires y >= 0.0 && Fits(y, d)
    ensures var parts := MagnitudeDigits(y, d);
      DigitsValue(parts.0) as real + Shift(DigitsValue(parts.1) as real, |parts.1|) == y
  {
    var t := Truncated(y, d);
    var r := Strip(t, d);
    TruncatedShift(y, d);
    StripShift(t, d);
    DigitsShift(r.0, r.1);
  }

  lemma MagnitudeRoundTrip(y: real, d: nat)
    requires y >= 0.0 && Fits(y, d)
    ensures ReadMagnitude(MagnitudeText(y, d)) == Fin(y)
  {
    var parts := MagnitudeDigits(y, d);
    MagnitudeValue(y, d);
    ReadParts(parts.0, parts.1);
  }

  lemma FitsNegate(x: real, d: nat)
    requires Fits(x, d)
    ensures Fits(-x, d)
  {
    var p := x * Pow10(d) as real;
    var m := p.Floor;
    assert p == m as real;
    assert -x * Pow10(d) as real == (-m) as real;
    assert ((-m) as real).Floor == -m;
  }

  lemma PositiveTruncated(y: real, d: nat)
    requires y > 0.0 && Fits(y, d)
    ensures Truncated(y, d) > 0
  {
    var p := y * Pow10(d) as real;
    assert p > 0.0;
  }

  /** The printed text starts with a digit, or with the `-` of a negative number. */
  lemma DecimalTextShape(x: real, d: nat)
    ensures var t := DecimalText(x, d);
      |t| > 0 && (IsDigit(t[0]) || (t[0] == '-' && x < 0.0 && t[1..] == MagnitudeText(-x, d)))
  {
    var parts := MagnitudeDigits(Abs(x), d);
    var m := MagnitudeText(Abs(x), d);
    assert m[0] == parts.0[0];
    if x < 0.0 && Truncated(-x, d) > 0 {
      assert DecimalText(x, d) == "-" + m;
      assert ("-" + m)[1..] == m;
    } else {
      assert DecimalText(x, d) == m;
    }
  }

  lemma DecimalRoundTrip(x: real, d: nat)
    requires Fits(x, d)
    ensures ParseFloat(DecimalText(x, d)) == Fin(x)
  {
    DecimalTextShape(x, d);
    var t := DecimalText(x, d);
    if x < 0.0 {
      FitsNegate(x, d);
      PositiveTruncated(-x, d);
      assert t[0] == '-';
      MagnitudeRoundTrip(-x, d);
    } else {
      assert t == MagnitudeText(x, d);
      MagnitudeRoundTrip(x, d);
    }
  }

  /** Round trip: parseFloat reads a printable number's text back exactly. */
  lemma NumberRoundTrip(x: real)
    requires Printable(x)
    ensures ParseFloat(NumberText(x)) == Fin(x)
  {
    DecimalRoundTrip(x, FractionDigits);
  }

  /** A sign followed by the printed magnitude reads back as the signed value. */
  lemma SignedRoundTrip(sign: char, y: real)
    requires sign == '+' || sign == '-'
    requires y > 0.0 && Printable(y)
    ensures ParseFloat([sign] + NumberText(y)) == Fin(if sign == '-' then -y else y)
  {
    var m := MagnitudeText(y, FractionDigits);
    assert NumberText(y) == m;
    assert ([sign] + m)[1..] == m;
    MagnitudeRoundTrip(y, FractionDigits);
  }

  /** Every character the printer writes is a digit, a `.`, or a leading `-`. */
  lemma NumberTextChars(x: real)
    ensures var t := NumberText(x);
      forall k :: 0 <= k < |t| ==> IsDigit(t[k]) || t[k] == '.' || (k == 0 && t[k] == '-')
  {
    var parts := MagnitudeDigits(Abs(x), FractionDigits);
    var m := MagnitudeText(Abs(x), FractionDigits);
    assert forall k :: 0 <= k < |m| ==> IsDigit(m[k]) || m[k] == '.';
  }

  /** A printed number starts with a digit, or with the `-` of a negative number. */
  lemma NumberTextShape(x: real)
    ensures var t := NumberText(x);
      |t| > 0 && (IsDigit(t[0]) || (t[0] == '-' && x < 0.0))
  {
    DecimalTextShape(x, FractionDigits);
  }

  /** Shifting `m` left by `k` places adds `k` trailing zeros, which `Strip` removes again. */
  lemma {:induction false} StripShifted(m: nat, k: nat, j: nat)
    ensures Strip(m * Pow10(k), k + j) == Strip(m, j)
  {
    if k > 0 {
      var q := m * Pow10(k - 1);
      assert m * Pow10(k) == 10 * q;
      assert (10 * q) % 10 == 0 && (10 * q) / 10 == q;
      StripShifted(m, k - 1, j);
    }
  }

  /** A whole number prints as its decimal digits, with neither a point nor a leading zero. */
  lemma WholeText(n: nat)
    ensures NumberText(n as real) == NatDigits(n)
  {
    var p := Pow10(FractionDigits);
    assert (n as real) * (p as real) == (n * p) as real;
    assert Truncated(n as real, FractionDigits) == n * p;
    StripShifted(n, FractionDigits, 0);
  }

  lemma TenthsUnits(n: nat, d: nat, k: nat)
    requires k > 0
    ensures Truncated(n as real + d as real / 10.0, k) == (10 * n + d) * Pow10(k - 1)
  {
    var x := n as real + d as real / 10.0;
    var p := Pow10(k - 1);
    var m := 10 * n + d;
    assert Pow10(k) == 10 * p;
    assert x * 10.0 == m as real;
    assert x * (10 * p) as real == (x * 10.0) * (p as real);
    assert (m as real) * (p as real) == (m * p) as real;
  }

  lemma TenthsDigits(n: nat, d: nat, k: nat)
    requires 0 < d < 10 && k > 0
    ensures var m := 10 * n + d;
      Strip(m * Pow10(k - 1), k) == (m, 1) && DecimalDigits(m, 1) == (NatDigits(n), [DigitChar(d)])
  {
    var m := 10 * n + d;
    StripShifted(m, k - 1, 1);
    assert m % 10 == d && m / 10 == n;
    assert DecimalDigits(n, 0) == (NatDigits(n), []);
    assert DecimalDigits(m, 1) == (NatDigits(n), [] + [DigitChar(d)]);
    assert [] + [DigitChar(d)] == [DigitChar(d)];
  }

  /** A number with one nonzero decimal place prints as its whole digits, `.` and that digit. */
  lemma TenthsText(n: nat, d: nat)
    requires 0 < d < 10
    ensures NumberText(n as real + d as real / 10.0) == NatDigits(n) + "." + [DigitChar(d)]
  {
    var x := n as real + d as real / 10.0;
    var m := 10 * n + d;
    TenthsUnits(n, d, FractionDigits);
    TenthsDigits(n, d, FractionDigits);
    assert MagnitudeDigits(x, FractionDigits) == (NatDigits(n), [DigitChar(d)]);
    assert NumberText(x) == MagnitudeText(x, FractionDigits);
  }
}
