/** The calculator behind the buttons (main.js:102-233): `calculate`, and the click handler
    as a state machine over the five variables it keeps between clicks. The page itself is
    not modelled; each action reports the text it would put on the display instead. */
module Keypad {
  import opened Wrappers
  import opened Numerals
  import opened ComplexNumbers
  import opened Parsing

  // `calculate` (main.js:116-143).

  /** The operators `calculate` knows. */
  predicate IsArithmetic(op: Option<string>) {
    op == Some("+") || op == Some("-") || op == Some("*") || op == Some("/")
  }

  /** Applies the pending operator. A NaN part in either operand, a division by 0 (the
      caught exception) and an operator it does not know, `null` included, all give NaN in
      both parts. The `=` case, which returns `true` rather than a value, is excluded. */
  function Calculate(a: Complex, op: Option<string>, b: Complex): Complex
    requires op != Some("=")
  {
    if a.re.NaN? || a.im.NaN? || b.re.NaN? || b.im.NaN? then Invalid
    else if op == Some("+") then Add(a, b)
    else if op == Some("-") then Subtract(a, b)
    else if op == Some("*") then Multiply(a, b)
    else if op == Some("/") then
      match Divide(a, b)
      case Ok(q) => q
      case DivisionByZero => Invalid
    else Invalid
  }

  /** A NaN operand makes the result NaN, whatever the operator. */
  lemma CalculateInvalidOperand(a: Complex, op: Option<string>, b: Complex)
    requires op != Some("=")
    requires !IsFinite(a) || !IsFinite(b)
    ensures Calculate(a, op, b) == Invalid
  {
  }

  /** An operator `calculate` does not know, or none at all, makes the result NaN. */
  lemma CalculateUnknownOperator(a: Complex, op: Option<string>, b: Complex)
    requires op != Some("=") && !IsArithmetic(op)
    ensures Calculate(a, op, b) == Invalid
  {
  }

  /** Dividing by 0 is caught and gives NaN; any other finite divisor gives the quotient. */
  lemma CalculateDivision(a: Complex, b: Complex)
    requires IsFinite(a) && IsFinite(b)
    ensures b == Zero ==> Calculate(a, Some("/"), b) == Invalid
    ensures b != Zero ==> Divide(a, b).Ok? && Calculate(a, Some("/"), b) == Divide(a, b).value
  {
    DivisionByZeroIff(a, b);
  }

  /** The quotient of finite values by a nonzero divisor is finite. */
  lemma QuotientFinite(a: Complex, b: Complex)
    requires IsFinite(a) && IsFinite(b) && b != Zero
    ensures Divide(a, b).Ok? && IsFinite(Divide(a, b).value)
  {
    var c, d := b.re.value, b.im.value;
    SquaresNonZero(c, d);
    NonZeroNotZero(c * c + d * d);
    assert Plus(Times(b.re, b.re), Times(b.im, b.im)) == Fin(c * c + d * d);
  }

  /** The result is a number exactly when both operands are, the operator is one of the
      four, and it is not a division by 0. */
  lemma CalculateFiniteIff(a: Complex, op: Option<string>, b: Complex)
    requires op != Some("=")
    ensures IsFinite(Calculate(a, op, b))
        <==> IsFinite(a) && IsFinite(b) && IsArithmetic(op) && !(op == Some("/") && b == Zero)
  {
    if IsFinite(a) && IsFinite(b) && op == Some("/") {
      CalculateDivision(a, b);
      if b != Zero {
        QuotientFinite(a, b);
      }
    }
  }

  /** Subtracting after adding, or dividing after multiplying, gives back the first operand. */
  lemma CalculateUndo(a: Complex, b: Complex)
    requires IsFinite(a) && IsFinite(b)
    ensures Calculate(Calculate(a, Some("+"), b), Some("-"), b) == a
    ensures b != Zero ==> Calculate(Calculate(a, Some("*"), b), Some("/"), b) == a
  {
    AddSubtractInverse(a, b);
    if b != Zero {
      var m := Multiply(a, b);
      MultiplyFinite(a.re.value, a.im.value, b.re.value, b.im.value);
      assert IsFinite(m);
      CalculateDivision(m, b);
      MultiplyDivideInverse(a, b);
    }
  }

  // The click handler (main.js:145-233).

  /** The variables the handler keeps between clicks (main.js:102-106): the text typed so
      far, the first operand, the pending operator, whether the next key starts the second
      operand, and whether the last click was `=`. `None` stands for `null`. */
  datatype State = State(input: string, first: Option<Complex>, op: Option<string>,
                         waiting: bool, afterEquals: bool)

  /** The state a click leaves behind, and the display text it writes, if it writes one. */
  datatype Outcome = Outcome(state: State, shown: Option<string>)

  /** The four kinds of button: `data-action` clear, operator or equals, or a key that
      types its `data-value`. */
  datatype Press = ClearButton | OperatorButton(value: string) | EqualsButton | KeyButton(value: string)

  const Initial: State := State("", None, None, false, false)

  /** `updateDisplay`: the input, or 0 when there is none. */
  function DisplayText(input: string): string {
    if input == "" then "0" else input
  }

  function ClearStep(s: State): Outcome {
    Outcome(Initial, Some(DisplayText(Initial.input)))
  }

  /** An operator button: ignored when nothing has been typed yet; otherwise the typed
      value becomes the first operand, or, while the second operand is being typed, the
      pending calculation is carried out and its result becomes the first operand. */
  function OperatorStep(s: State, value: string): Outcome
    requires s.op != Some("=")
  {
    if s.input == "" && s.first.None? then Outcome(s, None)
    else
      var next := s.(op := Some(value), waiting := true, afterEquals := false);
      if s.first.None? then Outcome(next.(first := Some(ParseComplexString(s.input))), None)
      else if !s.waiting then
        var r := Calculate(s.first.value, s.op, ParseComplexString(s.input));
        Outcome(next.(first := Some(r)), Some(ToString(r)))
      else Outcome(next, None)
  }

  /** The equals button: ignored without a first operand, an operator and typed input;
      otherwise the result is shown and becomes both the input and the first operand. */
  function EqualsStep(s: State): Outcome
    requires s.op != Some("=")
  {
    if s.first.None? || s.op.None? || s.input == "" then Outcome(s, None)
    else
      var r := Calculate(s.first.value, s.op, ParseComplexString(s.input));
      Outcome(State(ToString(r), Some(r), None, false, true), Some(ToString(r)))
  }

  /** What a key press does before it types: the input is cleared when an operator or `=`
      was the last button, and `=` also forgets the operand and the operator. */
  function EntryStart(s: State): State {
    var s1 := if s.waiting then s.(input := "", waiting := false) else s;
    if s1.afterEquals then s1.(input := "", first := None, op := None, afterEquals := false)
    else s1
  }

  /** The text after the last `+` or `-`: the last piece of `split(/[\+\-]/)`. */
  function LastSegment(t: string): (r: string)
    ensures |r| <= |t| && r == t[|t| - |r|..]
    ensures '+' !in r && '-' !in r
    ensures |r| < |t| ==> t[|t| - |r| - 1] == '+' || t[|t| - |r| - 1] == '-'
  {
    if t == [] then []
    else if t[|t| - 1] == '+' || t[|t| - 1] == '-' then []
    else LastSegment(t[..|t| - 1]) + [t[|t| - 1]]
  }

  function Typed(e: State, value: string): Outcome {
    var t := e.input + value;
    Outcome(e.(input := t), Some(DisplayText(t)))
  }

  /** A key: `i` is ignored when the input already has one, `.` when the last signed part
      already has one; anything else is typed. */
  function KeyStep(s: State, value: string): Outcome {
    var e := EntryStart(s);
    if value == "i" then
      if 'i' in e.input then Outcome(e, None) else Typed(e, value)
    else if value == "." then
      if '.' in e.input && '.' in LastSegment(e.input) then Outcome(e, None) else Typed(e, value)
    else Typed(e, value)
  }

  /** The click handler, on the action of the button clicked. */
  function Step(s: State, p: Press): Outcome
    requires s.op != Some("=")
  {
    match p
    case ClearButton => ClearStep(s)
    case OperatorButton(v) => OperatorStep(s, v)
    case EqualsButton => EqualsStep(s)
    case KeyButton(v) => KeyStep(s, v)
  }

  /** How the five variables hang together between clicks: an operator is pending only
      with a first operand; the second operand is awaited only with a pending operator;
      right after `=` there is no pending operator and the input is the result's text. */
  predicate Consistent(s: State) {
    && s.op != Some("=")
    && (s.op.Some? ==> s.first.Some?)
    && (s.waiting ==> s.op.Some?)
    && (s.afterEquals ==> s.first.Some? && s.op.None? && !s.waiting
                          && s.input == ToString(s.first.value))
  }

  lemma InitialConsistent()
    ensures Consistent(Initial)
  {
  }

  /** Every click keeps the variables consistent, as long as no operator button sends `=`. */
  lemma StepConsistent(s: State, p: Press)
    requires Consistent(s) && p != OperatorButton("=")
    ensures Consistent(Step(s, p).state)
  {
  }

  /** Clear forgets everything: the state afterwards does not depend on the state before. */
  lemma ClearForgets(s: State, t: State)
    ensures ClearStep(s) == ClearStep(t) && ClearStep(s).state == Initial
    ensures ClearStep(s).shown == Some("0")
  {
  }

  /** An operator right after `=` finds `operator` already `null`, so `calculate` takes its
      default branch: the first operand becomes NaN and the display shows "Error". */
  lemma OperatorAfterEquals(s: State, value: string)
    requires Consistent(s) && s.afterEquals
    ensures OperatorStep(s, value).state.first == Some(Invalid)
    ensures OperatorStep(s, value).shown == Some("Error")
  {
    CalculateUnknownOperator(s.first.value, s.op, ParseComplexString(s.input));
    assert ToString(Invalid) == "Error";
  }

  /** A key right after an operator or `=` starts the input afresh, and right after `=` also
      forgets the result and the operator. */
  lemma KeyStartsEntry(s: State, value: string)
    requires Consistent(s) && (s.waiting || s.afterEquals)
    ensures KeyStep(s, value).state.input == value
    ensures s.afterEquals ==> KeyStep(s, value).state.first.None? && KeyStep(s, value).state.op.None?
  {
    assert EntryStart(s).input == "";
    assert "" + value == value;
  }

  /** Input with at most one `i`, as the `i` key keeps it. */
  predicate AtMostOneUnit(s: State) {
    multiset(s.input)['i'] <= 1
  }

  /** The `i` key is ignored, leaving the state and the display alone, exactly when the input
      already has an `i`; otherwise it appends one. Either way the input then has exactly one. */
  lemma UnitKey(s: State)
    requires AtMostOneUnit(s)
    ensures KeyStep(s, "i").shown.None? <==> 'i' in EntryStart(s).input
    ensures 'i' in EntryStart(s).input ==> KeyStep(s, "i").state == EntryStart(s)
    ensures 'i' !in EntryStart(s).input ==> KeyStep(s, "i").state.input == EntryStart(s).input + "i"
    ensures multiset(KeyStep(s, "i").state.input)['i'] == 1
  {
    var e := EntryStart(s);
    assert multiset(e.input)['i'] <= 1;
    if 'i' in e.input {
      assert multiset(e.input)['i'] >= 1;
    } else {
      assert multiset(e.input + "i") == multiset(e.input) + multiset("i");
    }
  }

  /** The input `=` leaves is the text of its result, which has at most one `i`. */
  lemma EqualsUnits(s: State)
    requires s.op != Some("=")
    ensures AtMostOneUnit(EqualsStep(s).state) || EqualsStep(s).state == s
  {
    if s.first.Some? && s.op.Some? && s.input != "" {
      var r := Calculate(s.first.value, s.op, ParseComplexString(s.input));
      ResultUnits(r);
    }
  }

  lemma ResultUnits(r: Complex)
    ensures multiset(ToString(r))['i'] <= 1
  {
    if IsFinite(r) {
      ToStringImaginaryUnit(r);
    } else {
      assert ToString(r) == "Error";
      NoUnitCount("Error");
    }
  }

  /** A key other than `i` that does not itself hold an `i` adds none. */
  lemma KeyUnits(s: State, v: string)
    requires AtMostOneUnit(s) && v != "i" && 'i' !in v
    ensures AtMostOneUnit(KeyStep(s, v).state)
  {
    var e := EntryStart(s);
    assert multiset(e.input)['i'] <= 1;
    NoUnitCount(v);
    assert multiset(e.input + v) == multiset(e.input) + multiset(v);
  }

  /** Keys other than `i` that do not themselves hold an `i`, and every other button, keep
      the input to at most one `i`. */
  lemma StepUnits(s: State, p: Press)
    requires Consistent(s) && AtMostOneUnit(s)
    requires p.KeyButton? ==> p.value == "i" || 'i' !in p.value
    ensures AtMostOneUnit(Step(s, p).state)
  {
    match p
    case ClearButton =>
    case OperatorButton(v) =>
    case EqualsButton => EqualsUnits(s);
    case KeyButton(v) =>
      if v == "i" {
        UnitKey(s);
      } else {
        KeyUnits(s, v);
      }
  }

  lemma LastSegmentDot(t: string)
    ensures LastSegment(t + ".") == LastSegment(t) + "."
  {
    assert (t + ".")[..|t|] == t;
  }

  /** The `.` key is ignored, leaving the state and the display alone, exactly when the last
      signed part of the input already has a `.`; otherwise it appends one. Either way that
      part then has a `.`. */
  lemma DotKey(s: State)
    ensures KeyStep(s, ".").shown.None? <==> '.' in LastSegment(EntryStart(s).input)
    ensures KeyStep(s, ".").shown.None? ==> KeyStep(s, ".").state == EntryStart(s)
    ensures KeyStep(s, ".").shown.Some? ==> KeyStep(s, ".").state.input == EntryStart(s).input + "."
    ensures '.' in LastSegment(KeyStep(s, ".").state.input)
  {
    var e := EntryStart(s);
    var r := LastSegment(e.input);
    if '.' in r {
      var k :| 0 <= k < |r| && r[k] == '.';
      assert e.input[|e.input| - |r| + k] == '.';
    } else {
      LastSegmentDot(e.input);
      assert (r + ".")[|r|] == '.';
    }
  }

  /** The text `=` leaves as input reads back as the result whenever the result's parts
      print exactly. */
  lemma EqualsReadsBack(s: State)
    requires Consistent(s) && s.first.Some? && s.op.Some? && s.input != ""
    requires var r := EqualsStep(s).state.first.value;
      IsFinite(r) && Printable(r.re.value) && Printable(r.im.value)
    ensures ParseComplexString(EqualsStep(s).state.input) == EqualsStep(s).state.first.value
  {
    ToStringRoundTrip(EqualsStep(s).state.first.value);
  }

  /** The handler as an object whose fields are the five variables. */
  class Calculator {
    var input: string
    var first: Option<Complex>
    var op: Option<string>
    var waiting: bool
    var afterEquals: bool

    function Current(): State
      reads this
    {
      State(input, first, op, waiting, afterEquals)
    }

    predicate Valid()
      reads this
    {
      Consistent(Current())
    }

    constructor()
      ensures Current() == Initial && Valid()
    {
      input := "";
      first := None;
      op := None;
      waiting := false;
      afterEquals := false;
    }

    method Clear() returns (shown: Option<string>)
      modifies this
      ensures Current() == ClearStep(old(Current())).state && Valid()
      ensures shown == ClearStep(old(Current())).shown
    {
      input := "";
      first := None;
      op := None;
      waiting := false;
      afterEquals := false;
      shown := Some(DisplayText(input));
    }

    method PressOperator(value: string) returns (shown: Option<string>)
      requires Valid() && value != "="
      modifies this
      ensures Current() == OperatorStep(old(Current()), value).state && Valid()
      ensures shown == OperatorStep(old(Current()), value).shown
    {
      shown := None;
      if input == "" && first == None {
        return;
      }
      if first == None {
        first := Some(ParseComplexString(input));
      } else if !waiting {
        var second := ParseComplexString(input);
        var result := Calculate(first.value, op, second);
        first := Some(result);
        shown := Some(ToString(result));
      }
      op := Some(value);
      waiting := true;
      afterEquals := false;
    }

    method PressEquals() returns (shown: Option<string>)
      requires Valid()
      modifies this
      ensures Current() == EqualsStep(old(Current())).state && Valid()
      ensures shown == EqualsStep(old(Current())).shown
    {
      shown := None;
      if first == None || op == None || input == "" {
        return;
      }
      var second := ParseComplexString(input);
      var result := Calculate(first.value, op, second);
      shown := Some(ToString(result));
      input := ToString(result);
      first := Some(result);
      op := None;
      waiting := false;
      afterEquals := true;
    }

    method PressKey(value: string) returns (shown: Option<string>)
      requires Valid()
      modifies this
      ensures Current() == KeyStep(old(Current()), value).state && Valid()
      ensures shown == KeyStep(old(Current()), value).shown
    {
      shown := None;
      if waiting {
        input := "";
        waiting := false;
      }
      if afterEquals {
        input := "";
        first := None;
        op := None;
        afterEquals := false;
      }
      if value == "i" {
        if 'i' in input {
          return;
        }
        input := input + "i";
      } else if value == "." {
        if '.' in input {
          var lastPart := LastSegment(input);
          if '.' in lastPart {
            return;
          }
        }
        input := input + value;
      } else {
        input := input + value;
      }
      shown := Some(DisplayText(input));
    }

    /** A click on a button. */
    method Click(p: Press) returns (shown: Option<string>)
      requires Valid() && p != OperatorButton("=")
      modifies this
      ensures Current() == Step(old(Current()), p).state && Valid()
      ensures shown == Step(old(Current()), p).shown
    {
      match p
      case ClearButton => shown := Clear();
      case OperatorButton(v) => shown := PressOperator(v);
      case EqualsButton => shown := PressEquals();
      case KeyButton(v) => shown := PressKey(v);
    }
  }
}
