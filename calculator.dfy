/**
 * The calculator's input editor. A `Calculator` holds the text typed so far
 * (`expression`), the text of the last result (`lastResult`) and whether the
 * next number starts a new calculation (`isNewCalculation`). Button presses and
 * keys arrive as `handleInput(value)`: `=` calculates, `AC` clears, and any
 * other value is appended when `isValidInput` allows it. Evaluating the
 * arithmetic itself is outside the model: `eval` stands for evaluating the
 * sanitised text and formatting the number, and answers `None` when that throws.
 */
module Calculator {
  import opened JsNumber

  datatype Option<T> = None | Some(value: T)

  /** The characters of the regular expression `/[+\-*\/%]/`. */
  predicate IsOperator(c: char)
  {
    c == '+' || c == '-' || c == '*' || c == '/' || c == '%'
  }

  /** `operators.test(s)`: some character of `s` is an operator. */
  predicate HasOperator(s: string)
  {
    exists i :: 0 <= i < |s| && IsOperator(s[i])
  }

  /**
   * `getCurrentNumber()`: the last piece of `expression.split(operators)`,
   * that is, the text after the last operator (all of it when there is none).
   */
  function CurrentNumber(e: string): (r: string)
    ensures |r| <= |e| && r == e[|e| - |r|..]
    ensures forall i :: 0 <= i < |r| ==> !IsOperator(r[i])
    ensures |r| < |e| ==> IsOperator(e[|e| - |r| - 1])
  {
    if e == [] || IsOperator(e[|e| - 1]) then []
    else CurrentNumber(e[..|e| - 1]) + [e[|e| - 1]]
  }

  /**
   * `isValidInput(value)`: a value holding an operator may not follow an
   * operator, a `.` may not enter a number that has one, and a `0` may not
   * follow a number that is just `0`.
   */
  predicate IsValidInput(expression: string, value: string)
  {
    !(HasOperator(value) && expression != [] && IsOperator(expression[|expression| - 1]))
    && !(value == "." && '.' in CurrentNumber(expression))
    && !(value == "0" && CurrentNumber(expression) == "0")
  }

  /** The characters of `/^[\d+\-*\/(). %]*$/`. */
  predicate IsAllowedChar(c: char)
  {
    IsDecimalDigit(c) || IsOperator(c) || c == '(' || c == ')' || c == '.' || c == ' '
  }

  /** The parenthesis counter after reading `e`: opened minus closed. */
  function Depth(e: string): int
  {
    if e == [] then 0
    else Depth(e[..|e| - 1]) + (if e[|e| - 1] == '(' then 1 else if e[|e| - 1] == ')' then -1 else 0)
  }

  /** The counter never drops below zero and ends at zero. */
  predicate Balanced(e: string)
  {
    (forall i :: 0 <= i <= |e| ==> Depth(e[..i]) >= 0) && Depth(e) == 0
  }

  /** Why `validateExpression` throws. */
  datatype CalcError = InvalidCharacters | UnmatchedParentheses

  /** What `validateExpression` throws, if anything. */
  function Validation(e: string): Option<CalcError>
  {
    if exists i :: 0 <= i < |e| && !IsAllowedChar(e[i]) then Some(InvalidCharacters)
    else if !Balanced(e) then Some(UnmatchedParentheses)
    else None
  }

  /** `expression.replace(/%/g, "/100")`. */
  function Sanitize(e: string): string
  {
    if e == [] then []
    else (if e[0] == '%' then "/100" else [e[0]]) + Sanitize(e[1..])
  }

  /** The three fields of a calculator. */
  datatype State = State(expression: string, lastResult: string, isNewCalculation: bool)

  /** The state after the constructor and after `clear()`. */
  const Initial := State("", "", true)

  /** `handleError`: show `Error` and start afresh with the next number. */
  function Failed(s: State): State
  {
    s.(expression := "Error", isNewCalculation := true)
  }

  /** `calculate()`, with `eval` in place of `evaluateExpression` and `formatResult`. */
  function Calculated(s: State, eval: string -> Option<string>): State
  {
    if s.expression == [] then s
    else if Validation(s.expression).Some? then Failed(s)
    else
      match eval(Sanitize(s.expression))
      case None => Failed(s)
      case Some(text) => State(text, text, true)
  }

  /** The first step of `handleInput`: a number after a result starts an empty expression. */
  function Reset(s: State, value: string): State
  {
    if s.isNewCalculation && IsNumeric(value) then s.(expression := [], isNewCalculation := false) else s
  }

  /** `handleInput(value)` without the display refresh. */
  function Step(s: State, value: string, eval: string -> Option<string>): State
  {
    var s' := Reset(s, value);
    if value == "=" then Calculated(s', eval)
    else if value == "AC" then Initial
    else if IsValidInput(s'.expression, value) then s'.(expression := s'.expression + value)
    else s'
  }

  class Calculator {
    var expression: string
    var lastResult: string
    var isNewCalculation: bool

    /** The fields as a value. */
    function Snapshot(): State
      reads this
    {
      State(expression, lastResult, isNewCalculation)
    }

    constructor()
      ensures Snapshot() == Initial
    {
      expression := "";
      lastResult := "";
      isNewCalculation := true;
    }

    method HandleInput(value: string, eval: string -> Option<string>)
      modifies this
      ensures Snapshot() == Step(old(Snapshot()), value, eval)
    {
      if isNewCalculation && IsNumeric(value) {
        expression := "";
        isNewCalculation := false;
      }
      if value == "=" {
        Calculate(eval);
      } else if value == "AC" {
        Clear();
      } else if IsValidInput(expression, value) {
        AppendValue(value);
      }
    }

    method AppendValue(value: string)
      modifies this
      ensures expression == old(expression) + value
      ensures lastResult == old(lastResult) && isNewCalculation == old(isNewCalculation)
    {
      expression := expression + value;
    }

    /** `expression.slice(0, -1)`: one character fewer, and `""` stays `""`. */
    method DeleteLastChar()
      modifies this
      ensures old(expression) == [] ==> expression == []
      ensures old(expression) != [] ==> expression == old(expression)[..|old(expression)| - 1]
      ensures lastResult == old(lastResult) && isNewCalculation == old(isNewCalculation)
    {
      if expression != [] {
        expression := expression[..|expression| - 1];
      }
    }

    method Clear()
      modifies this
      ensures Snapshot() == Initial
    {
      expression := "";
      lastResult := "";
      isNewCalculation := true;
    }

    method Calculate(eval: string -> Option<string>)
      modifies this
      ensures Snapshot() == Calculated(old(Snapshot()), eval)
    {
      if expression == "" {
        return;
      }
      var error := ValidateExpression();
      if error.Some? {
        HandleError();
        return;
      }
      var sanitizedExpression := Sanitize(expression);
      var result := eval(sanitizedExpression);
      match result {
        case None =>
          HandleError();
        case Some(text) =>
          lastResult := text;
          expression := lastResult;
          isNewCalculation := true;
      }
    }

    /** The character test, then the parenthesis counter, failing as soon as it goes negative. */
    method ValidateExpression() returns (error: Option<CalcError>)
      ensures error == Validation(expression)
    {
      if exists i :: 0 <= i < |expression| && !IsAllowedChar(expression[i]) {
        return Some(InvalidCharacters);
      }
      var parentheses := 0;
      for k := 0 to |expression|
        invariant parentheses == Depth(expression[..k])
        invariant forall i :: 0 <= i <= k ==> Depth(expression[..i]) >= 0
      {
        var c := expression[k];
        if c == '(' {
          parentheses := parentheses + 1;
        }
        if c == ')' {
          parentheses := parentheses - 1;
        }
        assert expression[..k + 1][..k] == expression[..k];
        if parentheses < 0 {
          assert Depth(expression[..k + 1]) < 0;
          return Some(UnmatchedParentheses);
        }
      }
      assert expression[..|expression|] == expression;
      if parentheses != 0 {
        return Some(UnmatchedParentheses);
      }
      return None;
    }

    method HandleError()
      modifies this
      ensures Snapshot() == Failed(old(Snapshot()))
    {
      expression := "Error";
      isNewCalculation := true;
    }
  }

  /** How each single character fares against `isValidInput`. */
  lemma SingleCharacterRules(e: string, c: char)
    ensures IsOperator(c) ==> (IsValidInput(e, [c]) <==> e == [] || !IsOperator(e[|e| - 1]))
    ensures c == '.' ==> (IsValidInput(e, [c]) <==> '.' !in CurrentNumber(e))
    ensures c == '0' ==> (IsValidInput(e, [c]) <==> CurrentNumber(e) != "0")
    ensures !IsOperator(c) && c != '.' && c != '0' ==> IsValidInput(e, [c])
  {
    assert HasOperator([c]) <==> IsOperator(c) by {
      assert [c][0] == c;
    }
    if IsOperator(c) {
      assert [c] != "." && [c] != "0";
    } else if c == '.' {
      assert [c] != "0";
    }
  }

  /**
   * Typing (any value but `=` and `AC`) never touches the last result; it
   * clears `isNewCalculation` exactly for a numeric value; and it appends the
   * value to the expression, after the reset, exactly when `isValidInput` accepts it.
   */
  lemma TypingStep(s: State, value: string, eval: string -> Option<string>)
    requires value != "=" && value != "AC"
    ensures Step(s, value, eval).lastResult == s.lastResult
    ensures Step(s, value, eval).isNewCalculation == (s.isNewCalculation && !IsNumeric(value))
    ensures IsValidInput(Reset(s, value).expression, value) ==> Step(s, value, eval).expression == Reset(s, value).expression + value
    ensures !IsValidInput(Reset(s, value).expression, value) ==> Step(s, value, eval).expression == Reset(s, value).expression
    ensures IsNumeric(value) && s.isNewCalculation ==> Reset(s, value).expression == []
    ensures !(IsNumeric(value) && s.isNewCalculation) ==> Reset(s, value).expression == s.expression
  {
  }

  /**
   * `calculate()` does nothing on an empty expression; otherwise it always sets
   * `isNewCalculation`, and it either shows `Error` with the last result kept
   * or shows a result that is also the new last result.
   */
  lemma CalculateOutcome(s: State, eval: string -> Option<string>)
    ensures s.expression == [] ==> Calculated(s, eval) == s
    ensures s.expression != [] ==> Calculated(s, eval).isNewCalculation
    ensures s.expression != [] ==>
      Calculated(s, eval) == Failed(s) || Calculated(s, eval).lastResult == Calculated(s, eval).expression
    ensures s.expression != [] && Validation(s.expression).Some? ==> Calculated(s, eval) == Failed(s)
    ensures s.expression != [] && Validation(s.expression) == None && eval(Sanitize(s.expression)) == None ==>
      Calculated(s, eval) == Failed(s)
  {
  }

  /** Validation passes exactly on allowed characters with balanced parentheses, and checks the characters first. */
  lemma ValidationMeaning(e: string)
    ensures Validation(e) == None <==> (forall i :: 0 <= i < |e| ==> IsAllowedChar(e[i])) && Balanced(e)
    ensures Validation(e) == Some(UnmatchedParentheses) ==> forall i :: 0 <= i < |e| ==> IsAllowedChar(e[i])
  {
  }

  /** Every value is accepted into an empty expression, and so is every value other than `.` and `0` without an operator. */
  lemma AlwaysAccepted(expression: string, value: string)
    ensures IsValidInput([], value)
    ensures !HasOperator(value) && value != "." && value != "0" ==> IsValidInput(expression, value)
  {
    assert CurrentNumber([]) == [];
  }

  /** Typing one more character extends the current number, or starts an empty one after an operator. */
  lemma CurrentNumberSnoc(e: string, c: char)
    ensures CurrentNumber(e + [c]) == if IsOperator(c) then [] else CurrentNumber(e) + [c]
  {
    assert (e + [c])[..|e|] == e;
  }

  /** No operator directly follows another. */
  predicate NoAdjacentOperators(e: string)
  {
    forall i :: 0 < i < |e| && IsOperator(e[i]) ==> !IsOperator(e[i - 1])
  }

  /** A number as the editor lets it grow: at most one `.`, and not starting with `00`. */
  predicate WellFormedNumber(n: string)
  {
    (forall i, j :: 0 <= i < j < |n| && n[i] == '.' ==> n[j] != '.')
    && !(|n| >= 2 && n[0] == '0' && n[1] == '0')
  }

  /**
   * What the input rules keep true of the text typed so far: no two operators
   * in a row, and every number it has shown while being typed was well formed.
   */
  predicate Tidy(e: string)
  {
    NoAdjacentOperators(e) && forall i :: 0 <= i <= |e| ==> WellFormedNumber(CurrentNumber(e[..i]))
  }

  /** Deleting characters from the end keeps the text tidy. */
  lemma TidyPrefix(e: string, n: int)
    requires Tidy(e) && 0 <= n <= |e|
    ensures Tidy(e[..n])
  {
    forall i | 0 <= i <= n
      ensures WellFormedNumber(CurrentNumber(e[..n][..i]))
    {
      assert e[..n][..i] == e[..i];
    }
  }

  /** Appending one character that `isValidInput` accepts keeps the text tidy. */
  lemma TidyAppend(e: string, c: char)
    requires Tidy(e) && IsValidInput(e, [c])
    ensures Tidy(e + [c])
  {
    var e' := e + [c];
    SingleCharacterRules(e, c);
    AppendKeepsOperatorsApart(e, c);
    forall i | 0 <= i <= |e'|
      ensures WellFormedNumber(CurrentNumber(e'[..i]))
    {
      if i <= |e| {
        assert e'[..i] == e[..i];
      } else {
        assert e'[..i] == e';
        assert e[..|e|] == e;
        CurrentNumberSnoc(e, c);
        if !IsOperator(c) {
          AppendKeepsNumber(CurrentNumber(e), c);
        }
      }
    }
  }

  /** An operator appended after a non-operator (or at the start) keeps operators apart. */
  lemma AppendKeepsOperatorsApart(e: string, c: char)
    requires NoAdjacentOperators(e)
    requires IsOperator(c) ==> e == [] || !IsOperator(e[|e| - 1])
    ensures NoAdjacentOperators(e + [c])
  {
    var e' := e + [c];
    forall i | 0 < i < |e'| && IsOperator(e'[i])
      ensures !IsOperator(e'[i - 1])
    {
      if i < |e| {
        assert e'[i] == e[i] && e'[i - 1] == e[i - 1];
      }
    }
  }

  /** A character the rules let into a well-formed number keeps it well formed. */
  lemma AppendKeepsNumber(n: string, c: char)
    requires WellFormedNumber(n)
    requires c == '.' ==> '.' !in n
    requires c == '0' ==> n != "0"
    ensures WellFormedNumber(n + [c])
  {
    var n' := n + [c];
    forall i, j | 0 <= i < j < |n'| && n'[i] == '.'
      ensures n'[j] != '.'
    {
      if j == |n| {
        assert n[i] == '.';
      } else {
        assert n'[i] == n[i] && n'[j] == n[j];
      }
    }
    if |n| == 1 {
      assert n' == [n[0], c];
    }
  }

  /** A text without operators, without `.` and not starting with `00` is tidy. */
  lemma PlainTextTidy(e: string)
    requires forall i :: 0 <= i < |e| ==> !IsOperator(e[i]) && e[i] != '.'
    requires !(|e| >= 2 && e[0] == '0' && e[1] == '0')
    ensures Tidy(e)
  {
    forall i | 0 <= i <= |e|
      ensures WellFormedNumber(CurrentNumber(e[..i]))
    {
      var p := e[..i];
      assert forall j :: 0 <= j < |p| ==> p[j] == e[j];
      CurrentNumberWithoutOperators(p);
      assert forall j :: 0 <= j < |p| ==> p[j] != '.';
    }
  }

  /** Without operators, the whole text is the current number. */
  lemma CurrentNumberWithoutOperators(e: string)
    requires forall i :: 0 <= i < |e| ==> !IsOperator(e[i])
    ensures CurrentNumber(e) == e
  {
    var n := CurrentNumber(e);
    assert |n| == |e|;
    assert e[0..] == e;
  }

  /** The text `Error` shown after a failure is tidy. */
  lemma ErrorTidy()
    ensures Tidy("Error")
  {
    PlainTextTidy("Error");
  }

  /**
   * Every single-character input, and `AC`, keeps the text tidy, provided the
   * texts that evaluation produces are tidy (number formatting gives such texts).
   */
  lemma TidyStep(s: State, value: string, eval: string -> Option<string>)
    requires Tidy(s.expression)
    requires |value| == 1 || value == "AC"
    requires forall x :: eval(x).Some? ==> Tidy(eval(x).value)
    ensures Tidy(Step(s, value, eval).expression)
  {
    var s' := if s.isNewCalculation && IsNumeric(value) then s.(expression := [], isNewCalculation := false) else s;
    assert Tidy(s'.expression) by {
      if s'.expression == [] {
        assert forall i :: 0 <= i <= 0 ==> s'.expression[..i] == [];
      }
    }
    if value == "=" {
      ErrorTidy();
    } else if value != "AC" && IsValidInput(s'.expression, value) {
      assert value == [value[0]];
      TidyAppend(s'.expression, value[0]);
    }
  }

  /** Once `Error` is shown, `=` shows `Error` again: the letters fail the character test. */
  lemma ErrorPersists(s: State, eval: string -> Option<string>)
    requires s.expression == "Error"
    ensures Calculated(s, eval) == s.(isNewCalculation := true)
  {
    assert !IsAllowedChar(s.expression[0]);
  }

  /** After a result, a digit starts a new expression holding just that digit. */
  lemma DigitStartsNewCalculation(s: State, d: char, eval: string -> Option<string>)
    requires s.isNewCalculation && IsDecimalDigit(d)
    ensures Step(s, [d], eval) == s.(expression := [d], isNewCalculation := false)
  {
    SingleCharNumeric(d);
    SingleCharacterRules([], d);
  }

  /**
   * After a result, an operator is appended to it but leaves `isNewCalculation`
   * set, so the digit that follows throws the result and the operator away.
   */
  lemma OperatorThenDigitDiscardsResult(s: State, op: char, d: char, eval: string -> Option<string>)
    requires s.isNewCalculation && IsOperator(op) && IsDecimalDigit(d)
    requires IsValidInput(s.expression, [op])
    ensures Step(s, [op], eval) == s.(expression := s.expression + [op])
    ensures Step(Step(s, [op], eval), [d], eval).expression == [d]
  {
    SingleCharNumeric(op);
    var s1 := Step(s, [op], eval);
    assert s1 == s.(expression := s.expression + [op]);
    DigitStartsNewCalculation(s1, d, eval);
  }

  /** The counter over a concatenation adds the counters of the parts. */
  lemma {:induction false} DepthAppend(a: string, b: string)
    ensures Depth(a + b) == Depth(a) + Depth(b)
  {
    if b == [] {
      assert a + b == a;
    } else {
      DepthAppend(a, b[..|b| - 1]);
      assert (a + b)[..|a + b| - 1] == a + b[..|b| - 1];
    }
  }

  /** Two balanced expressions side by side are balanced. */
  lemma BalancedConcat(a: string, b: string)
    requires Balanced(a) && Balanced(b)
    ensures Balanced(a + b)
  {
    DepthAppend(a, b);
    forall i | 0 <= i <= |a + b|
      ensures Depth((a + b)[..i]) >= 0
    {
      if i <= |a| {
        assert (a + b)[..i] == a[..i];
      } else {
        assert (a + b)[..i] == a + b[..i - |a|];
        DepthAppend(a, b[..i - |a|]);
      }
    }
  }

  /** A balanced expression in parentheses is balanced. */
  lemma BalancedWrap(a: string)
    requires Balanced(a)
    ensures Balanced("(" + a + ")")
  {
    var w := "(" + a + ")";
    DepthAppend("(" + a, ")");
    DepthAppend("(", a);
    forall i | 0 <= i <= |w|
      ensures Depth(w[..i]) >= 0
    {
      if 1 <= i <= |a| + 1 {
        assert w[..i] == "(" + a[..i - 1];
        DepthAppend("(", a[..i - 1]);
      } else if i == |w| {
        assert w[..i] == w;
      }
    }
  }

  /** Sanitising works piece by piece. */
  lemma {:induction false} SanitizeAppend(a: string, b: string)
    ensures Sanitize(a + b) == Sanitize(a) + Sanitize(b)
  {
    if a != [] {
      SanitizeAppend(a[1..], b);
      assert (a + b)[0] == a[0] && (a + b)[1..] == a[1..] + b;
    } else {
      assert a + b == b;
    }
  }

  /** No `%` is left, and a text without `%` is left as it is. */
  lemma {:induction false} SanitizeRemovesPercent(e: string)
    ensures '%' !in Sanitize(e)
    ensures '%' !in e ==> Sanitize(e) == e
  {
    if e != [] {
      SanitizeRemovesPercent(e[1..]);
      assert e == [e[0]] + e[1..];
    }
  }

  /** Each `%` becomes `/100`. */
  lemma SanitizePercent()
    ensures Sanitize("%") == "/100"
  {
  }
}
