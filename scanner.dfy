/** The scanning half of the infix polynomial parser
    (include/polynomial_parser.h:47-280): tokens, errors, the scanners of
    single tokens and `tokenize`.  An expression is a string of characters;
    positions are unbounded natural numbers. */
module Scanner {
  import opened Wrappers

  /** `operator_t` */
  datatype Operator = Plus | Minus | Multiply | Divide | Power | SignMinus | SignPlus {
    /** The two sign operators are the unary ones. */
    predicate IsSign() {
      this == SignMinus || this == SignPlus
    }
  }

  /** `parenthesis_t` */
  datatype Parenthesis = Opened | Closed

  /** `error_t` */
  datatype Error =
    | UnexpectedEnd
    | EmptyExpression
    | InvalidVariable
    | InvalidToken
    | InvalidOperator
    | InvalidPowerExponent
    | InvalidNumber
    | DivisionByZero
    | OperandExpected

  /** `token_t`: an operator, a parenthesis, the variable, a number or the
      end marker. */
  datatype Token =
    | Op(op: Operator)
    | Paren(paren: Parenthesis)
    | Variable(name: char)
    | Number(value: real)
    | End

  /** `scan_state_t`: a token and the position just after it. */
  datatype ScanState = ScanState(token: Token, position: nat)

  // ---------------------------------------------------------------------
  // Character classes (the "C" locale)

  predicate IsDigit(c: char) {
    '0' <= c <= '9'
  }

  predicate IsAlpha(c: char) {
    'A' <= c <= 'Z' || 'a' <= c <= 'z'
  }

  predicate IsAlnum(c: char) {
    IsDigit(c) || IsAlpha(c)
  }

  /** `isspace`: blank, and the controls from horizontal tab (9) to carriage
      return (13). */
  predicate IsSpace(c: char) {
    c == ' ' || '\t' <= c <= '\r'
  }

  /** `operator_map` */
  function OperatorOf(c: char): (r: Option<Operator>)
    ensures r.Some? <==> c in "+-*/^"
    ensures r.Some? ==> !r.value.IsSign()
  {
    match c
    case '+' => Some(Plus)
    case '-' => Some(Minus)
    case '*' => Some(Multiply)
    case '/' => Some(Divide)
    case '^' => Some(Power)
    case _ => None
  }

  /** `parenthesis_map` */
  function ParenthesisOf(c: char): (r: Option<Parenthesis>)
    ensures r.Some? <==> c in "()"
  {
    match c
    case '(' => Some(Opened)
    case ')' => Some(Closed)
    case _ => None
  }

  /** `get_next_character` */
  function NextCharacter(expression: string, pos: nat): (r: Result<char, Error>)
    ensures r.Success? <==> pos < |expression|
    ensures r.Success? ==> r.value == expression[pos]
    ensures r.Failure? ==> r.error == UnexpectedEnd
  {
    if pos < |expression| then Success(expression[pos]) else Failure(UnexpectedEnd)
  }

  // ---------------------------------------------------------------------
  // Numbers

  /** The number of consecutive digits of s from position i on. */
  function DigitRun(s: string, i: nat): (n: nat)
    requires i <= |s|
    ensures i + n <= |s|
    ensures forall k :: i <= k < i + n ==> IsDigit(s[k])
    ensures i + n == |s| || !IsDigit(s[i + n])
    decreases |s| - i
  {
    if i < |s| && IsDigit(s[i]) then 1 + DigitRun(s, i + 1) else 0
  }

  /** The value of a string of decimal digits. */
  function DigitsValue(d: string): nat
    decreases |d|
  {
    if |d| == 0 then 0
    else DigitsValue(d[..|d| - 1]) * 10 + (d[|d| - 1] as int - '0' as int) % 10
  }

  function Pow10(n: nat): (r: nat)
    ensures r >= 1
  {
    if n == 0 then 1 else 10 * Pow10(n - 1)
  }

  /** The exact value of a decimal literal with integer digits `whole` and
      fraction digits `fraction`. */
  function DecimalValue(whole: string, fraction: string): real {
    DigitsValue(whole) as real + DigitsValue(fraction) as real / Pow10(|fraction|) as real
  }

  /** The maximal prefix of s[pos..] of the shape [0-9]*(\.[0-9]*)?, as the
      lengths of its integer digits, of its dot (0 or 1) and of its fraction
      digits. */
  function NumberShape(s: string, pos: nat): (shape: (nat, nat, nat))
    requires pos <= |s|
    ensures pos + shape.0 + shape.1 + shape.2 <= |s|
    ensures shape.1 <= 1 && (shape.1 == 0 ==> shape.2 == 0)
    ensures forall k :: pos <= k < pos + shape.0 ==> IsDigit(s[k])
    ensures shape.1 == 1 ==> s[pos + shape.0] == '.'
    ensures forall k :: pos + shape.0 + 1 <= k < pos + shape.0 + 1 + shape.2 ==> IsDigit(s[k])
  {
    var whole := DigitRun(s, pos);
    if pos + whole < |s| && s[pos + whole] == '.' then (whole, 1, DigitRun(s, pos + whole + 1))
    else (whole, 0, 0)
  }

  /** `scan_number`: the longest prefix of the shape [0-9]*(\.[0-9]*)? read
      as a decimal number, and the position after it.  Nothing left to read
      is UnexpectedEnd; a prefix without a digit is InvalidNumber. */
  function ScanNumber(expression: string, pos: nat): (r: Result<ScanState, Error>)
    ensures pos >= |expression| <==> r == Failure(UnexpectedEnd)
    ensures r.Success? ==> r.value.token.Number? && pos < r.value.position <= |expression|
    ensures pos < |expression| && IsDigit(expression[pos]) ==> r.Success?
    ensures r.Success? ==> forall k :: pos <= k < r.value.position ==>
              IsDigit(expression[k]) || expression[k] == '.'
  {
    if pos >= |expression| then Failure(UnexpectedEnd)
    else
      var shape := NumberShape(expression, pos);
      var length := shape.0 + shape.1 + shape.2;
      if shape.0 + shape.2 == 0 then Failure(InvalidNumber)
      else
        var whole := expression[pos..pos + shape.0];
        var fraction := expression[pos + shape.0 + shape.1..pos + length];
        Success(ScanState(Number(DecimalValue(whole, fraction)), pos + length))
  }

  /** The scanned number is the longest one: the character after it is
      neither a digit nor, when no dot was read, a dot. */
  lemma ScanNumberMaximal(expression: string, pos: nat)
    requires ScanNumber(expression, pos).Success?
    ensures var p := ScanNumber(expression, pos).value.position;
            p == |expression| || !IsDigit(expression[p])
    ensures var p := ScanNumber(expression, pos).value.position;
            p < |expression| && expression[p] == '.' ==> '.' in expression[pos..p]
  {
    var shape := NumberShape(expression, pos);
    var p := pos + shape.0 + shape.1 + shape.2;
    if shape.1 == 1 {
      assert expression[pos..p][shape.0] == '.';
    }
  }

  /** A run of digits reads as its decimal value. */
  lemma ScanNumberDigits(expression: string, pos: nat, n: nat)
    requires pos + n <= |expression| && n > 0
    requires forall k :: pos <= k < pos + n ==> IsDigit(expression[k])
    requires pos + n == |expression| || (!IsDigit(expression[pos + n]) && expression[pos + n] != '.')
    ensures ScanNumber(expression, pos) ==
            Success(ScanState(Number(DigitsValue(expression[pos..pos + n]) as real), pos + n))
  {
    DigitRunIs(expression, pos, n);
  }

  lemma {:induction false} DigitRunIs(s: string, i: nat, n: nat)
    requires i + n <= |s|
    requires forall k :: i <= k < i + n ==> IsDigit(s[k])
    requires i + n == |s| || !IsDigit(s[i + n])
    ensures DigitRun(s, i) == n
    decreases n
  {
    if n > 0 {
      DigitRunIs(s, i + 1, n - 1);
    }
  }

  /** Digits, a dot and digits, followed by neither a digit nor a dot, read
      as the decimal number they spell. */
  lemma ScanNumberDecimal(s: string, pos: nat, n: nat, m: nat)
    requires pos + n + 1 + m <= |s| && n + m > 0
    requires forall k :: pos <= k < pos + n ==> IsDigit(s[k])
    requires s[pos + n] == '.'
    requires forall k :: pos + n + 1 <= k < pos + n + 1 + m ==> IsDigit(s[k])
    requires pos + n + 1 + m == |s| || !IsDigit(s[pos + n + 1 + m])
    ensures ScanNumber(s, pos) == Success(ScanState(Number(
              DecimalValue(s[pos..pos + n], s[pos + n + 1..pos + n + 1 + m])), pos + n + 1 + m))
  {
    DecimalShape(s, pos, n, m);
    ScanNumberOfShape(s, pos, n, 1, m);
  }

  lemma DecimalShape(s: string, pos: nat, n: nat, m: nat)
    requires pos + n + 1 + m <= |s|
    requires forall k :: pos <= k < pos + n ==> IsDigit(s[k])
    requires s[pos + n] == '.'
    requires forall k :: pos + n + 1 <= k < pos + n + 1 + m ==> IsDigit(s[k])
    requires pos + n + 1 + m == |s| || !IsDigit(s[pos + n + 1 + m])
    ensures NumberShape(s, pos) == (n, 1, m)
  {
    DigitRunIs(s, pos, n);
    DigitRunIs(s, pos + n + 1, m);
  }

  /** A number scanned with the given shape. */
  lemma ScanNumberOfShape(s: string, pos: nat, n: nat, d: nat, m: nat)
    requires pos < |s| && pos + n + d + m <= |s| && NumberShape(s, pos) == (n, d, m) && n + m > 0
    ensures ScanNumber(s, pos) == Success(ScanState(Number(
              DecimalValue(s[pos..pos + n], s[pos + n + d..pos + n + d + m])), pos + n + d + m))
  {
  }

  /** Two decimal digits read as a number below 100. */
  lemma TwoDigitsValue(a: char, b: char)
    requires IsDigit(a) && IsDigit(b)
    ensures DigitsValue([a, b]) == (a as int - '0' as int) * 10 + (b as int - '0' as int)
  {
    assert [a, b][..1] == [a];
    assert [a][..0] == [];
    assert DigitsValue([a]) == (a as int - '0' as int) % 10;
    assert (a as int - '0' as int) % 10 == a as int - '0' as int;
    assert (b as int - '0' as int) % 10 == b as int - '0' as int;
  }

  lemma ScanNumberExampleAt(s: string)
    requires |s| == 13 && s[4] == '1' && s[5] == '2' && s[6] == '.' && s[7] == '4' && s[8] == '5' && s[9] == ' '
    ensures ScanNumber(s, 4) == Success(ScanState(Number(12.45), 9))
  {
    ScanNumberDecimal(s, 4, 2, 2);
    assert s[4..6] == [s[4], s[5]] && s[7..9] == [s[7], s[8]];
    TwoDigitsValue(s[4], s[5]);
    TwoDigitsValue(s[7], s[8]);
    assert DecimalValue(s[4..6], s[7..9]) == 12.0 + 45.0 / 100.0;
  }

  /** The example of the library's tests: "X + 12.45 + 3" read from
      position 4 is 12.45, and scanning resumes at position 9. */
  lemma ScanNumberExample()
    ensures ScanNumber("X + 12.45 + 3", 4) == Success(ScanState(Number(12.45), 9))
  {
    ScanNumberExampleAt("X + 12.45 + 3");
  }

  // ---------------------------------------------------------------------
  // Single tokens

  /** `scan_variable`: the next character must be the variable letter or
      digit. */
  function ScanVariable(expression: string, pos: nat, variable: char): (r: Result<ScanState, Error>)
    ensures r.Success? <==> pos < |expression| && expression[pos] == variable && IsAlnum(variable)
    ensures r.Success? ==> r.value == ScanState(Variable(variable), pos + 1)
    ensures pos >= |expression| ==> r == Failure(UnexpectedEnd)
    ensures pos < |expression| && r.Failure? ==> r.error == InvalidVariable
  {
    match NextCharacter(expression, pos)
    case Failure(e) => Failure(e)
    case Success(c) =>
      if IsAlnum(c) && variable == c then Success(ScanState(Variable(variable), pos + 1))
      else Failure(InvalidVariable)
  }

  /** `scan_operator` */
  function ScanOperator(expression: string, pos: nat): (r: Result<ScanState, Error>)
    ensures r.Success? <==> pos < |expression| && expression[pos] in "+-*/^"
    ensures r.Success? ==> r.value.token.Op? && !r.value.token.op.IsSign() && r.value.position == pos + 1
    ensures pos >= |expression| ==> r == Failure(UnexpectedEnd)
    ensures pos < |expression| && r.Failure? ==> r.error == InvalidToken
  {
    match NextCharacter(expression, pos)
    case Failure(e) => Failure(e)
    case Success(c) =>
      match OperatorOf(c)
      case Some(op) => Success(ScanState(Op(op), pos + 1))
      case None => Failure(InvalidToken)
  }

  /** `scan_parenthesis` */
  function ScanParenthesis(expression: string, pos: nat): (r: Result<ScanState, Error>)
    ensures r.Success? <==> pos < |expression| && expression[pos] in "()"
    ensures r.Success? ==> r.value.token.Paren? && r.value.position == pos + 1
    ensures r.Success? ==> (r.value.token.paren == Opened <==> expression[pos] == '(')
    ensures pos >= |expression| ==> r == Failure(UnexpectedEnd)
    ensures pos < |expression| && r.Failure? ==> r.error == InvalidToken
  {
    match NextCharacter(expression, pos)
    case Failure(e) => Failure(e)
    case Success(c) =>
      match ParenthesisOf(c)
      case Some(p) => Success(ScanState(Paren(p), pos + 1))
      case None => Failure(InvalidToken)
  }

  /** Every character from position pos on is white space. */
  predicate BlankFrom(expression: string, pos: nat) {
    forall k :: pos <= k < |expression| ==> IsSpace(expression[k])
  }

  /** The token at a non-blank character: number, variable, parenthesis or
      operator, in that order of tests. */
  function ScanCharacter(expression: string, pos: nat, variable: char): (r: Result<ScanState, Error>)
    requires pos < |expression| && !IsSpace(expression[pos])
    ensures r.Success? ==> pos < r.value.position <= |expression| && !r.value.token.End?
    ensures r.Success? && r.value.token.Variable? ==> r.value.token.name == variable
    ensures r != Failure(EmptyExpression) && r != Failure(UnexpectedEnd)
  {
    var c := expression[pos];
    if IsDigit(c) then ScanNumber(expression, pos)
    else if IsAlpha(c) then ScanVariable(expression, pos, variable)
    else if c in "()" then ScanParenthesis(expression, pos)
    else if c in "+-*/^" then ScanOperator(expression, pos)
    else Failure(InvalidToken)
  }

  /** `scan_token` as evidently intended: white space is skipped and the
      variable is kept for the token after it. */
  function ScanToken(expression: string, pos: nat, variable: char): (r: Result<ScanState, Error>)
    ensures |expression| == 0 <==> r == Failure(EmptyExpression)
    ensures r == Failure(UnexpectedEnd) <==> pos > |expression| > 0
    ensures r.Success? ==> pos <= r.value.position <= |expression|
    ensures r.Success? && r.value.token.End? ==> r.value.position == |expression|
    ensures r.Success? && !r.value.token.End? ==> r.value.position > pos
    ensures r.Success? && r.value.token.Variable? ==> r.value.token.name == variable
    decreases |expression| - pos
  {
    if |expression| == 0 then Failure(EmptyExpression)
    else if pos > |expression| then Failure(UnexpectedEnd)
    else if pos == |expression| then Success(ScanState(End, pos))
    else if IsSpace(expression[pos]) then ScanToken(expression, pos + 1, variable)
    else ScanCharacter(expression, pos, variable)
  }

  /** `scan_token` finds the end marker exactly when nothing but blanks is
      left. */
  lemma {:induction false} ScanTokenEndIffBlank(expression: string, pos: nat, variable: char)
    requires 0 < |expression| && pos <= |expression|
    ensures BlankFrom(expression, pos) <==> ScanToken(expression, pos, variable).Success? && ScanToken(expression, pos, variable).value.token.End?
    decreases |expression| - pos
  {
    if pos < |expression| && IsSpace(expression[pos]) {
      ScanTokenEndIffBlank(expression, pos + 1, variable);
    }
  }

  /** `scan_token` as written: skipping white space calls it again without
      the variable, so the token after a blank is scanned with 'X'. */
  function ScanTokenAsWritten(expression: string, pos: nat, variable: char): (r: Result<ScanState, Error>)
    ensures |expression| == 0 <==> r == Failure(EmptyExpression)
    ensures r.Success? ==> pos <= r.value.position <= |expression|
    ensures r.Success? && r.value.token.Variable? ==> r.value.token.name in {variable, 'X'}
    decreases |expression| - pos
  {
    if |expression| == 0 then Failure(EmptyExpression)
    else if pos > |expression| then Failure(UnexpectedEnd)
    else if pos == |expression| then Success(ScanState(End, pos))
    else if IsSpace(expression[pos]) then ScanTokenAsWritten(expression, pos + 1, 'X')
    else ScanCharacter(expression, pos, variable)
  }

  /** `scan_token` skips a blank. */
  lemma ScanTokenSkipsBlank(expression: string, pos: nat, variable: char)
    requires pos < |expression| && IsSpace(expression[pos])
    ensures ScanToken(expression, pos, variable) == ScanToken(expression, pos + 1, variable)
  {
  }

  /** `scan_token` reads an operator character as that operator. */
  lemma ScanTokenOperator(expression: string, pos: nat, variable: char)
    requires pos < |expression| && expression[pos] in "+-*/^"
    ensures ScanToken(expression, pos, variable) == Success(ScanState(Op(OperatorOf(expression[pos]).value), pos + 1))
  {
  }

  /** `scan_token` reads a parenthesis character as that parenthesis. */
  lemma ScanTokenParenthesis(expression: string, pos: nat, variable: char)
    requires pos < |expression| && expression[pos] in "()"
    ensures ScanToken(expression, pos, variable) == Success(ScanState(Paren(ParenthesisOf(expression[pos]).value), pos + 1))
  {
  }

  /** `scan_token` reads a letter as the variable if it is the variable,
      and rejects any other letter. */
  lemma ScanTokenLetter(expression: string, pos: nat, variable: char)
    requires pos < |expression| && IsAlpha(expression[pos])
    ensures expression[pos] == variable ==> ScanToken(expression, pos, variable) == Success(ScanState(Variable(variable), pos + 1))
    ensures expression[pos] != variable ==> ScanToken(expression, pos, variable) == Failure(InvalidVariable)
  {
  }

  /** `scan_token` reads a digit as the start of a number. */
  lemma ScanTokenDigit(expression: string, pos: nat, variable: char)
    requires pos < |expression| && IsDigit(expression[pos])
    ensures ScanToken(expression, pos, variable) == ScanNumber(expression, pos)
  {
  }

  /** `scan_token` rejects a character that starts no token. */
  lemma ScanTokenInvalid(expression: string, pos: nat, variable: char)
    requires pos < |expression|
    requires !IsSpace(expression[pos]) && !IsAlnum(expression[pos]) && expression[pos] !in "()+-*/^"
    ensures ScanToken(expression, pos, variable) == Failure(InvalidToken)
  {
  }

  /** Both versions agree when the variable is 'X', and for any variable when
      the token does not follow a blank. */
  lemma {:induction false} ScanTokenAgrees(expression: string, pos: nat, variable: char)
    requires variable == 'X' || pos >= |expression| || !IsSpace(expression[pos])
    ensures ScanTokenAsWritten(expression, pos, variable) == ScanToken(expression, pos, variable)
    decreases |expression| - pos
  {
    if 0 < |expression| && pos < |expression| && IsSpace(expression[pos]) {
      ScanTokenAgrees(expression, pos + 1, variable);
    }
  }

  /** As written, the variable 'Y' after a blank is rejected. */
  lemma ScanTokenAsWrittenDropsVariable()
    ensures ScanTokenAsWritten(" Y", 0, 'Y') == Failure(InvalidVariable)
    ensures ScanToken(" Y", 0, 'Y') == Success(ScanState(Variable('Y'), 2))
  {
  }

  /** The library's examples: an empty expression, a position past the end,
      and a character that starts no token. */
  lemma ScanTokenErrors()
    ensures ScanToken("", 0, 'X') == Failure(EmptyExpression)
    ensures ScanToken("3 + X", 25, 'X') == Failure(UnexpectedEnd)
    ensures ScanToken("$", 0, 'X') == Failure(InvalidToken)
    ensures ScanToken("3 + X", 5, 'X') == Success(ScanState(End, 5))
  {
  }

  // ---------------------------------------------------------------------
  // Token lists

  /** Exactly one end marker, and it is the last token. */
  predicate EndsOnce(tokens: seq<Token>) {
    |tokens| > 0 && tokens[|tokens| - 1].End? &&
    forall k :: 0 <= k < |tokens| - 1 ==> !tokens[k].End?
  }

  /** The tokens from position pos on, with the variable kept throughout. */
  function TokenizeFrom(expression: string, pos: nat, variable: char): (r: Result<seq<Token>, Error>)
    requires pos <= |expression|
    ensures r.Success? ==> EndsOnce(r.value)
    ensures r.Success? ==> forall k :: 0 <= k < |r.value| && r.value[k].Variable? ==> r.value[k].name == variable
    ensures r.Failure? ==> r.error != UnexpectedEnd
    ensures (|expression| == 0) <==> r == Failure(EmptyExpression)
    decreases |expression| - pos
  {
    match ScanToken(expression, pos, variable)
    case Failure(e) => Failure(e)
    case Success(s) =>
      if s.token.End? then Success([s.token])
      else
        match TokenizeFrom(expression, s.position, variable)
        case Failure(e) => Failure(e)
        case Success(rest) => Success([s.token] + rest)
  }

  /** `tokenize` as evidently intended: the whole expression scanned with
      the caller's variable, ending in exactly one end marker, or the first
      scan error. */
  function Tokenize(expression: string, variable: char): (r: Result<seq<Token>, Error>)
    ensures r.Success? ==> EndsOnce(r.value)
    ensures r.Success? ==> forall k :: 0 <= k < |r.value| && r.value[k].Variable? ==> r.value[k].name == variable
    ensures (|expression| == 0) <==> r == Failure(EmptyExpression)
    ensures r != Failure(UnexpectedEnd)
  {
    TokenizeFrom(expression, 0, variable)
  }

  /** The continuation of `tokenize` as written: every later token is
      scanned with the as-written `scan_token`. */
  function TokenizeFromAsWritten(expression: string, first: Result<ScanState, Error>, variable: char): (r: Result<seq<Token>, Error>)
    requires first.Success? ==> first.value.position <= |expression|
    ensures r.Success? ==> EndsOnce(r.value)
    decreases if first.Success? then |expression| - first.value.position + (if first.value.token.End? then 0 else 1) else 0
  {
    match first
    case Failure(e) => Failure(e)
    case Success(s) =>
      if s.token.End? then Success([s.token])
      else
        var next := ScanTokenAsWritten(expression, s.position, variable);
        assert next.Success? ==> next.value.position > s.position || next.value.token.End? by {
          ScanTokenAsWrittenAdvances(expression, s, variable);
        }
        match TokenizeFromAsWritten(expression, next, variable)
        case Failure(e) => Failure(e)
        case Success(rest) => Success([s.token] + rest)
  }

  /** A token other than the end marker is followed by one that either
      starts further on or is the end marker. */
  lemma ScanTokenAsWrittenAdvances(expression: string, s: ScanState, variable: char)
    requires s.position <= |expression|
    ensures var next := ScanTokenAsWritten(expression, s.position, variable);
            next.Success? ==> next.value.token.End? || next.value.position > s.position
  {
    ScanTokenAsWrittenNotEnd(expression, s.position, variable);
  }

  lemma {:induction false} ScanTokenAsWrittenNotEnd(expression: string, pos: nat, variable: char)
    requires pos <= |expression|
    ensures var r := ScanTokenAsWritten(expression, pos, variable);
            r.Success? && !r.value.token.End? ==> r.value.position > pos
    decreases |expression| - pos
  {
    if 0 < |expression| && pos < |expression| && IsSpace(expression[pos]) {
      ScanTokenAsWrittenNotEnd(expression, pos + 1, 'X');
    }
  }

  /** `tokenize` as written: the first token is scanned with the default
      variable 'X', and the later ones with the as-written `scan_token`. */
  function TokenizeAsWritten(expression: string, variable: char): (r: Result<seq<Token>, Error>)
    ensures r.Success? ==> EndsOnce(r.value)
  {
    TokenizeFromAsWritten(expression, ScanTokenAsWritten(expression, 0, 'X'), variable)
  }

  /** As written, an expression in the variable 'Y' fails at its first
      token: the first scan is made with the default variable 'X'. */
  lemma TokenizeAsWrittenDropsVariable()
    ensures TokenizeAsWritten("Y", 'Y') == Failure(InvalidVariable)
  {
  }

  /** As written, the variable 'Y' is also lost after a blank, because
      skipping the blank scans on with the default variable. */
  lemma TokenizeAsWrittenDropsVariableAfterBlank()
    ensures TokenizeAsWritten("2* Y", 'Y') == Failure(InvalidVariable)
  {
    ScanDigit("2* Y", 0);
  }

  /** The intended `tokenize` accepts both expressions. */
  lemma TokenizeKeepsVariable()
    ensures Tokenize("Y", 'Y') == Success([Variable('Y'), End])
    ensures Tokenize("2* Y", 'Y') == Success([Number(2.0), Op(Multiply), Variable('Y'), End])
  {
    TokenizeKeepsVariableAlone("Y");
    TokenizeKeepsVariableAfterBlank("2* Y");
  }

  lemma TokenizeKeepsVariableAlone(s: string)
    requires |s| == 1 && s[0] == 'Y'
    ensures TokenizeFrom(s, 0, 'Y') == Success([Variable('Y'), End])
  {
    assert TokenizeFrom(s, 1, 'Y') == Success([End]);
    ScanTokenLetter(s, 0, 'Y');
    TokenizeFromStep(s, 0, 'Y', Variable('Y'), 1, [End]);
    assert [Variable('Y')] + [End] == [Variable('Y'), End];
  }

  lemma TokenizeKeepsVariableAfterBlank(s: string)
    requires |s| == 4 && s[0] == '2' && s[1] == '*' && s[2] == ' ' && s[3] == 'Y'
    ensures TokenizeFrom(s, 0, 'Y') == Success([Number(2.0), Op(Multiply), Variable('Y'), End])
  {
    assert TokenizeFrom(s, 4, 'Y') == Success([End]);
    ScanTokenSkipsBlank(s, 2, 'Y');
    ScanTokenLetter(s, 3, 'Y');
    TokenizeFromStep(s, 2, 'Y', Variable('Y'), 4, [End]);
    var r2 := [Variable('Y')] + [End];
    ScanTokenOperator(s, 1, 'Y');
    TokenizeFromStep(s, 1, 'Y', Op(Multiply), 2, r2);
    var r1 := [Op(Multiply)] + r2;
    ScanDigit(s, 0);
    ScanTokenDigit(s, 0, 'Y');
    TokenizeFromStep(s, 0, 'Y', Number(2.0), 1, r1);
    assert [Number(2.0)] + r1 == [Number(2.0), Op(Multiply), Variable('Y'), End];
  }

  /** One step of `tokenize`: a token that is not the end marker, followed
      by the tokens of the rest. */
  lemma TokenizeFromStep(expression: string, pos: nat, variable: char, token: Token, next: nat, rest: seq<Token>)
    requires pos <= |expression|
    requires ScanToken(expression, pos, variable) == Success(ScanState(token, next)) && !token.End?
    requires TokenizeFrom(expression, next, variable) == Success(rest)
    ensures TokenizeFrom(expression, pos, variable) == Success([token] + rest)
  {
  }

  /** `tokenize` skips a blank. */
  lemma BlankStep(expression: string, pos: nat, variable: char, rest: seq<Token>)
    requires pos < |expression| && IsSpace(expression[pos])
    requires TokenizeFrom(expression, pos + 1, variable) == Success(rest)
    ensures TokenizeFrom(expression, pos, variable) == Success(rest)
  {
    ScanTokenSkipsBlank(expression, pos, variable);
  }

  /** `tokenize` reads an operator character, then the rest. */
  lemma OperatorStep(expression: string, pos: nat, variable: char, op: Operator, rest: seq<Token>)
    requires pos < |expression| && OperatorOf(expression[pos]) == Some(op)
    requires TokenizeFrom(expression, pos + 1, variable) == Success(rest)
    ensures TokenizeFrom(expression, pos, variable) == Success([Op(op)] + rest)
  {
    ScanTokenOperator(expression, pos, variable);
    TokenizeFromStep(expression, pos, variable, Op(op), pos + 1, rest);
  }

  /** `tokenize` reads a parenthesis, then the rest. */
  lemma ParenthesisStep(expression: string, pos: nat, variable: char, paren: Parenthesis, rest: seq<Token>)
    requires pos < |expression| && ParenthesisOf(expression[pos]) == Some(paren)
    requires TokenizeFrom(expression, pos + 1, variable) == Success(rest)
    ensures TokenizeFrom(expression, pos, variable) == Success([Paren(paren)] + rest)
  {
    ScanTokenParenthesis(expression, pos, variable);
    TokenizeFromStep(expression, pos, variable, Paren(paren), pos + 1, rest);
  }

  /** `tokenize` reads the variable, then the rest. */
  lemma VariableStep(expression: string, pos: nat, variable: char, rest: seq<Token>)
    requires pos < |expression| && IsAlpha(expression[pos]) && expression[pos] == variable
    requires TokenizeFrom(expression, pos + 1, variable) == Success(rest)
    ensures TokenizeFrom(expression, pos, variable) == Success([Variable(variable)] + rest)
  {
    ScanTokenLetter(expression, pos, variable);
    TokenizeFromStep(expression, pos, variable, Variable(variable), pos + 1, rest);
  }

  /** `tokenize` reads a one-digit number, then the rest. */
  lemma DigitStep(expression: string, pos: nat, variable: char, value: real, rest: seq<Token>)
    requires pos < |expression| && IsDigit(expression[pos]) && value == (expression[pos] as int - '0' as int) as real
    requires pos + 1 == |expression| || (!IsDigit(expression[pos + 1]) && expression[pos + 1] != '.')
    requires TokenizeFrom(expression, pos + 1, variable) == Success(rest)
    ensures TokenizeFrom(expression, pos, variable) == Success([Number(value)] + rest)
  {
    ScanDigit(expression, pos);
    ScanTokenDigit(expression, pos, variable);
    TokenizeFromStep(expression, pos, variable, Number(value), pos + 1, rest);
  }

  /** `tokenize` reads a number of the shape d.d, then the rest. */
  lemma DecimalDigitStep(expression: string, pos: nat, variable: char, value: real, rest: seq<Token>)
    requires pos + 2 < |expression| && IsDigit(expression[pos]) && expression[pos + 1] == '.' && IsDigit(expression[pos + 2])
    requires value == (expression[pos] as int - '0' as int) as real + (expression[pos + 2] as int - '0' as int) as real / 10.0
    requires pos + 3 == |expression| || !IsDigit(expression[pos + 3])
    requires TokenizeFrom(expression, pos + 3, variable) == Success(rest)
    ensures TokenizeFrom(expression, pos, variable) == Success([Number(value)] + rest)
  {
    ScanDecimalDigit(expression, pos);
    ScanTokenDigit(expression, pos, variable);
    TokenizeFromStep(expression, pos, variable, Number(value), pos + 3, rest);
  }

  /** `tokenize` at the end of a non-empty expression yields the end marker. */
  lemma EndStep(expression: string, variable: char)
    requires |expression| > 0
    ensures TokenizeFrom(expression, |expression|, variable) == Success([End])
  {
  }

  /** Prepending tokens one at a time builds the list of them. */
  lemma Prepended(a: Token, b: Token, c: Token, d: Token, e: Token, f: Token, rest: seq<Token>)
    ensures [a] + ([b] + ([c] + ([d] + ([e] + ([f] + rest))))) == [a, b, c, d, e, f] + rest
  {
  }

  /** Prepending five tokens one at a time builds the list of them. */
  lemma Prepended5(a: Token, b: Token, c: Token, d: Token, e: Token)
    ensures [a] + ([b] + ([c] + ([d] + [e]))) == [a, b, c, d, e]
  {
  }

  /** Six tokens followed by six more. */
  lemma Joined(a: Token, b: Token, c: Token, d: Token, e: Token, f: Token,
               g: Token, h: Token, i: Token, j: Token, k: Token, l: Token)
    ensures [a, b, c, d, e, f] + [g, h, i, j, k, l] == [a, b, c, d, e, f, g, h, i, j, k, l]
  {
  }

  /** A digit, a dot and a digit read as the decimal number they spell. */
  lemma ScanDecimalDigit(s: string, pos: nat)
    requires pos + 2 < |s| && IsDigit(s[pos]) && s[pos + 1] == '.' && IsDigit(s[pos + 2])
    requires pos + 3 == |s| || !IsDigit(s[pos + 3])
    ensures ScanNumber(s, pos) == Success(ScanState(Number(
              (s[pos] as int - '0' as int) as real + (s[pos + 2] as int - '0' as int) as real / 10.0), pos + 3))
  {
    ScanNumberDecimal(s, pos, 1, 1);
    assert s[pos..pos + 1] == [s[pos]];
    assert s[pos + 2..pos + 3] == [s[pos + 2]];
    OneByOneDecimal(s[pos], s[pos + 2]);
  }

  /** One integer digit and one fraction digit. */
  lemma OneByOneDecimal(a: char, b: char)
    requires IsDigit(a) && IsDigit(b)
    ensures DecimalValue([a], [b]) == (a as int - '0' as int) as real + (b as int - '0' as int) as real / 10.0
  {
    OneDigitValue(a);
    OneDigitValue(b);
    assert Pow10(|[b]|) == 10;
  }

  /** One decimal digit reads as its value. */
  lemma OneDigitValue(a: char)
    requires IsDigit(a)
    ensures DigitsValue([a]) == a as int - '0' as int
  {
    assert [a][..0] == [];
  }

  /** A single digit followed by neither a digit nor a dot reads as its
      value. */
  lemma ScanDigit(s: string, pos: nat)
    requires pos < |s| && IsDigit(s[pos])
    requires pos + 1 == |s| || (!IsDigit(s[pos + 1]) && s[pos + 1] != '.')
    ensures ScanNumber(s, pos) == Success(ScanState(Number((s[pos] as int - '0' as int) as real), pos + 1))
  {
    DigitRunIs(s, pos, 1);
    assert s[pos..pos + 1] == [s[pos]];
    assert DigitsValue([s[pos]]) == s[pos] as int - '0' as int by {
      assert [s[pos]][..0] == [];
    }
  }

  /** With the default variable 'X', the as-written `tokenize` is the
      intended one. */
  lemma TokenizeAgreesOnX(expression: string)
    ensures TokenizeAsWritten(expression, 'X') == Tokenize(expression, 'X')
  {
    ScanTokenAgrees(expression, 0, 'X');
    TokenizeFromAgreesOnX(expression, 0);
  }

  lemma {:induction false} TokenizeFromAgreesOnX(expression: string, pos: nat)
    requires pos <= |expression|
    ensures TokenizeFromAsWritten(expression, ScanToken(expression, pos, 'X'), 'X') == TokenizeFrom(expression, pos, 'X')
    decreases |expression| - pos
  {
    match ScanToken(expression, pos, 'X')
    case Failure(_) =>
    case Success(s) =>
      if !s.token.End? {
        ScanTokenAgrees(expression, s.position, 'X');
        TokenizeFromAgreesOnX(expression, s.position);
      }
  }

  /** The library's example: "3 * (5 + 2.8) - X^5" has twelve tokens, the
      last of them the end marker. */
  lemma TokenizeExample()
    ensures Tokenize("3 * (5 + 2.8) - X^5", 'X') == Success([
      Number(3.0), Op(Multiply), Paren(Opened), Number(5.0), Op(Plus), Number(2.8),
      Paren(Closed), Op(Minus), Variable('X'), Op(Power), Number(5.0), End])
  {
    TokenizeExampleFrom("3 * (5 + 2.8) - X^5");
  }

  lemma TokenizeExampleFrom(s: string)
    requires |s| == 19
    requires s[0] == '3' && s[1] == ' ' && s[2] == '*' && s[3] == ' ' && s[4] == '(' && s[5] == '5' && s[6] == ' ' && s[7] == '+' && s[8] == ' ' && s[9] == '2' && s[10] == '.' && s[11] == '8' && s[12] == ')' && s[13] == ' ' && s[14] == '-' && s[15] == ' ' && s[16] == 'X' && s[17] == '^' && s[18] == '5'
    ensures TokenizeFrom(s, 0, 'X') == Success([
      Number(3.0), Op(Multiply), Paren(Opened), Number(5.0), Op(Plus), Number(2.8),
      Paren(Closed), Op(Minus), Variable('X'), Op(Power), Number(5.0), End])
  {
    var r12 := [Paren(Closed), Op(Minus), Variable('X'), Op(Power), Number(5.0), End];
    TokenizeExampleFrom0(s);
    Prepended(Number(3.0), Op(Multiply), Paren(Opened), Number(5.0), Op(Plus), Number(2.8), r12);
    Joined(Number(3.0), Op(Multiply), Paren(Opened), Number(5.0), Op(Plus), Number(2.8),
           Paren(Closed), Op(Minus), Variable('X'), Op(Power), Number(5.0), End);
  }

  lemma TokenizeExampleFrom0(s: string)
    requires |s| == 19
    requires s[0] == '3' && s[1] == ' ' && s[2] == '*' && s[3] == ' ' && s[4] == '(' && s[5] == '5' && s[6] == ' ' && s[7] == '+' && s[8] == ' ' && s[9] == '2' && s[10] == '.' && s[11] == '8' && s[12] == ')' && s[13] == ' ' && s[14] == '-' && s[15] == ' ' && s[16] == 'X' && s[17] == '^' && s[18] == '5'
    ensures TokenizeFrom(s, 0, 'X') ==
            Success([Number(3.0)] + ([Op(Multiply)] + ([Paren(Opened)] + ([Number(5.0)] + ([Op(Plus)] + ([Number(2.8)] +
              [Paren(Closed), Op(Minus), Variable('X'), Op(Power), Number(5.0), End]))))))
  {
    var r12 := [Paren(Closed), Op(Minus), Variable('X'), Op(Power), Number(5.0), End];
    TokenizeExampleFrom1(s);
    DigitStep(s, 0, 'X', 3.0, [Op(Multiply)] + ([Paren(Opened)] + ([Number(5.0)] + ([Op(Plus)] + ([Number(2.8)] + r12)))));
  }

  lemma TokenizeExampleFrom1(s: string)
    requires |s| == 19
    requires s[0] == '3' && s[1] == ' ' && s[2] == '*' && s[3] == ' ' && s[4] == '(' && s[5] == '5' && s[6] == ' ' && s[7] == '+' && s[8] == ' ' && s[9] == '2' && s[10] == '.' && s[11] == '8' && s[12] == ')' && s[13] == ' ' && s[14] == '-' && s[15] == ' ' && s[16] == 'X' && s[17] == '^' && s[18] == '5'
    ensures TokenizeFrom(s, 1, 'X') ==
            Success([Op(Multiply)] + ([Paren(Opened)] + ([Number(5.0)] + ([Op(Plus)] + ([Number(2.8)] +
              [Paren(Closed), Op(Minus), Variable('X'), Op(Power), Number(5.0), End])))))
  {
    var r12 := [Paren(Closed), Op(Minus), Variable('X'), Op(Power), Number(5.0), End];
    TokenizeExampleFrom3(s);
    OperatorStep(s, 2, 'X', Multiply, [Paren(Opened)] + ([Number(5.0)] + ([Op(Plus)] + ([Number(2.8)] + r12))));
    BlankStep(s, 1, 'X', [Op(Multiply)] + ([Paren(Opened)] + ([Number(5.0)] + ([Op(Plus)] + ([Number(2.8)] + r12)))));
  }

  lemma TokenizeExampleFrom3(s: string)
    requires |s| == 19
    requires s[0] == '3' && s[1] == ' ' && s[2] == '*' && s[3] == ' ' && s[4] == '(' && s[5] == '5' && s[6] == ' ' && s[7] == '+' && s[8] == ' ' && s[9] == '2' && s[10] == '.' && s[11] == '8' && s[12] == ')' && s[13] == ' ' && s[14] == '-' && s[15] == ' ' && s[16] == 'X' && s[17] == '^' && s[18] == '5'
    ensures TokenizeFrom(s, 3, 'X') ==
            Success([Paren(Opened)] + ([Number(5.0)] + ([Op(Plus)] + ([Number(2.8)] +
              [Paren(Closed), Op(Minus), Variable('X'), Op(Power), Number(5.0), End]))))
  {
    var r12 := [Paren(Closed), Op(Minus), Variable('X'), Op(Power), Number(5.0), End];
    TokenizeExampleFrom5(s);
    ParenthesisStep(s, 4, 'X', Opened, [Number(5.0)] + ([Op(Plus)] + ([Number(2.8)] + r12)));
    BlankStep(s, 3, 'X', [Paren(Opened)] + ([Number(5.0)] + ([Op(Plus)] + ([Number(2.8)] + r12))));
  }

  lemma TokenizeExampleFrom5(s: string)
    requires |s| == 19
    requires s[0] == '3' && s[1] == ' ' && s[2] == '*' && s[3] == ' ' && s[4] == '(' && s[5] == '5' && s[6] == ' ' && s[7] == '+' && s[8] == ' ' && s[9] == '2' && s[10] == '.' && s[11] == '8' && s[12] == ')' && s[13] == ' ' && s[14] == '-' && s[15] == ' ' && s[16] == 'X' && s[17] == '^' && s[18] == '5'
    ensures TokenizeFrom(s, 5, 'X') == Success([Number(5.0)] + ([Op(Plus)] + ([Number(2.8)] +
              [Paren(Closed), Op(Minus), Variable('X'), Op(Power), Number(5.0), End])))
  {
    var r12 := [Paren(Closed), Op(Minus), Variable('X'), Op(Power), Number(5.0), End];
    TokenizeExampleFrom12(s);
    DecimalDigitStep(s, 9, 'X', 2.8, r12);
    BlankStep(s, 8, 'X', [Number(2.8)] + r12);
    OperatorStep(s, 7, 'X', Plus, [Number(2.8)] + r12);
    BlankStep(s, 6, 'X', [Op(Plus)] + ([Number(2.8)] + r12));
    DigitStep(s, 5, 'X', 5.0, [Op(Plus)] + ([Number(2.8)] + r12));
  }

  lemma TokenizeExampleFrom12(s: string)
    requires |s| == 19
    requires s[0] == '3' && s[1] == ' ' && s[2] == '*' && s[3] == ' ' && s[4] == '(' && s[5] == '5' && s[6] == ' ' && s[7] == '+' && s[8] == ' ' && s[9] == '2' && s[10] == '.' && s[11] == '8' && s[12] == ')' && s[13] == ' ' && s[14] == '-' && s[15] == ' ' && s[16] == 'X' && s[17] == '^' && s[18] == '5'
    ensures TokenizeFrom(s, 12, 'X') ==
            Success([Paren(Closed), Op(Minus), Variable('X'), Op(Power), Number(5.0), End])
  {
    TokenizeExampleFrom15(s);
    OperatorStep(s, 14, 'X', Minus, [Variable('X')] + ([Op(Power)] + ([Number(5.0)] + [End])));
    BlankStep(s, 13, 'X', [Op(Minus)] + ([Variable('X')] + ([Op(Power)] + ([Number(5.0)] + [End]))));
    ParenthesisStep(s, 12, 'X', Closed, [Op(Minus)] + ([Variable('X')] + ([Op(Power)] + ([Number(5.0)] + [End]))));
    assert [End] == [End] + [];
    Prepended(Paren(Closed), Op(Minus), Variable('X'), Op(Power), Number(5.0), End, []);
    assert [Paren(Closed), Op(Minus), Variable('X'), Op(Power), Number(5.0), End] + [] ==
           [Paren(Closed), Op(Minus), Variable('X'), Op(Power), Number(5.0), End];
  }

  lemma TokenizeExampleFrom15(s: string)
    requires |s| == 19
    requires s[0] == '3' && s[1] == ' ' && s[2] == '*' && s[3] == ' ' && s[4] == '(' && s[5] == '5' && s[6] == ' ' && s[7] == '+' && s[8] == ' ' && s[9] == '2' && s[10] == '.' && s[11] == '8' && s[12] == ')' && s[13] == ' ' && s[14] == '-' && s[15] == ' ' && s[16] == 'X' && s[17] == '^' && s[18] == '5'
    ensures TokenizeFrom(s, 15, 'X') == Success([Variable('X')] + ([Op(Power)] + ([Number(5.0)] + [End])))
  {
    EndStep(s, 'X');
    DigitStep(s, 18, 'X', 5.0, [End]);
    OperatorStep(s, 17, 'X', Power, [Number(5.0)] + [End]);
    VariableStep(s, 16, 'X', [Op(Power)] + ([Number(5.0)] + [End]));
    BlankStep(s, 15, 'X', [Variable('X')] + ([Op(Power)] + ([Number(5.0)] + [End])));
  }
}
