/** The evaluating half of the infix polynomial parser
    (include/polynomial_parser.h:281-562): sign rewriting, the
    shunting-yard conversion to postfix, the reverse-Polish evaluation over
    polynomials and the pipeline `parse_polynomial`.  Stacks are sequences
    whose last element is the top. */
module Parser {
  import opened Wrappers
  import opened Scanner
  import P = Polynomials

  // ---------------------------------------------------------------------
  // Sign rewriting

  predicate IsPlusOrMinus(t: Token) {
    t == Op(Plus) || t == Op(Minus)
  }

  /** The flag of `convert_tokens_with_signs` before token i: set at the
      start and after a '+', a '-' or a '(' of the input. */
  predicate SignPosition(tokens: seq<Token>, i: nat)
    requires i <= |tokens|
  {
    i == 0 || IsPlusOrMinus(tokens[i - 1]) || tokens[i - 1] == Paren(Opened)
  }

  /** `sign_operator_map`: '+' and '-' become the unary signs. */
  function ToSign(t: Token): (s: Token)
    requires IsPlusOrMinus(t)
    ensures s.Op? && s.op.IsSign()
    ensures (s == Op(SignPlus)) <==> (t == Op(Plus))
  {
    if t == Op(Plus) then Op(SignPlus) else Op(SignMinus)
  }

  /** The token i of the rewritten list. */
  function SignedAt(tokens: seq<Token>, i: nat): Token
    requires i < |tokens|
  {
    if IsPlusOrMinus(tokens[i]) && SignPosition(tokens, i) then ToSign(tokens[i]) else tokens[i]
  }

  /** The tokens with every '+' or '-' in sign position made a sign. */
  function WithSigns(tokens: seq<Token>): (r: seq<Token>)
    ensures |r| == |tokens|
  {
    seq(|tokens|, i requires 0 <= i < |tokens| => SignedAt(tokens, i))
  }

  /** `convert_tokens_with_signs`: one pass over the tokens with the flag
      that says whether the previous input token was '+', '-' or '('. */
  method ConvertTokensWithSigns(tokens: seq<Token>) returns (result: seq<Token>)
    ensures result == WithSigns(tokens)
  {
    result := [];
    var lastWasOperatorOrOpen := true;
    for i := 0 to |tokens|
      invariant result == WithSigns(tokens)[..i]
      invariant lastWasOperatorOrOpen == SignPosition(tokens, i)
    {
      var token := tokens[i];
      var transformed := if IsPlusOrMinus(token) && lastWasOperatorOrOpen then ToSign(token) else token;
      lastWasOperatorOrOpen := IsPlusOrMinus(token) || token == Paren(Opened);
      result := result + [transformed];
    }
  }

  /** Only '+' and '-' change, each into its own sign, and exactly at the
      start or after '+', '-' or '('. */
  lemma WithSignsChanges(tokens: seq<Token>, i: nat)
    requires i < |tokens|
    ensures WithSigns(tokens)[i] != tokens[i] <==> IsPlusOrMinus(tokens[i]) && SignPosition(tokens, i)
    ensures WithSigns(tokens)[i] == Op(SignPlus) <==> tokens[i] == Op(SignPlus) || (tokens[i] == Op(Plus) && SignPosition(tokens, i))
    ensures WithSigns(tokens)[i] == Op(SignMinus) <==> tokens[i] == Op(SignMinus) || (tokens[i] == Op(Minus) && SignPosition(tokens, i))
  {
  }

  /** A '-' right after '*', '/' or '^' stays the binary minus. */
  lemma MinusAfterOperatorStaysBinary(tokens: seq<Token>, i: nat)
    requires 0 < i < |tokens| && tokens[i] == Op(Minus)
    requires tokens[i - 1] in {Op(Multiply), Op(Divide), Op(Power)}
    ensures WithSigns(tokens)[i] == Op(Minus)
  {
  }

  /** Rewriting twice is rewriting once: what the first pass leaves as a
      binary '+' or '-' does not stand in sign position afterwards. */
  lemma WithSignsIdempotent(tokens: seq<Token>)
    ensures WithSigns(WithSigns(tokens)) == WithSigns(tokens)
  {
    var once := WithSigns(tokens);
    forall i | 0 <= i < |tokens|
      ensures WithSigns(once)[i] == once[i]
    {
      if IsPlusOrMinus(once[i]) {
        assert once[i] == tokens[i] && !SignPosition(tokens, i);
        assert once[i - 1] == tokens[i - 1];
      }
    }
  }

  // ---------------------------------------------------------------------
  // Shunting-yard

  /** The precedence table as written: SIGN_MINUS is listed twice and
      SIGN_PLUS not at all, so SIGN_PLUS falls back to 0. */
  function PrecedenceAsWritten(op: Operator): nat {
    match op
    case Plus => 1
    case Minus => 1
    case Multiply => 2
    case Divide => 2
    case SignMinus => 3
    case Power => 4
    case SignPlus => 0
  }

  /** The precedence table as evidently intended: both signs at 3. */
  function Precedence(op: Operator): (n: nat)
    ensures op.IsSign() ==> n == 3
    ensures op != SignPlus ==> n == PrecedenceAsWritten(op)
  {
    match op
    case Plus => 1
    case Minus => 1
    case Multiply => 2
    case Divide => 2
    case SignMinus => 3
    case Power => 4
    case SignPlus => 3
  }

  /** The state of the conversion: the postfix output so far and the
      operator stack. */
  datatype Shunt = Shunt(output: seq<Token>, stack: seq<Token>)

  /** Moves the top of the stack to the output. */
  function MoveTop(st: Shunt): (r: Shunt)
    requires |st.stack| > 0
    ensures |r.stack| == |st.stack| - 1
  {
    Shunt(st.output + [st.stack[|st.stack| - 1]], st.stack[..|st.stack| - 1])
  }

  /** `process_operator`'s loop: moves the operators on top of the stack
      that bind at least as tightly as op. */
  function PopOperators(st: Shunt, op: Operator, precedence: Operator -> nat): (r: Shunt)
    ensures |r.stack| <= |st.stack|
    ensures |r.stack| > 0 ==> !r.stack[|r.stack| - 1].Op? || precedence(r.stack[|r.stack| - 1].op) < precedence(op)
    decreases |st.stack|
  {
    if |st.stack| > 0 && st.stack[|st.stack| - 1].Op? && precedence(st.stack[|st.stack| - 1].op) >= precedence(op)
    then PopOperators(MoveTop(st), op, precedence)
    else st
  }

  /** The loop of ')': moves everything above the nearest parenthesis. */
  function PopToParenthesis(st: Shunt): (r: Shunt)
    ensures |r.stack| == 0 || r.stack[|r.stack| - 1].Paren?
    decreases |st.stack|
  {
    if |st.stack| > 0 && !st.stack[|st.stack| - 1].Paren? then PopToParenthesis(MoveTop(st)) else st
  }

  /** Discards the top of the stack; on an empty stack the library's `pop`
      is undefined and the model leaves the stack as it is. */
  function DropTop(st: Shunt): Shunt {
    if |st.stack| > 0 then Shunt(st.output, st.stack[..|st.stack| - 1]) else st
  }

  /** `process_token` */
  function Step(st: Shunt, t: Token, precedence: Operator -> nat): Shunt {
    match t
    case Op(op) =>
      var popped := PopOperators(st, op, precedence);
      Shunt(popped.output, popped.stack + [t])
    case Paren(Opened) => Shunt(st.output, st.stack + [t])
    case Paren(Closed) => DropTop(PopToParenthesis(st))
    case Variable(_) => Shunt(st.output + [t], st.stack)
    case Number(_) => Shunt(st.output + [t], st.stack)
    case End => st
  }

  /** The state after the tokens, from an empty output and stack. */
  function Shunting(tokens: seq<Token>, precedence: Operator -> nat): Shunt
    decreases |tokens|
  {
    if |tokens| == 0 then Shunt([], [])
    else Step(Shunting(tokens[..|tokens| - 1], precedence), tokens[|tokens| - 1], precedence)
  }

  /** The final loop: the whole stack, top first, after the output. */
  function FlushAll(st: Shunt): seq<Token>
    decreases |st.stack|
  {
    if |st.stack| == 0 then st.output else FlushAll(MoveTop(st))
  }

  function PostfixWith(infix: seq<Token>, precedence: Operator -> nat): seq<Token> {
    FlushAll(Shunting(infix, precedence))
  }

  /** The postfix list with the corrected precedence table. */
  function Postfix(infix: seq<Token>): seq<Token> {
    PostfixWith(infix, Precedence)
  }

  /** The postfix list with the table as written. */
  function PostfixAsWritten(infix: seq<Token>): seq<Token> {
    PostfixWith(infix, PrecedenceAsWritten)
  }

  /** `convert_to_postfix`: the shunting-yard loop over the tokens, with an
      inner loop for the operators an operator or a ')' moves, and a last
      loop that empties the stack. */
  method ConvertToPostfix(infix: seq<Token>) returns (postfix: seq<Token>)
    ensures postfix == Postfix(infix)
  {
    postfix := [];
    var stack: seq<Token> := [];
    for i := 0 to |infix|
      invariant Shunt(postfix, stack) == Shunting(infix[..i], Precedence)
    {
      assert infix[..i + 1][..i] == infix[..i];
      var token := infix[i];
      match token {
        case Op(op) =>
          ghost var target := PopOperators(Shunt(postfix, stack), op, Precedence);
          while |stack| > 0 && stack[|stack| - 1].Op? && Precedence(stack[|stack| - 1].op) >= Precedence(op)
            invariant PopOperators(Shunt(postfix, stack), op, Precedence) == target
            decreases |stack|
          {
            postfix := postfix + [stack[|stack| - 1]];
            stack := stack[..|stack| - 1];
          }
          stack := stack + [token];
        case Paren(Opened) =>
          stack := stack + [token];
        case Paren(Closed) =>
          ghost var target := PopToParenthesis(Shunt(postfix, stack));
          while |stack| > 0 && !stack[|stack| - 1].Paren?
            invariant PopToParenthesis(Shunt(postfix, stack)) == target
            decreases |stack|
          {
            postfix := postfix + [stack[|stack| - 1]];
            stack := stack[..|stack| - 1];
          }
          if |stack| > 0 {
            stack := stack[..|stack| - 1];
          }
        case Variable(_) =>
          postfix := postfix + [token];
        case Number(_) =>
          postfix := postfix + [token];
        case End =>
      }
    }
    assert infix[..|infix|] == infix;
    ghost var target := FlushAll(Shunt(postfix, stack));
    while |stack| > 0
      invariant FlushAll(Shunt(postfix, stack)) == target
      decreases |stack|
    {
      postfix := postfix + [stack[|stack| - 1]];
      stack := stack[..|stack| - 1];
    }
  }

  // Properties of the conversion.

  predicate IsOperand(t: Token) {
    t.Variable? || t.Number?
  }

  /** The operands of a token list, in order. */
  function Operands(s: seq<Token>): seq<Token>
    decreases |s|
  {
    if |s| == 0 then [] else Operands(s[..|s| - 1]) + (if IsOperand(s[|s| - 1]) then [s[|s| - 1]] else [])
  }

  /** The operators of a token list, in order. */
  function Operators(s: seq<Token>): seq<Operator>
    decreases |s|
  {
    if |s| == 0 then [] else Operators(s[..|s| - 1]) + (if s[|s| - 1].Op? then [s[|s| - 1].op] else [])
  }

  lemma FiltersSnoc(s: seq<Token>, t: Token)
    ensures Operands(s + [t]) == Operands(s) + (if IsOperand(t) then [t] else [])
    ensures Operators(s + [t]) == Operators(s) + (if t.Op? then [t.op] else [])
  {
    assert (s + [t])[..|s|] == s;
  }

  predicate HasOpen(s: seq<Token>) {
    exists k :: 0 <= k < |s| && s[k] == Paren(Opened)
  }

  /** The output holds no end marker and no ')'. */
  predicate CleanOutput(output: seq<Token>) {
    forall k :: 0 <= k < |output| ==> !output[k].End? && output[k] != Paren(Closed)
  }

  /** The stack holds only operators and '('. */
  predicate CleanStack(stack: seq<Token>) {
    forall k :: 0 <= k < |stack| ==> stack[k].Op? || stack[k] == Paren(Opened)
  }

  predicate NoParenthesis(s: seq<Token>) {
    forall k :: 0 <= k < |s| ==> !s[k].Paren?
  }

  /** The operators of output and stack together. */
  function OperatorsOf(st: Shunt): multiset<Operator> {
    multiset(Operators(st.output)) + multiset(Operators(st.stack))
  }

  /** What the conversion keeps true of its state, for input tokens whose
      operands are `operands`, whose operators are `ops` and that hold a
      '(' when `open` is set: the output holds exactly those operands in
      order, output and stack together hold exactly those operators, both
      are clean, and no parenthesis appears at all without a '(' in the
      input. */
  ghost predicate Inv(operands: seq<Token>, ops: multiset<Operator>, open: bool, st: Shunt) {
    Operands(st.output) == operands &&
    OperatorsOf(st) == ops &&
    CleanOutput(st.output) && CleanStack(st.stack) &&
    (!open ==> NoParenthesis(st.output) && NoParenthesis(st.stack))
  }

  lemma MoveTopKeeps(st: Shunt)
    requires |st.stack| > 0 && CleanStack(st.stack)
    ensures Operands(MoveTop(st).output) == Operands(st.output)
    ensures OperatorsOf(MoveTop(st)) == OperatorsOf(st)
  {
    var top := st.stack[|st.stack| - 1];
    var rest := st.stack[..|st.stack| - 1];
    FiltersSnoc(st.output, top);
    assert rest + [top] == st.stack;
    FiltersSnoc(rest, top);
  }

  lemma MoveTopClean(open: bool, st: Shunt)
    requires |st.stack| > 0 && CleanOutput(st.output) && CleanStack(st.stack)
    requires !open ==> NoParenthesis(st.output) && NoParenthesis(st.stack)
    ensures CleanOutput(MoveTop(st).output) && CleanStack(MoveTop(st).stack)
    ensures !open ==> NoParenthesis(MoveTop(st).output) && NoParenthesis(MoveTop(st).stack)
  {
  }

  lemma MoveTopInv(operands: seq<Token>, ops: multiset<Operator>, open: bool, st: Shunt)
    requires |st.stack| > 0 && Inv(operands, ops, open, st)
    ensures Inv(operands, ops, open, MoveTop(st))
  {
    MoveTopKeeps(st);
    MoveTopClean(open, st);
  }

  lemma {:induction false} PopOperatorsInv(operands: seq<Token>, ops: multiset<Operator>, open: bool, st: Shunt, op: Operator, precedence: Operator -> nat)
    requires Inv(operands, ops, open, st)
    ensures Inv(operands, ops, open, PopOperators(st, op, precedence))
    decreases |st.stack|
  {
    if |st.stack| > 0 && st.stack[|st.stack| - 1].Op? && precedence(st.stack[|st.stack| - 1].op) >= precedence(op) {
      MoveTopInv(operands, ops, open, st);
      PopOperatorsInv(operands, ops, open, MoveTop(st), op, precedence);
    }
  }

  lemma {:induction false} PopToParenthesisInv(operands: seq<Token>, ops: multiset<Operator>, open: bool, st: Shunt)
    requires Inv(operands, ops, open, st)
    ensures Inv(operands, ops, open, PopToParenthesis(st))
    decreases |st.stack|
  {
    if |st.stack| > 0 && !st.stack[|st.stack| - 1].Paren? {
      MoveTopInv(operands, ops, open, st);
      PopToParenthesisInv(operands, ops, open, MoveTop(st));
    }
  }

  lemma StepOperatorInv(operands: seq<Token>, ops: multiset<Operator>, open: bool, st: Shunt, o: Operator, precedence: Operator -> nat)
    requires Inv(operands, ops, open, st)
    ensures var popped := PopOperators(st, o, precedence);
            Inv(operands, ops + multiset{o}, open, Shunt(popped.output, popped.stack + [Op(o)]))
  {
    PopOperatorsInv(operands, ops, open, st, o, precedence);
    var popped := PopOperators(st, o, precedence);
    PushInv(operands, ops, open, popped, Op(o));
  }

  /** Pushing an operator or a '(' onto the stack. */
  lemma PushInv(operands: seq<Token>, ops: multiset<Operator>, open: bool, st: Shunt, t: Token)
    requires Inv(operands, ops, open, st)
    requires t.Op? || (t == Paren(Opened) && open)
    ensures Inv(operands, ops + (if t.Op? then multiset{t.op} else multiset{}), open, Shunt(st.output, st.stack + [t]))
  {
    FiltersSnoc(st.stack, t);
    CleanSnoc(st.stack, t);
  }

  lemma CleanSnoc(s: seq<Token>, t: Token)
    ensures CleanOutput(s + [t]) <==> CleanOutput(s) && !t.End? && t != Paren(Closed)
    ensures CleanStack(s + [t]) <==> CleanStack(s) && (t.Op? || t == Paren(Opened))
    ensures NoParenthesis(s + [t]) <==> NoParenthesis(s) && !t.Paren?
  {
    assert forall k :: 0 <= k < |s| ==> (s + [t])[k] == s[k];
    assert (s + [t])[|s|] == t;
  }

  lemma CleanPrefix(s: seq<Token>, n: nat)
    requires n <= |s|
    ensures CleanOutput(s) ==> CleanOutput(s[..n])
    ensures CleanStack(s) ==> CleanStack(s[..n])
    ensures NoParenthesis(s) ==> NoParenthesis(s[..n])
  {
  }

  lemma StepOpenInv(operands: seq<Token>, ops: multiset<Operator>, open: bool, st: Shunt)
    requires Inv(operands, ops, open, st)
    ensures Inv(operands, ops, true, Shunt(st.output, st.stack + [Paren(Opened)]))
  {
    assert Inv(operands, ops, true, st);
    PushInv(operands, ops, true, st, Paren(Opened));
  }

  lemma StepCloseInv(operands: seq<Token>, ops: multiset<Operator>, open: bool, st: Shunt)
    requires Inv(operands, ops, open, st)
    ensures Inv(operands, ops, open, DropTop(PopToParenthesis(st)))
  {
    PopToParenthesisInv(operands, ops, open, st);
    DropTopInv(operands, ops, open, PopToParenthesis(st));
  }

  /** Discarding a '(' from the top of the stack. */
  lemma DropTopInv(operands: seq<Token>, ops: multiset<Operator>, open: bool, st: Shunt)
    requires Inv(operands, ops, open, st)
    requires |st.stack| == 0 || st.stack[|st.stack| - 1].Paren?
    ensures Inv(operands, ops, open, DropTop(st))
  {
    if |st.stack| > 0 {
      var rest := st.stack[..|st.stack| - 1];
      var top := st.stack[|st.stack| - 1];
      assert rest + [top] == st.stack;
      FiltersSnoc(rest, top);
      CleanPrefix(st.stack, |st.stack| - 1);
    }
  }

  lemma StepOperandInv(operands: seq<Token>, ops: multiset<Operator>, open: bool, st: Shunt, t: Token)
    requires Inv(operands, ops, open, st) && IsOperand(t)
    ensures Inv(operands + [t], ops, open, Shunt(st.output + [t], st.stack))
  {
    FiltersSnoc(st.output, t);
    CleanSnoc(st.output, t);
  }

  lemma HasOpenSnoc(prefix: seq<Token>, t: Token)
    ensures HasOpen(prefix + [t]) <==> HasOpen(prefix) || t == Paren(Opened)
  {
    if HasOpen(prefix) {
      var k :| 0 <= k < |prefix| && prefix[k] == Paren(Opened);
      assert (prefix + [t])[k] == Paren(Opened);
    }
    if t == Paren(Opened) {
      assert (prefix + [t])[|prefix|] == Paren(Opened);
    }
  }

  lemma StepInv(prefix: seq<Token>, st: Shunt, t: Token, precedence: Operator -> nat)
    requires Inv(Operands(prefix), multiset(Operators(prefix)), HasOpen(prefix), st)
    ensures Inv(Operands(prefix + [t]), multiset(Operators(prefix + [t])), HasOpen(prefix + [t]), Step(st, t, precedence))
  {
    FiltersSnoc(prefix, t);
    HasOpenSnoc(prefix, t);
    var operands, ops, open := Operands(prefix), multiset(Operators(prefix)), HasOpen(prefix);
    match t {
      case Op(o) => StepOperatorInv(operands, ops, open, st, o, precedence);
      case Paren(Opened) => StepOpenInv(operands, ops, open, st);
      case Paren(Closed) => StepCloseInv(operands, ops, open, st);
      case Variable(_) => StepOperandInv(operands, ops, open, st, t);
      case Number(_) => StepOperandInv(operands, ops, open, st, t);
      case End =>
    }
  }

  lemma {:induction false} ShuntingInv(tokens: seq<Token>, precedence: Operator -> nat)
    ensures Inv(Operands(tokens), multiset(Operators(tokens)), HasOpen(tokens), Shunting(tokens, precedence))
    decreases |tokens|
  {
    if |tokens| > 0 {
      var prefix := tokens[..|tokens| - 1];
      ShuntingInv(prefix, precedence);
      StepInvLast(tokens, Shunting(prefix, precedence), precedence);
    }
  }

  /** The invariant holds after the last token when it held before it. */
  lemma StepInvLast(tokens: seq<Token>, st: Shunt, precedence: Operator -> nat)
    requires |tokens| > 0
    requires st == Shunting(tokens[..|tokens| - 1], precedence)
    requires Inv(Operands(tokens[..|tokens| - 1]), multiset(Operators(tokens[..|tokens| - 1])),
                 HasOpen(tokens[..|tokens| - 1]), st)
    ensures Inv(Operands(tokens), multiset(Operators(tokens)), HasOpen(tokens), Shunting(tokens, precedence))
  {
    var prefix, last := tokens[..|tokens| - 1], tokens[|tokens| - 1];
    ShuntingSnoc(prefix, last, precedence, st);
    StepInv(prefix, st, last, precedence);
    InitLast(tokens);
  }

  /** A non-empty sequence is its front followed by its last element. */
  lemma InitLast<T>(s: seq<T>)
    requires |s| > 0
    ensures s[..|s| - 1] + [s[|s| - 1]] == s
  {
  }

  lemma {:induction false} FlushAllInv(operands: seq<Token>, ops: multiset<Operator>, open: bool, st: Shunt)
    requires Inv(operands, ops, open, st)
    ensures Inv(operands, ops, open, Shunt(FlushAll(st), []))
    decreases |st.stack|
  {
    if |st.stack| > 0 {
      MoveTopInv(operands, ops, open, st);
      FlushAllInv(operands, ops, open, MoveTop(st));
    }
  }

  /** The conversion keeps the operands in their input order, keeps every
      operator exactly once, drops the end marker and every ')', and yields
      no parenthesis at all for an input without '('. */
  lemma PostfixProperties(infix: seq<Token>, precedence: Operator -> nat)
    ensures Operands(PostfixWith(infix, precedence)) == Operands(infix)
    ensures multiset(Operators(PostfixWith(infix, precedence))) == multiset(Operators(infix))
    ensures forall k :: 0 <= k < |PostfixWith(infix, precedence)| ==>
              !PostfixWith(infix, precedence)[k].End? && PostfixWith(infix, precedence)[k] != Paren(Closed)
    ensures !HasOpen(infix) ==> forall k :: 0 <= k < |PostfixWith(infix, precedence)| ==> !PostfixWith(infix, precedence)[k].Paren?
  {
    ShuntingInv(infix, precedence);
    FlushAllInv(Operands(infix), multiset(Operators(infix)), HasOpen(infix), Shunting(infix, precedence));
  }

  /** One more input token is one more step of the conversion. */
  lemma ShuntingSnoc(s: seq<Token>, t: Token, precedence: Operator -> nat, before: Shunt)
    requires Shunting(s, precedence) == before
    ensures Shunting(s + [t], precedence) == Step(before, t, precedence)
  {
    assert (s + [t])[..|s|] == s;
  }

  /** The tokens of "3 * (5 + 2.8) - X^4" in postfix order. */
  lemma PostfixExample()
    ensures Postfix([Number(3.0), Op(Multiply), Paren(Opened), Number(5.0), Op(Plus), Number(2.8),
                     Paren(Closed), Op(Minus), Variable('X'), Op(Power), Number(4.0), End])
         == [Number(3.0), Number(5.0), Number(2.8), Op(Plus), Op(Multiply),
             Variable('X'), Number(4.0), Op(Power), Op(Minus)]
  {
    PostfixExampleClosing();
    var a11 := Shunt([Number(3.0), Number(5.0), Number(2.8), Op(Plus), Op(Multiply), Variable('X'), Number(4.0)],
                     [Op(Minus), Op(Power)]);
    var a12 := Shunt(a11.output + [Op(Power)], [Op(Minus)]);
    assert MoveTop(a11) == a12;
    assert MoveTop(a12) == Shunt(a12.output + [Op(Minus)], []);
  }

  /** The state after the whole input: '-' and '^' are left on the stack. */
  lemma PostfixExampleClosing()
    ensures Shunting([Number(3.0), Op(Multiply), Paren(Opened), Number(5.0), Op(Plus), Number(2.8),
                      Paren(Closed), Op(Minus), Variable('X'), Op(Power), Number(4.0), End], Precedence)
         == Shunt([Number(3.0), Number(5.0), Number(2.8), Op(Plus), Op(Multiply), Variable('X'), Number(4.0)],
                  [Op(Minus), Op(Power)])
  {
    var pr := Precedence;
    var s9 := [Number(3.0), Op(Multiply), Paren(Opened), Number(5.0), Op(Plus), Number(2.8),
               Paren(Closed), Op(Minus), Variable('X')];
    PostfixExampleMiddle();
    var a9 := Shunt([Number(3.0), Number(5.0), Number(2.8), Op(Plus), Op(Multiply), Variable('X')], [Op(Minus)]);
    var s10 := s9 + [Op(Power)];
    ShuntingSnoc(s9, Op(Power), pr, a9);
    var a10 := Shunt(a9.output, [Op(Minus), Op(Power)]);
    var s11 := s10 + [Number(4.0)];
    ShuntingSnoc(s10, Number(4.0), pr, a10);
    var a11 := Shunt(a9.output + [Number(4.0)], [Op(Minus), Op(Power)]);
    var s12 := s11 + [End];
    ShuntingSnoc(s11, End, pr, a11);
    assert s12 == [Number(3.0), Op(Multiply), Paren(Opened), Number(5.0), Op(Plus), Number(2.8),
                   Paren(Closed), Op(Minus), Variable('X'), Op(Power), Number(4.0), End];
  }

  /** The state after "3 * (5 + 2.8) - X": the parenthesis has emptied
      onto the output, and '-' is stacked. */
  lemma PostfixExampleMiddle()
    ensures Shunting([Number(3.0), Op(Multiply), Paren(Opened), Number(5.0), Op(Plus), Number(2.8),
                      Paren(Closed), Op(Minus), Variable('X')], Precedence)
         == Shunt([Number(3.0), Number(5.0), Number(2.8), Op(Plus), Op(Multiply), Variable('X')], [Op(Minus)])
  {
    var pr := Precedence;
    var s6 := [Number(3.0), Op(Multiply), Paren(Opened), Number(5.0), Op(Plus), Number(2.8)];
    var a6 := Shunt([Number(3.0), Number(5.0), Number(2.8)], [Op(Multiply), Paren(Opened), Op(Plus)]);
    PostfixExampleOpening();
    var s7 := s6 + [Paren(Closed)];
    ShuntingSnoc(s6, Paren(Closed), pr, a6);
    var a7 := Shunt([Number(3.0), Number(5.0), Number(2.8), Op(Plus)], [Op(Multiply)]);
    var s8 := s7 + [Op(Minus)];
    ShuntingSnoc(s7, Op(Minus), pr, a7);
    var a8 := Shunt([Number(3.0), Number(5.0), Number(2.8), Op(Plus), Op(Multiply)], [Op(Minus)]);
    var s9 := s8 + [Variable('X')];
    ShuntingSnoc(s8, Variable('X'), pr, a8);
    assert s9 == [Number(3.0), Op(Multiply), Paren(Opened), Number(5.0), Op(Plus), Number(2.8),
                  Paren(Closed), Op(Minus), Variable('X')];
  }

  /** The state after "3 * (5 + 2.8": operands out, '*', '(' and '+' stacked. */
  lemma PostfixExampleOpening()
    ensures Shunting([Number(3.0), Op(Multiply), Paren(Opened), Number(5.0), Op(Plus), Number(2.8)], Precedence)
         == Shunt([Number(3.0), Number(5.0), Number(2.8)], [Op(Multiply), Paren(Opened), Op(Plus)])
  {
    var pr := Precedence;
    var s0: seq<Token> := [];
    var s1 := s0 + [Number(3.0)];
    ShuntingSnoc(s0, Number(3.0), pr, Shunt([], []));
    var s2 := s1 + [Op(Multiply)];
    ShuntingSnoc(s1, Op(Multiply), pr, Shunt([Number(3.0)], []));
    var a2 := Shunt([Number(3.0)], [Op(Multiply)]);
    var s3 := s2 + [Paren(Opened)];
    ShuntingSnoc(s2, Paren(Opened), pr, a2);
    var a3 := Shunt([Number(3.0)], [Op(Multiply), Paren(Opened)]);
    var s4 := s3 + [Number(5.0)];
    ShuntingSnoc(s3, Number(5.0), pr, a3);
    var a4 := Shunt([Number(3.0), Number(5.0)], [Op(Multiply), Paren(Opened)]);
    var s5 := s4 + [Op(Plus)];
    ShuntingSnoc(s4, Op(Plus), pr, a4);
    var a5 := Shunt([Number(3.0), Number(5.0)], [Op(Multiply), Paren(Opened), Op(Plus)]);
    var s6 := s5 + [Number(2.8)];
    ShuntingSnoc(s5, Number(2.8), pr, a5);
    assert s6 == [Number(3.0), Op(Multiply), Paren(Opened), Number(5.0), Op(Plus), Number(2.8)];
  }

  /** '^' pops an equal '^' before it is pushed, so X^2^3 is (X^2)^3. */
  lemma PowerLeftAssociative()
    ensures Postfix([Variable('X'), Op(Power), Number(2.0), Op(Power), Number(3.0), End])
         == [Variable('X'), Number(2.0), Op(Power), Number(3.0), Op(Power)]
  {
    var pr := Precedence;
    var s3 := [Variable('X'), Op(Power), Number(2.0)];
    PowerPrefix();
    var s4 := s3 + [Op(Power)];
    ShuntingSnoc(s3, Op(Power), pr, Shunt([Variable('X'), Number(2.0)], [Op(Power)]));
    var s5 := s4 + [Number(3.0)];
    ShuntingSnoc(s4, Number(3.0), pr, Shunt([Variable('X'), Number(2.0), Op(Power)], [Op(Power)]));
    var s6 := s5 + [End];
    var last := Shunt([Variable('X'), Number(2.0), Op(Power), Number(3.0)], [Op(Power)]);
    ShuntingSnoc(s5, End, pr, last);
    assert s6 == [Variable('X'), Op(Power), Number(2.0), Op(Power), Number(3.0), End];
    assert FlushAll(last) == last.output + [Op(Power)];
  }

  /** The state after "X^2": X and 2 out, '^' stacked. */
  lemma PowerPrefix()
    ensures Shunting([Variable('X'), Op(Power), Number(2.0)], Precedence) == Shunt([Variable('X'), Number(2.0)], [Op(Power)])
  {
    var pr := Precedence;
    var s0: seq<Token> := [];
    var s1 := s0 + [Variable('X')];
    ShuntingSnoc(s0, Variable('X'), pr, Shunt([], []));
    var s2 := s1 + [Op(Power)];
    ShuntingSnoc(s1, Op(Power), pr, Shunt([Variable('X')], []));
    var s3 := s2 + [Number(2.0)];
    ShuntingSnoc(s2, Number(2.0), pr, Shunt([Variable('X')], [Op(Power)]));
    assert s3 == [Variable('X'), Op(Power), Number(2.0)];
  }

  /** The signed tokens of "1-+X". */
  function MinusPlusX(): seq<Token> {
    [Number(1.0), Op(Minus), Op(SignPlus), Variable('X'), End]
  }

  /** In "1-+X" the '+' after '-' becomes SIGN_PLUS and the '-' stays binary. */
  lemma SignsOfMinusPlusX()
    ensures WithSigns([Number(1.0), Op(Minus), Op(Plus), Variable('X'), End]) == MinusPlusX()
  {
    var t := [Number(1.0), Op(Minus), Op(Plus), Variable('X'), End];
    var w := WithSigns(t);
    assert w[0] == SignedAt(t, 0) == Number(1.0);
    assert w[1] == SignedAt(t, 1) == Op(Minus);
    assert w[2] == SignedAt(t, 2) == Op(SignPlus);
    assert w[3] == SignedAt(t, 3) == Variable('X');
    assert w[4] == SignedAt(t, 4) == End;
  }

  /** As written, SIGN_PLUS (precedence 0) pops the pending '-' before its
      own operand is read, and evaluating the result runs out of operands. */
  lemma SignPlusAsWrittenFails()
    ensures PostfixAsWritten(MinusPlusX()) == [Number(1.0), Op(Minus), Variable('X'), Op(SignPlus)]
    ensures Evaluation(ConvertToItems(PostfixAsWritten(MinusPlusX()))) == Failure(OperandExpected)
  {
    SignPlusAsWrittenShunting();
    var last := Shunt([Number(1.0), Op(Minus), Variable('X')], [Op(SignPlus)]);
    assert MoveTop(last) == Shunt(last.output + [Op(SignPlus)], []);
    var items := ConvertToItems([Number(1.0), Op(Minus), Variable('X'), Op(SignPlus)]);
    assert items == [Operand(P.Constant(1.0)), Operation(Minus)] + [Operand(P.X()), Operation(SignPlus)];
    UnderflowStops(P.Constant(1.0), Minus, [Operand(P.X()), Operation(SignPlus)]);
  }

  lemma SignPlusAsWrittenShunting()
    ensures Shunting(MinusPlusX(), PrecedenceAsWritten) == Shunt([Number(1.0), Op(Minus), Variable('X')], [Op(SignPlus)])
  {
    var pr := PrecedenceAsWritten;
    var s3 := [Number(1.0), Op(Minus), Op(SignPlus)];
    SignPlusAsWrittenPrefix();
    var s4 := s3 + [Variable('X')];
    ShuntingSnoc(s3, Variable('X'), pr, Shunt([Number(1.0), Op(Minus)], [Op(SignPlus)]));
    var s5 := s4 + [End];
    ShuntingSnoc(s4, End, pr, Shunt([Number(1.0), Op(Minus), Variable('X')], [Op(SignPlus)]));
    assert s5 == MinusPlusX();
  }

  /** As written, SIGN_PLUS pops the '-' of "1-+". */
  lemma SignPlusAsWrittenPrefix()
    ensures Shunting([Number(1.0), Op(Minus), Op(SignPlus)], PrecedenceAsWritten) == Shunt([Number(1.0), Op(Minus)], [Op(SignPlus)])
  {
    var pr := PrecedenceAsWritten;
    var s0: seq<Token> := [];
    var s1 := s0 + [Number(1.0)];
    ShuntingSnoc(s0, Number(1.0), pr, Shunt([], []));
    var s2 := s1 + [Op(Minus)];
    ShuntingSnoc(s1, Op(Minus), pr, Shunt([Number(1.0)], []));
    var s3 := s2 + [Op(SignPlus)];
    ShuntingSnoc(s2, Op(SignPlus), pr, Shunt([Number(1.0)], [Op(Minus)]));
    assert s3 == [Number(1.0), Op(Minus), Op(SignPlus)];
  }

  /** With both signs at precedence 3, "1-+X" is 1 - X. */
  lemma SignPlusCorrected()
    ensures Postfix(MinusPlusX()) == [Number(1.0), Variable('X'), Op(SignPlus), Op(Minus)]
    ensures Evaluation(ConvertToItems(Postfix(MinusPlusX()))) == Success(P.Sub(P.Constant(1.0), P.X()))
  {
    SignPlusCorrectedPostfix();
    SignPlusCorrectedEvaluation();
  }

  lemma SignPlusCorrectedPostfix()
    ensures Postfix(MinusPlusX()) == [Number(1.0), Variable('X'), Op(SignPlus), Op(Minus)]
  {
    SignPlusCorrectedShunting();
    var last := Shunt([Number(1.0), Variable('X')], [Op(Minus), Op(SignPlus)]);
    var next := Shunt(last.output + [Op(SignPlus)], [Op(Minus)]);
    assert MoveTop(last) == next;
    assert MoveTop(next) == Shunt(next.output + [Op(Minus)], []);
  }

  /** The postfix 1 X SIGN_PLUS - evaluates to 1 - X. */
  lemma SignPlusCorrectedEvaluation()
    ensures Evaluation(ConvertToItems([Number(1.0), Variable('X'), Op(SignPlus), Op(Minus)]))
         == Success(P.Sub(P.Constant(1.0), P.X()))
  {
    var e := Binary(Minus, Lit(P.Constant(1.0)), Unary(SignPlus, Lit(P.X())));
    assert ConvertToItems([Number(1.0), Variable('X'), Op(SignPlus), Op(Minus)]) == Emit(e);
    EvaluationOfEmit(e);
  }

  lemma SignPlusCorrectedShunting()
    ensures Shunting(MinusPlusX(), Precedence) == Shunt([Number(1.0), Variable('X')], [Op(Minus), Op(SignPlus)])
  {
    var pr := Precedence;
    var s3 := [Number(1.0), Op(Minus), Op(SignPlus)];
    SignPlusCorrectedPrefix();
    var s4 := s3 + [Variable('X')];
    ShuntingSnoc(s3, Variable('X'), pr, Shunt([Number(1.0)], [Op(Minus), Op(SignPlus)]));
    var s5 := s4 + [End];
    ShuntingSnoc(s4, End, pr, Shunt([Number(1.0), Variable('X')], [Op(Minus), Op(SignPlus)]));
    assert s5 == MinusPlusX();
  }

  /** With both signs at precedence 3, SIGN_PLUS is stacked above the '-'
      of "1-+". */
  lemma SignPlusCorrectedPrefix()
    ensures Shunting([Number(1.0), Op(Minus), Op(SignPlus)], Precedence) == Shunt([Number(1.0)], [Op(Minus), Op(SignPlus)])
  {
    var pr := Precedence;
    var s0: seq<Token> := [];
    var s1 := s0 + [Number(1.0)];
    ShuntingSnoc(s0, Number(1.0), pr, Shunt([], []));
    var s2 := s1 + [Op(Minus)];
    ShuntingSnoc(s1, Op(Minus), pr, Shunt([Number(1.0)], []));
    var s3 := s2 + [Op(SignPlus)];
    ShuntingSnoc(s2, Op(SignPlus), pr, Shunt([Number(1.0)], [Op(Minus)]));
    assert s3 == [Number(1.0), Op(Minus), Op(SignPlus)];
  }

  // ---------------------------------------------------------------------
  // Items

  /** `item_t`: a polynomial operand or an operator. */
  datatype Item = Operand(poly: P.Poly) | Operation(op: Operator)

  /** `to_item`: an operator stays an operator, the variable becomes X, a
      number the constant polynomial, and anything else the default item,
      which is the zero polynomial. */
  function ToItem(t: Token): (item: Item)
    ensures item.Operation? <==> t.Op?
    ensures t.Op? ==> item.op == t.op
    ensures t.Variable? ==> item == Operand(P.X())
    ensures t.Number? ==> item == Operand(P.Constant(t.value))
    ensures (t.Paren? || t.End?) ==> item == Operand(P.Zero())
  {
    match t
    case Op(op) => Operation(op)
    case Variable(_) => Operand(P.X())
    case Number(v) => Operand(P.Constant(v))
    case Paren(_) => Operand(P.Zero())
    case End => Operand(P.Zero())
  }

  /** `convert_to_items`: the tokens one by one, in order. */
  function ConvertToItems(tokens: seq<Token>): (items: seq<Item>)
    ensures |items| == |tokens|
    ensures forall i :: 0 <= i < |tokens| ==> items[i] == ToItem(tokens[i])
  {
    seq(|tokens|, i requires 0 <= i < |tokens| => ToItem(tokens[i]))
  }

  // ---------------------------------------------------------------------
  // Operators on polynomials

  /** `is_non_negative_integer`: a constant polynomial whose value is a
      whole number at least zero. */
  predicate IsNonNegativeInteger(q: P.Poly) {
    P.IsConstant(q) && q[0] >= 0.0 && q[0] == q[0].Floor as real
  }

  /** The exponent a valid POWER right operand stands for. */
  function Exponent(q: P.Poly): (n: nat)
    requires IsNonNegativeInteger(q)
    ensures n as real == q[0]
  {
    q[0].Floor
  }

  /** `apply_binary_operator`: the table holds only the five binary
      operators, so a sign has no entry. */
  function ApplyBinary(op: Operator, left: P.Poly, right: P.Poly): (r: Result<P.Poly, Error>)
    requires !op.IsSign()
    ensures r.Failure? <==> (op == Divide && P.IsZero(right)) || (op == Power && !IsNonNegativeInteger(right))
    ensures r.Failure? && op == Divide ==> r.error == DivisionByZero
    ensures r.Failure? && op == Power ==> r.error == InvalidPowerExponent
  {
    match op
    case Plus => Success(P.Add(left, right))
    case Minus => Success(P.Sub(left, right))
    case Multiply => Success(P.Mul(left, right))
    case Divide =>
      if P.IsZero(right) then Failure(DivisionByZero) else Success(P.Quotient(left, right))
    case Power =>
      if IsNonNegativeInteger(right) then Success(P.Pow(left, Exponent(right))) else Failure(InvalidPowerExponent)
  }

  /** What the binary operators mean: +, - and * act on the values at every
      point, / gives the quotient of long division (left = right * quotient +
      remainder, the remainder smaller than the divisor), and ^ raises the
      value to the exponent. */
  lemma ApplyBinaryMeaning(op: Operator, left: P.Poly, right: P.Poly, x: real)
    requires !op.IsSign() && ApplyBinary(op, left, right).Success?
    ensures var v := P.Evaluate(ApplyBinary(op, left, right).value, x);
            var a, b := P.Evaluate(left, x), P.Evaluate(right, x);
            (op == Plus ==> v == a + b) &&
            (op == Minus ==> v == a - b) &&
            (op == Multiply ==> v == a * b) &&
            (op == Power ==> v == P.Power(a, Exponent(right)))
    ensures op == Divide ==>
              exists rem: P.Poly :: left == P.Add(P.Mul(right, ApplyBinary(op, left, right).value), rem) &&
                                    (P.IsZero(rem) || P.Degree(rem) < P.Degree(right))
  {
    match op
    case Plus => P.AddEval(left, right, x);
    case Minus => P.SubEval(left, right, x);
    case Multiply => P.MulEval(left, right, x);
    case Divide =>
    case Power => P.PowEval(left, Exponent(right), x);
  }

  /** `apply_unary_operator`: SIGN_PLUS keeps the operand, SIGN_MINUS
      multiplies it by -1, and any other operator is rejected. */
  function ApplyUnary(op: Operator, operand: P.Poly): (r: Result<P.Poly, Error>)
    ensures r.Failure? <==> !op.IsSign()
    ensures r.Failure? ==> r.error == InvalidOperator
    ensures op == SignPlus ==> r == Success(operand)
  {
    match op
    case SignPlus => Success(operand)
    case SignMinus => Success(P.MulScalar(operand, -1.0))
    case _ => Failure(InvalidOperator)
  }

  /** SIGN_MINUS is negation: every coefficient and every value flips sign. */
  lemma SignMinusNegates(operand: P.Poly, x: real)
    ensures ApplyUnary(SignMinus, operand) == Success(P.Neg(operand))
    ensures P.Evaluate(ApplyUnary(SignMinus, operand).value, x) == -P.Evaluate(operand, x)
  {
    var r := P.MulScalar(operand, -1.0);
    forall i: nat ensures P.Coefficient(r, i) == P.Coefficient(P.Neg(operand), i) {
    }
    P.Ext(r, P.Neg(operand));
    P.NegEval(operand, x);
  }

  // ---------------------------------------------------------------------
  // Evaluation of the postfix items

  /** One item on the stack of polynomials (top last): an operand is pushed;
      an operator pops its right operand, and a binary one then its left
      operand, and pushes the result; a missing operand is OPERAND_EXPECTED. */
  function ApplyItem(item: Item, stack: seq<P.Poly>): (r: Result<seq<P.Poly>, Error>)
    ensures r.Success? ==> |r.value| > 0
    ensures item.Operand? ==> r == Success(stack + [item.poly])
    ensures item.Operation? && |stack| == 0 ==> r == Failure(OperandExpected)
    ensures r.Success? && item.Operation? ==>
              if item.op.IsSign() then |r.value| == |stack| && r.value[..|stack| - 1] == stack[..|stack| - 1]
              else |r.value| == |stack| - 1 && r.value[..|stack| - 2] == stack[..|stack| - 2]
  {
    match item
    case Operand(p) => Success(stack + [p])
    case Operation(op) =>
      if |stack| == 0 then Failure(OperandExpected)
      else
        var right, rest := stack[|stack| - 1], stack[..|stack| - 1];
        if op.IsSign() then
          match ApplyUnary(op, right)
          case Failure(e) => Failure(e)
          case Success(v) => Success(rest + [v])
        else if |rest| == 0 then Failure(OperandExpected)
        else
          match ApplyBinary(op, rest[|rest| - 1], right)
          case Failure(e) => Failure(e)
          case Success(v) => Success(rest[..|rest| - 1] + [v])
  }

  /** The loop of `evaluate`: the items in order, stopping at the first error. */
  function Run(items: seq<Item>, stack: seq<P.Poly>): Result<seq<P.Poly>, Error>
    decreases |items|
  {
    if |items| == 0 then Success(stack)
    else
      match ApplyItem(items[0], stack)
      case Failure(e) => Failure(e)
      case Success(next) => Run(items[1..], next)
  }

  /** `evaluate`: no items is EMPTY_EXPRESSION; otherwise the first error of
      the loop, or the polynomial on top of the stack at the end. */
  function Evaluation(items: seq<Item>): Result<P.Poly, Error> {
    if |items| == 0 then Failure(EmptyExpression)
    else
      match Run(items, [])
      case Failure(e) => Failure(e)
      case Success(stack) =>
        if |stack| == 0 then Failure(OperandExpected) else Success(stack[|stack| - 1])
  }

  /** `evaluate` over a mutable stack of polynomials. */
  method Evaluate(postfix: seq<Item>) returns (r: Result<P.Poly, Error>)
    ensures r == Evaluation(postfix)
  {
    if |postfix| == 0 {
      return Failure(EmptyExpression);
    }
    var stack: seq<P.Poly> := [];
    for i := 0 to |postfix|
      invariant Run(postfix, []) == Run(postfix[i..], stack)
    {
      assert postfix[i..][1..] == postfix[i + 1..];
      match postfix[i] {
        case Operand(p) =>
          stack := stack + [p];
        case Operation(op) =>
          if |stack| == 0 {
            return Failure(OperandExpected);
          }
          var right := stack[|stack| - 1];
          stack := stack[..|stack| - 1];
          if op.IsSign() {
            // A sign never fails, so the error path of `and_then` is dead here.
            var result := ApplyUnary(op, right);
            stack := stack + [result.value];
          } else {
            if |stack| == 0 {
              return Failure(OperandExpected);
            }
            var left := stack[|stack| - 1];
            stack := stack[..|stack| - 1];
            var result := ApplyBinary(op, left, right);
            if result.Failure? {
              return Failure(result.error);
            }
            stack := stack + [result.value];
          }
      }
    }
    assert postfix[|postfix|..] == [];
    if |stack| == 0 {
      return Failure(OperandExpected);
    }
    return Success(stack[|stack| - 1]);
  }

  /** Running two item lists one after the other is running their
      concatenation. */
  lemma {:induction false} RunAppend(a: seq<Item>, b: seq<Item>, stack: seq<P.Poly>)
    ensures Run(a + b, stack) == match Run(a, stack) case Failure(e) => Failure(e) case Success(s) => Run(b, s)
    decreases |a|
  {
    if |a| == 0 {
      assert a + b == b;
    } else {
      assert (a + b)[0] == a[0];
      assert (a + b)[1..] == a[1..] + b;
      match ApplyItem(a[0], stack)
      case Failure(e) =>
      case Success(next) => RunAppend(a[1..], b, next);
    }
  }

  /** Expressions over polynomials: the trees whose postfix form `evaluate`
      reads. */
  datatype Expr = Lit(p: P.Poly) | Unary(op: Operator, arg: Expr) | Binary(op: Operator, left: Expr, right: Expr)

  /** Unary nodes carry signs and binary nodes the other operators. */
  predicate WellFormed(e: Expr) {
    match e
    case Lit(_) => true
    case Unary(op, a) => op.IsSign() && WellFormed(a)
    case Binary(op, l, r) => !op.IsSign() && WellFormed(l) && WellFormed(r)
  }

  /** The postfix items of an expression: operands before their operator. */
  function Emit(e: Expr): (items: seq<Item>)
    ensures |items| > 0
  {
    match e
    case Lit(p) => [Operand(p)]
    case Unary(op, a) => Emit(a) + [Operation(op)]
    case Binary(op, l, r) => Emit(l) + Emit(r) + [Operation(op)]
  }

  /** The value of an expression, the left operand before the right one and
      the first error winning. */
  function Denote(e: Expr): Result<P.Poly, Error>
    requires WellFormed(e)
  {
    match e
    case Lit(p) => Success(p)
    case Unary(op, a) =>
      (match Denote(a)
       case Failure(err) => Failure(err)
       case Success(v) => ApplyUnary(op, v))
    case Binary(op, l, r) =>
      match Denote(l)
      case Failure(err) => Failure(err)
      case Success(vl) =>
        match Denote(r)
        case Failure(err) => Failure(err)
        case Success(vr) => ApplyBinary(op, vl, vr)
  }

  /** Running the postfix form of an expression pushes its value on the
      stack, or stops with its error, whatever stands below and follows. */
  lemma {:induction false} RunEmit(e: Expr, rest: seq<Item>, stack: seq<P.Poly>)
    requires WellFormed(e)
    ensures Run(Emit(e) + rest, stack) ==
            match Denote(e) case Failure(err) => Failure(err) case Success(v) => Run(rest, stack + [v])
  {
    match e {
      case Lit(p) =>
        assert ([Operand(p)] + rest)[1..] == rest;
      case Unary(op, a) =>
        assert Emit(e) + rest == Emit(a) + ([Operation(op)] + rest);
        RunEmit(a, [Operation(op)] + rest, stack);
        if Denote(a).Success? {
          var v := Denote(a).value;
          assert ([Operation(op)] + rest)[1..] == rest;
          assert (stack + [v])[..|stack|] == stack;
        }
      case Binary(op, l, r) =>
        assert Emit(e) + rest == Emit(l) + (Emit(r) + ([Operation(op)] + rest));
        RunEmit(l, Emit(r) + ([Operation(op)] + rest), stack);
        if Denote(l).Success? {
          var vl := Denote(l).value;
          RunEmit(r, [Operation(op)] + rest, stack + [vl]);
          if Denote(r).Success? {
            var vr := Denote(r).value;
            assert ([Operation(op)] + rest)[1..] == rest;
            var st := stack + [vl] + [vr];
            assert st[..|st| - 1] == stack + [vl];
            assert (stack + [vl])[..|stack|] == stack;
          }
        }
    }
  }

  /** `evaluate` computes the value of every well-formed expression from its
      postfix form. */
  lemma EvaluationOfEmit(e: Expr)
    requires WellFormed(e)
    ensures Evaluation(Emit(e)) == Denote(e)
  {
    assert Emit(e) + [] == Emit(e);
    RunEmit(e, [], []);
  }

  /** Only the top of the stack is the result: an expression whose value
      is left below another is ignored. */
  lemma LeftoversIgnored(e1: Expr, e2: Expr)
    requires WellFormed(e1) && WellFormed(e2) && Denote(e1).Success?
    ensures Evaluation(Emit(e1) + Emit(e2)) == Denote(e2)
  {
    var v1 := Denote(e1).value;
    RunEmitFirst(e1, Emit(e2));
    RunEmitOnTop(e2, v1);
  }

  /** A first expression that evaluates leaves just its value on the stack. */
  lemma RunEmitFirst(e: Expr, rest: seq<Item>)
    requires WellFormed(e) && Denote(e).Success?
    ensures Run(Emit(e) + rest, []) == Run(rest, [Denote(e).value])
  {
    RunEmit(e, rest, []);
    assert [] + [Denote(e).value] == [Denote(e).value];
  }

  /** A second expression pushes its value above the first one's. */
  lemma RunEmitOnTop(e: Expr, v1: P.Poly)
    requires WellFormed(e)
    ensures Run(Emit(e), [v1]) ==
            match Denote(e) case Failure(err) => Failure(err) case Success(v) => Success([v1, v])
  {
    RunEmit(e, [], [v1]);
    assert Emit(e) + [] == Emit(e);
    if Denote(e).Success? {
      assert [v1] + [Denote(e).value] == [v1, Denote(e).value];
    }
  }

  /** A binary operator takes the right operand from the top of the stack:
      [a, b, op] is a op b. */
  lemma EvaluationBinary(a: P.Poly, b: P.Poly, op: Operator)
    requires !op.IsSign()
    ensures Evaluation([Operand(a), Operand(b), Operation(op)]) == ApplyBinary(op, a, b)
  {
    var e := Binary(op, Lit(a), Lit(b));
    assert Emit(e) == [Operand(a), Operand(b), Operation(op)];
    assert WellFormed(e) && Denote(e) == ApplyBinary(op, a, b);
    EvaluationOfEmit(e);
  }

  /** Running out of operands ends the evaluation, whatever follows. */
  lemma UnderflowStops(a: P.Poly, op: Operator, rest: seq<Item>)
    requires !op.IsSign()
    ensures Evaluation([Operand(a), Operation(op)] + rest) == Failure(OperandExpected)
  {
    var none: seq<P.Poly> := [];
    assert none + [a] == [a];
    assert [Operand(a), Operation(op)][1..] == [Operation(op)];
    assert ApplyItem(Operation(op), [a]) == Failure(OperandExpected);
    assert Run([Operation(op)], [a]) == Failure(OperandExpected);
    assert Run([Operand(a), Operation(op)], none) == Failure(OperandExpected);
    RunAppend([Operand(a), Operation(op)], rest, none);
  }

  /** An operator short of operands is OPERAND_EXPECTED. */
  lemma EvaluationUnderflow(a: P.Poly, op: Operator)
    ensures Evaluation([Operation(op)]) == Failure(OperandExpected)
    ensures !op.IsSign() ==> Evaluation([Operand(a), Operation(op)]) == Failure(OperandExpected)
  {
    LoneOperatorUnderflow(op);
    if !op.IsSign() {
      UnderflowStops(a, op, []);
      assert [Operand(a), Operation(op)] + [] == [Operand(a), Operation(op)];
    }
  }

  /** An operator on an empty stack is OPERAND_EXPECTED. */
  lemma LoneOperatorUnderflow(op: Operator)
    ensures Evaluation([Operation(op)]) == Failure(OperandExpected)
  {
    var none: seq<P.Poly> := [];
    assert ApplyItem(Operation(op), none) == Failure(OperandExpected);
  }

  /** The errors of the evaluation loop: a missing operand, a zero divisor
      or a bad exponent. */
  lemma {:induction false} RunErrors(items: seq<Item>, stack: seq<P.Poly>)
    ensures Run(items, stack).Failure? ==> Run(items, stack).error in {OperandExpected, DivisionByZero, InvalidPowerExponent}
    decreases |items|
  {
    if |items| > 0 {
      match ApplyItem(items[0], stack)
      case Failure(e) =>
      case Success(next) => RunErrors(items[1..], next);
    }
  }

  /** The test list of `evaluate`: X 2 ^ 4 + 3 X 4 ^ - * is (X^2 + 4) * (3 - X^4). */
  lemma EvaluationExample()
    ensures Evaluation([Operand(P.X()), Operand(P.Constant(2.0)), Operation(Power), Operand(P.Constant(4.0)), Operation(Plus),
                        Operand(P.Constant(3.0)), Operand(P.X()), Operand(P.Constant(4.0)), Operation(Power), Operation(Minus),
                        Operation(Multiply)])
         == Success(P.Mul(P.Add(P.Pow(P.X(), 2), P.Constant(4.0)), P.Sub(P.Constant(3.0), P.Pow(P.X(), 4))))
  {
    assert Exponent(P.Constant(2.0)) == 2;
    assert Exponent(P.Constant(4.0)) == 4;
    EvaluationShape(P.X(), P.Constant(2.0), P.Constant(4.0), P.Constant(3.0));
  }

  /** The shape of that list for any operands: with whole exponents it
      evaluates in the order the postfix form prescribes. */
  lemma EvaluationShape(x: P.Poly, two: P.Poly, four: P.Poly, three: P.Poly)
    requires IsNonNegativeInteger(two) && IsNonNegativeInteger(four)
    ensures Evaluation([Operand(x), Operand(two), Operation(Power), Operand(four), Operation(Plus),
                        Operand(three), Operand(x), Operand(four), Operation(Power), Operation(Minus),
                        Operation(Multiply)])
         == Success(P.Mul(P.Add(P.Pow(x, Exponent(two)), four), P.Sub(three, P.Pow(x, Exponent(four)))))
  {
    var e := ShapeTree(x, two, four, three);
    ShapeDenote(x, two, four, three);
    ShapeEmit(x, two, four, three);
    EvaluationOfEmit(e);
  }

  function ShapeTree(x: P.Poly, two: P.Poly, four: P.Poly, three: P.Poly): Expr {
    Binary(Multiply, Binary(Plus, Binary(Power, Lit(x), Lit(two)), Lit(four)),
                     Binary(Minus, Lit(three), Binary(Power, Lit(x), Lit(four))))
  }

  lemma ShapeDenote(x: P.Poly, two: P.Poly, four: P.Poly, three: P.Poly)
    requires IsNonNegativeInteger(two) && IsNonNegativeInteger(four)
    ensures WellFormed(ShapeTree(x, two, four, three))
    ensures Denote(ShapeTree(x, two, four, three))
         == Success(P.Mul(P.Add(P.Pow(x, Exponent(two)), four), P.Sub(three, P.Pow(x, Exponent(four)))))
  {
    var x2, x4 := Binary(Power, Lit(x), Lit(two)), Binary(Power, Lit(x), Lit(four));
    DenoteBinary(Power, Lit(x), Lit(two), x, two);
    DenoteBinary(Power, Lit(x), Lit(four), x, four);
    var p2, p4 := P.Pow(x, Exponent(two)), P.Pow(x, Exponent(four));
    DenoteBinary(Plus, x2, Lit(four), p2, four);
    DenoteBinary(Minus, Lit(three), x4, three, p4);
    DenoteBinary(Multiply, Binary(Plus, x2, Lit(four)), Binary(Minus, Lit(three), x4), P.Add(p2, four), P.Sub(three, p4));
  }

  /** The value of a binary node whose operands have values. */
  lemma DenoteBinary(op: Operator, l: Expr, r: Expr, vl: P.Poly, vr: P.Poly)
    requires !op.IsSign() && WellFormed(l) && WellFormed(r)
    requires Denote(l) == Success(vl) && Denote(r) == Success(vr)
    ensures WellFormed(Binary(op, l, r)) && Denote(Binary(op, l, r)) == ApplyBinary(op, vl, vr)
  {
  }

  lemma ShapeEmit(x: P.Poly, two: P.Poly, four: P.Poly, three: P.Poly)
    ensures Emit(ShapeTree(x, two, four, three))
         == [Operand(x), Operand(two), Operation(Power), Operand(four), Operation(Plus),
             Operand(three), Operand(x), Operand(four), Operation(Power), Operation(Minus), Operation(Multiply)]
  {
    assert Emit(Lit(x)) == [Operand(x)] && Emit(Lit(two)) == [Operand(two)];
    assert Emit(Lit(four)) == [Operand(four)] && Emit(Lit(three)) == [Operand(three)];
    var x2, x4 := Binary(Power, Lit(x), Lit(two)), Binary(Power, Lit(x), Lit(four));
    assert Emit(x2) == [Operand(x), Operand(two), Operation(Power)];
    assert Emit(x4) == [Operand(x), Operand(four), Operation(Power)];
    var left, right := Binary(Plus, x2, Lit(four)), Binary(Minus, Lit(three), x4);
    assert Emit(left) == [Operand(x), Operand(two), Operation(Power), Operand(four), Operation(Plus)];
    assert Emit(right) == [Operand(three), Operand(x), Operand(four), Operation(Power), Operation(Minus)];
  }

  // ---------------------------------------------------------------------
  // The pipeline

  /** `parse_polynomial`: tokenize, mark the signs, convert to postfix, turn
      the tokens into items and evaluate, stopping at the first error. */
  function Parse(expression: string, variable: char): (r: Result<P.Poly, Error>)
    ensures |expression| == 0 ==> r == Failure(EmptyExpression)
  {
    match Tokenize(expression, variable)
    case Failure(e) => Failure(e)
    case Success(tokens) => Evaluation(ConvertToItems(Postfix(WithSigns(tokens))))
  }

  /** `parse_polynomial` as written: the variable is lost after a blank and
      SIGN_PLUS has precedence 0. */
  function ParseAsWritten(expression: string, variable: char): (r: Result<P.Poly, Error>)
    ensures |expression| == 0 ==> r == Failure(EmptyExpression)
  {
    match TokenizeAsWritten(expression, variable)
    case Failure(e) =>
      TokenizeAgreesOnX(expression);
      Failure(e)
    case Success(tokens) =>
      TokenizeAgreesOnX(expression);
      Evaluation(ConvertToItems(PostfixAsWritten(WithSigns(tokens))))
  }

  /** `parse_polynomial` over the steps of the library, each a loop over
      its own mutable state. */
  method ParsePolynomial(expression: string, variable: char) returns (r: Result<P.Poly, Error>)
    ensures r == Parse(expression, variable)
  {
    var tokens := Tokenize(expression, variable);
    if tokens.Failure? {
      return Failure(tokens.error);
    }
    var signed := ConvertTokensWithSigns(tokens.value);
    var postfix := ConvertToPostfix(signed);
    r := Evaluate(ConvertToItems(postfix));
  }

  /** The pipeline ends with a scanner error or an evaluation error, and
      never reports an unexpected end: the scanner reaches the end only
      through the end marker and a short stack is OPERAND_EXPECTED. */
  lemma ParseErrors(expression: string, variable: char)
    ensures Parse(expression, variable) != Failure(UnexpectedEnd)
  {
    match Tokenize(expression, variable)
    case Failure(e) =>
    case Success(tokens) =>
      var items := ConvertToItems(Postfix(WithSigns(tokens)));
      RunErrors(items, []);
  }

  /** "1-+X" fails as written and is 1 - X with the corrected table. */
  lemma ParseMinusPlusX()
    ensures ParseAsWritten("1-+X", 'X') == Failure(OperandExpected)
    ensures Parse("1-+X", 'X') == Success(P.Sub(P.Constant(1.0), P.X()))
  {
    TokenizeMinusPlusX("1-+X");
    TokenizeAgreesOnX("1-+X");
    SignsOfMinusPlusX();
    SignPlusAsWrittenFails();
    SignPlusCorrected();
  }

  lemma TokenizeMinusPlusX(s: string)
    requires |s| == 4 && s[0] == '1' && s[1] == '-' && s[2] == '+' && s[3] == 'X'
    ensures Tokenize(s, 'X') == Success([Number(1.0), Op(Minus), Op(Plus), Variable('X'), End])
  {
    TokenizeMinusPlusXFrom1(s);
    DigitStep(s, 0, 'X', 1.0, [Op(Minus)] + ([Op(Plus)] + ([Variable('X')] + [End])));
    Prepended5(Number(1.0), Op(Minus), Op(Plus), Variable('X'), End);
  }

  lemma TokenizeMinusPlusXFrom1(s: string)
    requires |s| == 4 && s[0] == '1' && s[1] == '-' && s[2] == '+' && s[3] == 'X'
    ensures TokenizeFrom(s, 1, 'X') == Success([Op(Minus)] + ([Op(Plus)] + ([Variable('X')] + [End])))
  {
    EndStep(s, 'X');
    VariableStep(s, 3, 'X', [End]);
    OperatorStep(s, 2, 'X', Plus, [Variable('X')] + [End]);
    OperatorStep(s, 1, 'X', Minus, [Op(Plus)] + ([Variable('X')] + [End]));
  }

  // ---------------------------------------------------------------------
  // Expressions written in infix

  /** An expression as it is written: a number, the variable, a
      parenthesised group, a sign inside parentheses, or a binary operator
      between its operands. */
  datatype Term = Num(value: real) | Var | Group(inner: Term) | Signed(negative: bool, arg: Term)
                | Apply(op: Operator, left: Term, right: Term)

  /** How tightly a term binds when it stands as an operand: a binary
      application binds with its operator's precedence, anything else more
      tightly than every operator. */
  function Binding(t: Term): nat {
    if t.Apply? then Precedence(t.op) else 5
  }

  /** The term reads back as written: binary nodes carry binary operators,
      a left operand binds at least as tightly as its operator and a right
      operand strictly more tightly (the operators are left-associative),
      and a sign's operand binds more tightly than the sign. */
  predicate Unambiguous(t: Term) {
    match t
    case Num(_) => true
    case Var => true
    case Group(a) => Unambiguous(a)
    case Signed(_, a) => Binding(a) > 3 && Unambiguous(a)
    case Apply(op, l, r) =>
      !op.IsSign() && Binding(l) >= Precedence(op) && Binding(r) > Precedence(op) &&
      Unambiguous(l) && Unambiguous(r)
  }

  /** The sign operator a written '+' or '-' stands for. */
  function SignOperator(negative: bool, signs: bool): Operator {
    if signs then (if negative then SignMinus else SignPlus) else (if negative then Minus else Plus)
  }

  /** The infix tokens of a term in the variable v; with `signs` the signs
      are already the unary operators that `convert_tokens_with_signs`
      makes of them. */
  function Written(t: Term, v: char, signs: bool): seq<Token> {
    match t
    case Num(c) => [Number(c)]
    case Var => [Variable(v)]
    case Group(a) => [Paren(Opened)] + (Written(a, v, signs) + [Paren(Closed)])
    case Signed(negative, a) => [Paren(Opened), Op(SignOperator(negative, signs))] + (Written(a, v, signs) + [Paren(Closed)])
    case Apply(op, l, r) => Written(l, v, signs) + ([Op(op)] + Written(r, v, signs))
  }

  /** The postfix tokens of a term: operands before their operator. */
  function PostfixOf(t: Term, v: char): seq<Token> {
    match t
    case Num(c) => [Number(c)]
    case Var => [Variable(v)]
    case Group(a) => PostfixOf(a, v)
    case Signed(negative, a) => PostfixOf(a, v) + [Op(SignOperator(negative, true))]
    case Apply(op, l, r) => PostfixOf(l, v) + PostfixOf(r, v) + [Op(op)]
  }

  /** The expression tree a term denotes; an unambiguous term gives a
      well-formed tree. */
  function ExprOf(t: Term): (e: Expr)
    ensures Unambiguous(t) ==> WellFormed(e)
  {
    match t
    case Num(c) => Lit(P.Constant(c))
    case Var => Lit(P.X())
    case Group(a) => ExprOf(a)
    case Signed(negative, a) => Unary(SignOperator(negative, true), ExprOf(a))
    case Apply(op, l, r) => Binary(op, ExprOf(l), ExprOf(r))
  }

  /** The sign rewriting as the loop runs it: the flag says whether the
      previous token was '+', '-' or '('. */
  function SignsFrom(flag: bool, tokens: seq<Token>): seq<Token>
    decreases |tokens|
  {
    if |tokens| == 0 then []
    else
      var t := tokens[0];
      [if IsPlusOrMinus(t) && flag then ToSign(t) else t] + SignsFrom(IsPlusOrMinus(t) || t == Paren(Opened), tokens[1..])
  }

  lemma {:induction false} WithSignsSuffix(tokens: seq<Token>, k: nat)
    requires k <= |tokens|
    ensures WithSigns(tokens)[k..] == SignsFrom(SignPosition(tokens, k), tokens[k..])
    decreases |tokens| - k
  {
    if k < |tokens| {
      WithSignsSuffix(tokens, k + 1);
      assert tokens[k..][1..] == tokens[k + 1..];
      assert WithSigns(tokens)[k..] == [WithSigns(tokens)[k]] + WithSigns(tokens)[k + 1..];
    }
  }

  /** `convert_tokens_with_signs` is the flag-driven pass from a set flag. */
  lemma WithSignsFrom(tokens: seq<Token>)
    ensures WithSigns(tokens) == SignsFrom(true, tokens)
  {
    WithSignsSuffix(tokens, 0);
  }

  /** One token of the pass, then the rest with the updated flag. */
  lemma SignsFromCons(flag: bool, t: Token, rest: seq<Token>)
    ensures SignsFrom(flag, [t] + rest)
         == [if IsPlusOrMinus(t) && flag then ToSign(t) else t] + SignsFrom(IsPlusOrMinus(t) || t == Paren(Opened), rest)
  {
    assert ([t] + rest)[1..] == rest;
  }

  /** The signs of a written term become the unary operators, its binary
      '+' and '-' stay binary, and the flag is clear after it. */
  lemma {:induction false} SignsOfWritten(t: Term, v: char, flag: bool, rest: seq<Token>)
    ensures SignsFrom(flag, Written(t, v, false) + rest) == Written(t, v, true) + SignsFrom(false, rest)
    decreases t, 1
  {
    match t {
      case Num(c) =>
        SignsFromCons(flag, Number(c), rest);
      case Var =>
        SignsFromCons(flag, Variable(v), rest);
      case Group(a) =>
        SignsOfGroup(a, v, flag, rest);
      case Signed(negative, a) =>
        SignsOfSigned(negative, a, v, flag, rest);
      case Apply(op, l, r) =>
        SignsOfApply(op, l, r, v, flag, rest);
    }
  }

  lemma {:induction false} SignsOfGroup(a: Term, v: char, flag: bool, rest: seq<Token>)
    ensures SignsFrom(flag, Written(Group(a), v, false) + rest) == Written(Group(a), v, true) + SignsFrom(false, rest)
    decreases Group(a), 0
  {
    var wa, sa := Written(a, v, false), Written(a, v, true);
    var after := [Paren(Closed)] + rest;
    assert Written(Group(a), v, false) + rest == [Paren(Opened)] + (wa + after);
    SignsFromCons(flag, Paren(Opened), wa + after);
    assert SignsFrom(flag, [Paren(Opened)] + (wa + after)) == [Paren(Opened)] + SignsFrom(true, wa + after);
    SignsOfWritten(a, v, true, after);
    SignsFromCons(false, Paren(Closed), rest);
    assert SignsFrom(false, after) == [Paren(Closed)] + SignsFrom(false, rest);
    assert Written(Group(a), v, true) == [Paren(Opened)] + (sa + [Paren(Closed)]);
  }

  lemma {:induction false} SignsOfSigned(negative: bool, a: Term, v: char, flag: bool, rest: seq<Token>)
    ensures SignsFrom(flag, Written(Signed(negative, a), v, false) + rest) == Written(Signed(negative, a), v, true) + SignsFrom(false, rest)
    decreases Signed(negative, a), 0
  {
    var wa, sa := Written(a, v, false), Written(a, v, true);
    var after := [Paren(Closed)] + rest;
    var sign := Op(SignOperator(negative, false));
    var tail := SignsFrom(false, rest);
    SignedWrittenShape(negative, a, v, false, rest);
    SignsFromCons(flag, Paren(Opened), [sign] + (wa + after));
    SignOfWrittenSign(negative, wa + after);
    SignsOfWritten(a, v, true, after);
    SignsFromCons(false, Paren(Closed), rest);
    assert SignsFrom(false, after) == [Paren(Closed)] + tail;
    SignedWrittenShape(negative, a, v, true, tail);
  }

  /** After '(' a written sign becomes the unary operator. */
  lemma SignOfWrittenSign(negative: bool, rest: seq<Token>)
    ensures SignsFrom(true, [Op(SignOperator(negative, false))] + rest)
         == [Op(SignOperator(negative, true))] + SignsFrom(true, rest)
  {
    SignsFromCons(true, Op(SignOperator(negative, false)), rest);
  }

  lemma SignedWrittenShape(negative: bool, a: Term, v: char, signs: bool, tail: seq<Token>)
    ensures Written(Signed(negative, a), v, signs) + tail
         == [Paren(Opened)] + ([Op(SignOperator(negative, signs))] + (Written(a, v, signs) + ([Paren(Closed)] + tail)))
  {
    var sa := Written(a, v, signs);
    var front := [Paren(Opened), Op(SignOperator(negative, signs))];
    assert Written(Signed(negative, a), v, signs) == front + (sa + [Paren(Closed)]);
    assert front == [Paren(Opened)] + [Op(SignOperator(negative, signs))];
    Associate3(front, sa + [Paren(Closed)], tail);
    Associate3(sa, [Paren(Closed)], tail);
    Associate3([Paren(Opened)], [Op(SignOperator(negative, signs))], sa + ([Paren(Closed)] + tail));
  }

  lemma {:induction false} SignsOfApply(op: Operator, l: Term, r: Term, v: char, flag: bool, rest: seq<Token>)
    ensures SignsFrom(flag, Written(Apply(op, l, r), v, false) + rest) == Written(Apply(op, l, r), v, true) + SignsFrom(false, rest)
    decreases Apply(op, l, r), 0
  {
    var wl, wr := Written(l, v, false), Written(r, v, false);
    var sl, sr := Written(l, v, true), Written(r, v, true);
    var after := [Op(op)] + (wr + rest);
    assert Written(Apply(op, l, r), v, false) + rest == wl + after;
    SignsOfWritten(l, v, flag, after);
    SignsFromCons(false, Op(op), wr + rest);
    assert SignsFrom(false, after) == [Op(op)] + SignsFrom(IsPlusOrMinus(Op(op)), wr + rest);
    SignsOfWritten(r, v, IsPlusOrMinus(Op(op)), rest);
    var tail := SignsFrom(false, rest);
    assert Written(Apply(op, l, r), v, true) == sl + ([Op(op)] + sr);
    Associate3(sl, [Op(op)] + sr, tail);
    Associate3([Op(op)], sr, tail);
  }

  lemma Associate3<T>(a: seq<T>, b: seq<T>, c: seq<T>)
    ensures (a + b) + c == a + (b + c)
  {
  }

  /** The conversion continued from a state over more tokens, first token
      first. */
  function ShuntFrom(st: Shunt, tokens: seq<Token>, precedence: Operator -> nat): Shunt
    decreases |tokens|
  {
    if |tokens| == 0 then st else ShuntFrom(Step(st, tokens[0], precedence), tokens[1..], precedence)
  }

  lemma ShuntFromCons(st: Shunt, t: Token, rest: seq<Token>, precedence: Operator -> nat)
    ensures ShuntFrom(st, [t] + rest, precedence) == ShuntFrom(Step(st, t, precedence), rest, precedence)
  {
    assert ([t] + rest)[1..] == rest;
  }

  lemma {:induction false} ShuntFromSnoc(st: Shunt, tokens: seq<Token>, t: Token, precedence: Operator -> nat)
    ensures ShuntFrom(st, tokens + [t], precedence) == Step(ShuntFrom(st, tokens, precedence), t, precedence)
    decreases |tokens|
  {
    if |tokens| == 0 {
      assert tokens + [t] == [t] + [];
      ShuntFromCons(st, t, [], precedence);
    } else {
      assert tokens + [t] == [tokens[0]] + (tokens[1..] + [t]);
      ShuntFromCons(st, tokens[0], tokens[1..] + [t], precedence);
      ShuntFromSnoc(Step(st, tokens[0], precedence), tokens[1..], t, precedence);
      assert tokens == [tokens[0]] + tokens[1..];
      ShuntFromCons(st, tokens[0], tokens[1..], precedence);
    }
  }

  /** The conversion from the empty state is the left-to-right pass. */
  lemma {:induction false} ShuntingIsShuntFrom(tokens: seq<Token>, precedence: Operator -> nat)
    ensures Shunting(tokens, precedence) == ShuntFrom(Shunt([], []), tokens, precedence)
    decreases |tokens|
  {
    if |tokens| > 0 {
      var init := tokens[..|tokens| - 1];
      ShuntingIsShuntFrom(init, precedence);
      assert init + [tokens[|tokens| - 1]] == tokens;
      ShuntFromSnoc(Shunt([], []), init, tokens[|tokens| - 1], precedence);
    }
  }

  /** A stack read from the top down. */
  function Reversed(s: seq<Token>): (r: seq<Token>)
    ensures |r| == |s|
    decreases |s|
  {
    if |s| == 0 then [] else [s[|s| - 1]] + Reversed(s[..|s| - 1])
  }

  /** Every entry is an operator of precedence at least n. */
  predicate OperatorsFrom(s: seq<Token>, n: nat) {
    forall k :: 0 <= k < |s| ==> s[k].Op? && Precedence(s[k].op) >= n
  }

  /** The top of the stack, if an operator, binds less tightly than n. */
  predicate TopBelow(s: seq<Token>, n: nat) {
    |s| == 0 || !s[|s| - 1].Op? || Precedence(s[|s| - 1].op) < n
  }

  /** An operator moves the operators pending above a looser one. */
  lemma {:induction false} PopPending(output: seq<Token>, s: seq<Token>, pending: seq<Token>, op: Operator)
    requires OperatorsFrom(pending, Precedence(op)) && TopBelow(s, Precedence(op))
    ensures PopOperators(Shunt(output, s + pending), op, Precedence) == Shunt(output + Reversed(pending), s)
    decreases |pending|
  {
    if |pending| == 0 {
      assert s + pending == s;
    } else {
      var n := |pending|;
      var st := Shunt(output, s + pending);
      assert st.stack[|st.stack| - 1] == pending[n - 1];
      assert (s + pending)[..|s + pending| - 1] == s + pending[..n - 1];
      assert MoveTop(st) == Shunt(output + [pending[n - 1]], s + pending[..n - 1]);
      PopPending(output + [pending[n - 1]], s, pending[..n - 1], op);
      Associate3(output, [pending[n - 1]], Reversed(pending[..n - 1]));
    }
  }

  /** A ')' moves the operators pending above its '('. */
  lemma {:induction false} PopPendingToParenthesis(output: seq<Token>, s: seq<Token>, pending: seq<Token>)
    requires forall k :: 0 <= k < |pending| ==> pending[k].Op?
    ensures PopToParenthesis(Shunt(output, s + [Paren(Opened)] + pending)) == Shunt(output + Reversed(pending), s + [Paren(Opened)])
    decreases |pending|
  {
    var base := s + [Paren(Opened)];
    if |pending| == 0 {
      assert base + pending == base;
    } else {
      var n := |pending|;
      var st := Shunt(output, base + pending);
      assert st.stack[|st.stack| - 1] == pending[n - 1];
      assert (base + pending)[..|base + pending| - 1] == base + pending[..n - 1];
      assert MoveTop(st) == Shunt(output + [pending[n - 1]], base + pending[..n - 1]);
      PopPendingToParenthesis(output + [pending[n - 1]], s, pending[..n - 1]);
      Associate3(output, [pending[n - 1]], Reversed(pending[..n - 1]));
    }
  }

  /** The final loop appends the stack from the top down. */
  lemma {:induction false} FlushAllReversed(output: seq<Token>, s: seq<Token>)
    ensures FlushAll(Shunt(output, s)) == output + Reversed(s)
    decreases |s|
  {
    if |s| > 0 {
      FlushAllReversed(output + [s[|s| - 1]], s[..|s| - 1]);
      Associate3(output, [s[|s| - 1]], Reversed(s[..|s| - 1]));
    }
  }

  /** What a term has written to the output once its last token is read. */
  function Output(t: Term, v: char): seq<Token> {
    if t.Apply? then PostfixOf(t.left, v) + Output(t.right, v) else PostfixOf(t, v)
  }

  /** The operators a term leaves on the stack once its last token is read:
      those along its right edge, bottom first. */
  function Pending(t: Term): seq<Token> {
    if t.Apply? then [Op(t.op)] + Pending(t.right) else []
  }

  /** The pending operators bind at least as tightly as the term. */
  lemma {:induction false} PendingOperators(t: Term)
    requires Unambiguous(t)
    ensures OperatorsFrom(Pending(t), Binding(t))
  {
    if t.Apply? {
      PendingOperators(t.right);
      assert forall k :: 1 <= k < |Pending(t)| ==> Pending(t)[k] == Pending(t.right)[k - 1];
    }
  }

  /** The output followed by the pending operators from the top down is the
      postfix form. */
  lemma {:induction false} PostfixSplit(t: Term, v: char)
    ensures PostfixOf(t, v) == Output(t, v) + Reversed(Pending(t))
  {
    if t.Apply? {
      PostfixSplit(t.right, v);
      ReversedCons(Op(t.op), Pending(t.right));
      assert PostfixOf(t.right, v) == Output(t.right, v) + Reversed(Pending(t.right));
      Associate3(PostfixOf(t.left, v), Output(t.right, v), Reversed(Pending(t.right)) + [Op(t.op)]);
      Associate3(Output(t.right, v), Reversed(Pending(t.right)), [Op(t.op)]);
      Associate3(PostfixOf(t.left, v), PostfixOf(t.right, v), [Op(t.op)]);
    } else {
      assert Reversed([]) == [];
    }
  }

  lemma {:induction false} ReversedCons(x: Token, s: seq<Token>)
    ensures Reversed([x] + s) == Reversed(s) + [x]
    decreases |s|
  {
    if |s| == 0 {
      assert [x] + s == [x];
      assert [x][..0] == [];
    } else {
      var xs := [x] + s;
      assert xs[..|xs| - 1] == [x] + s[..|s| - 1];
      ReversedCons(x, s[..|s| - 1]);
    }
  }

  /** Reading a written term from any state whose stack top binds less
      tightly adds the term's output and leaves its pending operators on
      the stack, whatever follows. */
  lemma {:induction false} ShuntWritten(t: Term, v: char, output: seq<Token>, s: seq<Token>, rest: seq<Token>)
    requires Unambiguous(t) && TopBelow(s, Binding(t))
    ensures ShuntFrom(Shunt(output, s), Written(t, v, true) + rest, Precedence)
         == ShuntFrom(Shunt(output + Output(t, v), s + Pending(t)), rest, Precedence)
    decreases t, 1
  {
    match t {
      case Num(c) =>
        ShuntFromCons(Shunt(output, s), Number(c), rest, Precedence);
        assert s + [] == s;
      case Var =>
        ShuntFromCons(Shunt(output, s), Variable(v), rest, Precedence);
        assert s + [] == s;
      case Group(a) =>
        ShuntGroup(a, v, output, s, rest);
        assert s + [] == s;
      case Signed(negative, a) =>
        ShuntSigned(negative, a, v, output, s, rest);
        ShuntSignedClose(negative, a, v, output, s, rest);
        assert s + [] == s;
      case Apply(op, l, r) =>
        ShuntApply(op, l, r, v, output, s, rest);
    }
  }

  lemma {:induction false} ShuntGroup(a: Term, v: char, output: seq<Token>, s: seq<Token>, rest: seq<Token>)
    requires Unambiguous(a)
    ensures ShuntFrom(Shunt(output, s), Written(Group(a), v, true) + rest, Precedence)
         == ShuntFrom(Shunt(output + PostfixOf(a, v), s), rest, Precedence)
    decreases Group(a), 0
  {
    var wa := Written(a, v, true);
    var after := [Paren(Closed)] + rest;
    var open := s + [Paren(Opened)];
    assert Written(Group(a), v, true) + rest == [Paren(Opened)] + (wa + after);
    ShuntFromCons(Shunt(output, s), Paren(Opened), wa + after, Precedence);
    ShuntWritten(a, v, output, open, after);
    ShuntFromCons(Shunt(output + Output(a, v), open + Pending(a)), Paren(Closed), rest, Precedence);
    PendingOperators(a);
    PopPendingToParenthesis(output + Output(a, v), s, Pending(a));
    PostfixSplit(a, v);
    Associate3(output, Output(a, v), Reversed(Pending(a)));
    assert open[..|open| - 1] == s;
  }

  /** Up to its closing parenthesis, a written sign pushes '(' and the sign
      and then the operand's own output and pending operators. */
  lemma {:induction false} ShuntSigned(negative: bool, a: Term, v: char, output: seq<Token>, s: seq<Token>, rest: seq<Token>)
    requires Binding(a) > 3 && Unambiguous(a)
    ensures ShuntFrom(Shunt(output, s), Written(Signed(negative, a), v, true) + rest, Precedence)
         == ShuntFrom(Shunt(output + Output(a, v), ((s + [Paren(Opened)]) + [Op(SignOperator(negative, true))]) + Pending(a)),
                      [Paren(Closed)] + rest, Precedence)
    decreases Signed(negative, a), 0
  {
    var sign := Op(SignOperator(negative, true));
    var wa := Written(a, v, true);
    var after := [Paren(Closed)] + rest;
    var open := s + [Paren(Opened)];
    SignedWrittenShape(negative, a, v, true, rest);
    ShuntFromCons(Shunt(output, s), Paren(Opened), [sign] + (wa + after), Precedence);
    ShuntFromCons(Shunt(output, open), sign, wa + after, Precedence);
    assert PopOperators(Shunt(output, open), sign.op, Precedence) == Shunt(output, open);
    ShuntWritten(a, v, output, open + [sign], after);
  }

  /** The closing parenthesis of a written sign pops the operand's pending
      operators, then the sign, then the '('. */
  lemma ShuntSignedClose(negative: bool, a: Term, v: char, output: seq<Token>, s: seq<Token>, rest: seq<Token>)
    requires Binding(a) > 3 && Unambiguous(a)
    ensures ShuntFrom(Shunt(output + Output(a, v), ((s + [Paren(Opened)]) + [Op(SignOperator(negative, true))]) + Pending(a)),
                      [Paren(Closed)] + rest, Precedence)
         == ShuntFrom(Shunt(output + (PostfixOf(a, v) + [Op(SignOperator(negative, true))]), s), rest, Precedence)
  {
    var sign := Op(SignOperator(negative, true));
    var open := s + [Paren(Opened)];
    var signed := open + [sign];
    ShuntFromCons(Shunt(output + Output(a, v), signed + Pending(a)), Paren(Closed), rest, Precedence);
    PendingOperators(a);
    var pending := [sign] + Pending(a);
    Associate3(open, [sign], Pending(a));
    assert forall k :: 1 <= k < |pending| ==> pending[k] == Pending(a)[k - 1];
    PopPendingToParenthesis(output + Output(a, v), s, pending);
    ReversedCons(sign, Pending(a));
    PostfixSplit(a, v);
    Associate3(Output(a, v), Reversed(Pending(a)), [sign]);
    Associate3(output, Output(a, v), Reversed(Pending(a)) + [sign]);
    assert open[..|open| - 1] == s;
  }

  lemma {:induction false} ShuntApply(op: Operator, l: Term, r: Term, v: char, output: seq<Token>, s: seq<Token>, rest: seq<Token>)
    requires Unambiguous(Apply(op, l, r)) && TopBelow(s, Precedence(op))
    ensures ShuntFrom(Shunt(output, s), Written(Apply(op, l, r), v, true) + rest, Precedence)
         == ShuntFrom(Shunt(output + (PostfixOf(l, v) + Output(r, v)), s + ([Op(op)] + Pending(r))), rest, Precedence)
    decreases Apply(op, l, r), 0
  {
    var wl, wr := Written(l, v, true), Written(r, v, true);
    var after := [Op(op)] + (wr + rest);
    assert Written(Apply(op, l, r), v, true) + rest == wl + after;
    ShuntWritten(l, v, output, s, after);
    var mid := Shunt(output + Output(l, v), s + Pending(l));
    ShuntFromCons(mid, Op(op), wr + rest, Precedence);
    PendingOperators(l);
    PopPending(output + Output(l, v), s, Pending(l), op);
    PostfixSplit(l, v);
    Associate3(output, Output(l, v), Reversed(Pending(l)));
    var pushed := s + [Op(op)];
    ShuntWritten(r, v, output + PostfixOf(l, v), pushed, rest);
    Associate3(output, PostfixOf(l, v), Output(r, v));
    Associate3(s, [Op(op)], Pending(r));
  }

  /** The conversion of a written term and the end marker is its postfix
      form. */
  lemma PostfixOfWritten(t: Term, v: char)
    requires Unambiguous(t)
    ensures Postfix(Written(t, v, true) + [End]) == PostfixOf(t, v)
  {
    var w := Written(t, v, true) + [End];
    ShuntingIsShuntFrom(w, Precedence);
    ShuntWritten(t, v, [], [], [End]);
    var last := Shunt([] + Output(t, v), [] + Pending(t));
    ShuntFromCons(last, End, [], Precedence);
    assert [] + Output(t, v) == Output(t, v) && [] + Pending(t) == Pending(t);
    FlushAllReversed(Output(t, v), Pending(t));
    PostfixSplit(t, v);
  }

  lemma ConvertToItemsAppend(a: seq<Token>, b: seq<Token>)
    ensures ConvertToItems(a + b) == ConvertToItems(a) + ConvertToItems(b)
  {
  }

  /** The items of a term's postfix form are those of its expression tree. */
  lemma {:induction false} ItemsOfPostfix(t: Term, v: char)
    ensures ConvertToItems(PostfixOf(t, v)) == Emit(ExprOf(t))
  {
    match t {
      case Num(c) =>
      case Var =>
      case Group(a) =>
        ItemsOfPostfix(a, v);
      case Signed(negative, a) =>
        ItemsOfPostfix(a, v);
        ConvertToItemsAppend(PostfixOf(a, v), [Op(SignOperator(negative, true))]);
      case Apply(op, l, r) =>
        ItemsOfPostfix(l, v);
        ItemsOfPostfix(r, v);
        ConvertToItemsAppend(PostfixOf(l, v) + PostfixOf(r, v), [Op(op)]);
        ConvertToItemsAppend(PostfixOf(l, v), PostfixOf(r, v));
    }
  }

  /** The pipeline after the scanner evaluates every expression written
      with the table's precedences: the infix tokens of a term, its signs
      written '+' and '-', give the value of the term's expression tree. */
  lemma ParseTokensOfTerm(t: Term, v: char)
    requires Unambiguous(t)
    ensures Evaluation(ConvertToItems(Postfix(WithSigns(Written(t, v, false) + [End])))) == Denote(ExprOf(t))
  {
    WithSignsFrom(Written(t, v, false) + [End]);
    SignsOfWritten(t, v, true, [End]);
    SignsFromCons(false, End, []);
    PostfixOfWritten(t, v);
    ItemsOfPostfix(t, v);
    EvaluationOfEmit(ExprOf(t));
  }

  /** `parse_polynomial` of an expression whose tokens are those of a term
      is the value of the term. */
  lemma ParseOfTerm(expression: string, variable: char, t: Term)
    requires Unambiguous(t)
    requires Tokenize(expression, variable) == Success(Written(t, variable, false) + [End])
    ensures Parse(expression, variable) == Denote(ExprOf(t))
  {
    ParseTokensOfTerm(t, variable);
  }

  /** The library's examples: "5 - 6" is -1. */
  lemma ParseFiveMinusSix()
    ensures Parse("5 - 6", 'X') == Success(P.Neg(P.One()))
  {
    ParseFiveMinusSixOf("5 - 6");
  }

  lemma ParseFiveMinusSixOf(s: string)
    requires |s| == 5 && s[0] == '5' && s[1] == ' ' && s[2] == '-' && s[3] == ' ' && s[4] == '6'
    ensures Parse(s, 'X') == Success(P.Neg(P.One()))
  {
    var t := Apply(Minus, Num(5.0), Num(6.0));
    TokenizeFiveMinusSix(s);
    assert Written(t, 'X', false) + [End] == [Number(5.0), Op(Minus), Number(6.0), End];
    ParseOfTerm(s, 'X', t);
    FiveMinusSixDenotes(t);
  }

  lemma FiveMinusSixDenotes(t: Term)
    requires t == Apply(Minus, Num(5.0), Num(6.0))
    ensures Denote(ExprOf(t)) == Success(P.Neg(P.One()))
  {
    var d := P.Sub(P.Constant(5.0), P.Constant(6.0));
    forall i: nat ensures P.Coefficient(d, i) == P.Coefficient(P.Neg(P.One()), i) {
    }
    P.Ext(d, P.Neg(P.One()));
  }

  lemma TokenizeFiveMinusSix(s: string)
    requires |s| == 5 && s[0] == '5' && s[1] == ' ' && s[2] == '-' && s[3] == ' ' && s[4] == '6'
    ensures Tokenize(s, 'X') == Success([Number(5.0), Op(Minus), Number(6.0), End])
  {
    var r2 := [Op(Minus), Number(6.0), End];
    TokenizeMinusSix(s);
    BlankStep(s, 1, 'X', r2);
    DigitStep(s, 0, 'X', 5.0, r2);
    assert [Number(5.0)] + r2 == [Number(5.0), Op(Minus), Number(6.0), End];
  }

  /** The tokens of "- 6" at the end of "5 - 6". */
  lemma TokenizeMinusSix(s: string)
    requires |s| == 5 && s[2] == '-' && s[3] == ' ' && s[4] == '6'
    ensures TokenizeFrom(s, 2, 'X') == Success([Op(Minus), Number(6.0), End])
  {
    EndStep(s, 'X');
    DigitStep(s, 4, 'X', 6.0, [End]);
    BlankStep(s, 3, 'X', [Number(6.0)] + [End]);
    OperatorStep(s, 2, 'X', Minus, [Number(6.0)] + [End]);
    assert [Op(Minus)] + ([Number(6.0)] + [End]) == [Op(Minus), Number(6.0), End];
  }

  /** "3*X + 5" is 3X + 5: '*' binds more tightly than '+'. */
  lemma ParseThreeXPlusFive()
    ensures Parse("3*X + 5", 'X') == Success(P.AddScalar(P.MulScalar(P.X(), 3.0), 5.0))
  {
    ParseThreeXPlusFiveOf("3*X + 5");
  }

  lemma ParseThreeXPlusFiveOf(s: string)
    requires |s| == 7 && s[0] == '3' && s[1] == '*' && s[2] == 'X' && s[3] == ' ' && s[4] == '+' && s[5] == ' ' && s[6] == '5'
    ensures Parse(s, 'X') == Success(P.AddScalar(P.MulScalar(P.X(), 3.0), 5.0))
  {
    var t := Apply(Plus, Apply(Multiply, Num(3.0), Var), Num(5.0));
    var tokens := [Number(3.0), Op(Multiply), Variable('X'), Op(Plus), Number(5.0), End];
    TokenizeThreeXPlusFive(s);
    assert Written(t, 'X', false) + [End] == tokens;
    ParseOfTerm(s, 'X', t);
    ThreeXPlusFiveDenotes(t);
  }

  lemma ThreeXPlusFiveDenotes(t: Term)
    requires t == Apply(Plus, Apply(Multiply, Num(3.0), Var), Num(5.0))
    ensures Denote(ExprOf(t)) == Success(P.AddScalar(P.MulScalar(P.X(), 3.0), 5.0))
  {
    P.MulScalarIsMulConstant(P.X(), 3.0);
  }

  lemma TokenizeThreeXPlusFive(s: string)
    requires |s| == 7 && s[0] == '3' && s[1] == '*' && s[2] == 'X' && s[3] == ' ' && s[4] == '+' && s[5] == ' ' && s[6] == '5'
    ensures Tokenize(s, 'X') == Success([Number(3.0), Op(Multiply), Variable('X'), Op(Plus), Number(5.0), End])
  {
    var r1 := [Op(Multiply), Variable('X'), Op(Plus), Number(5.0), End];
    TokenizeTimesX(s);
    DigitStep(s, 0, 'X', 3.0, r1);
    assert [Number(3.0)] + r1 == [Number(3.0), Op(Multiply), Variable('X'), Op(Plus), Number(5.0), End];
  }

  /** The tokens of "*X + 5" at the end of "3*X + 5". */
  lemma TokenizeTimesX(s: string)
    requires |s| == 7 && s[1] == '*' && s[2] == 'X' && s[3] == ' ' && s[4] == '+' && s[5] == ' ' && s[6] == '5'
    ensures TokenizeFrom(s, 1, 'X') == Success([Op(Multiply), Variable('X'), Op(Plus), Number(5.0), End])
  {
    var r4 := [Op(Plus), Number(5.0), End];
    TokenizePlusFive(s);
    BlankStep(s, 3, 'X', r4);
    var r2 := [Variable('X')] + r4;
    VariableStep(s, 2, 'X', r4);
    OperatorStep(s, 1, 'X', Multiply, r2);
    assert [Op(Multiply)] + r2 == [Op(Multiply), Variable('X'), Op(Plus), Number(5.0), End];
  }

  /** The tokens of "+ 5" at the end of "3*X + 5". */
  lemma TokenizePlusFive(s: string)
    requires |s| == 7 && s[4] == '+' && s[5] == ' ' && s[6] == '5'
    ensures TokenizeFrom(s, 4, 'X') == Success([Op(Plus), Number(5.0), End])
  {
    EndStep(s, 'X');
    DigitStep(s, 6, 'X', 5.0, [End]);
    BlankStep(s, 5, 'X', [Number(5.0)] + [End]);
    OperatorStep(s, 4, 'X', Plus, [Number(5.0)] + [End]);
    assert [Op(Plus)] + ([Number(5.0)] + [End]) == [Op(Plus), Number(5.0), End];
  }

  /** "X^9 / X^2" is X^7: '^' binds more tightly than '/', and the
      division is exact. */
  lemma ParseNinthOverSquare()
    ensures Parse("X^9 / X^2", 'X') == Success(P.Pow(P.X(), 7))
  {
    ParseNinthOverSquareOf("X^9 / X^2");
  }

  lemma ParseNinthOverSquareOf(s: string)
    requires |s| == 9 && s[0] == 'X' && s[1] == '^' && s[2] == '9' && s[3] == ' ' && s[4] == '/'
    requires s[5] == ' ' && s[6] == 'X' && s[7] == '^' && s[8] == '2'
    ensures Parse(s, 'X') == Success(P.Pow(P.X(), 7))
  {
    var t := Apply(Divide, Apply(Power, Var, Num(9.0)), Apply(Power, Var, Num(2.0)));
    var tokens := [Variable('X'), Op(Power), Number(9.0), Op(Divide), Variable('X'), Op(Power), Number(2.0), End];
    TokenizeNinthOverSquare(s);
    assert Written(t, 'X', false) + [End] == tokens;
    ParseOfTerm(s, 'X', t);
    NinthOverSquareDenotes(t);
  }

  lemma NinthOverSquareDenotes(t: Term)
    requires t == Apply(Divide, Apply(Power, Var, Num(9.0)), Apply(Power, Var, Num(2.0)))
    ensures Denote(ExprOf(t)) == Success(P.Pow(P.X(), 7))
  {
    PowersQuotientDenotes(t, 2, 7);
  }

  /** "X^(m+n) / X^m" denotes X^n. */
  lemma PowersQuotientDenotes(t: Term, m: nat, n: nat)
    requires t == Apply(Divide, Apply(Power, Var, Num((m + n) as real)), Apply(Power, Var, Num(m as real)))
    ensures Unambiguous(t)
    ensures Denote(ExprOf(t)) == Success(P.Pow(P.X(), n))
  {
    QuotientDenotes(t, m, n);
    QuotientOfPowers(P.X(), m, n);
  }

  /** "X^(m+n) / X^m" denotes the quotient of X^(m+n) by X^m. */
  lemma QuotientDenotes(t: Term, m: nat, n: nat)
    requires t == Apply(Divide, Apply(Power, Var, Num((m + n) as real)), Apply(Power, Var, Num(m as real)))
    ensures Unambiguous(t) && !P.IsZero(P.Pow(P.X(), m))
    ensures Denote(ExprOf(t)) == Success(P.Quotient(P.Pow(P.X(), m + n), P.Pow(P.X(), m)))
  {
    PowerOfVariableDenotes(m + n);
    PowerOfVariableDenotes(m);
    PowerOfVariableNonZero(m);
    DivisionDenotes(Apply(Power, Var, Num((m + n) as real)), Apply(Power, Var, Num(m as real)),
                    P.Pow(P.X(), m + n), P.Pow(P.X(), m));
  }

  /** A division of two powers whose operands denote a and a non-zero d
      denotes the quotient of a by d. */
  lemma DivisionDenotes(l: Term, r: Term, a: P.Poly, d: P.Poly)
    requires l.Apply? && l.op == Power && r.Apply? && r.op == Power
    requires Unambiguous(l) && Unambiguous(r)
    requires Denote(ExprOf(l)) == Success(a) && Denote(ExprOf(r)) == Success(d) && !P.IsZero(d)
    ensures Unambiguous(Apply(Divide, l, r))
    ensures Denote(ExprOf(Apply(Divide, l, r))) == Success(P.Quotient(a, d))
  {
    assert ExprOf(Apply(Divide, l, r)) == Binary(Divide, ExprOf(l), ExprOf(r));
  }

  lemma PowerOfVariableNonZero(k: nat)
    ensures !P.IsZero(P.Pow(P.X(), k))
  {
    assert |P.X()| == 2;
    P.PowDegree(P.X(), k);
  }

  /** "X^k" denotes X^k. */
  lemma PowerOfVariableDenotes(k: nat)
    ensures Unambiguous(Apply(Power, Var, Num(k as real)))
    ensures Denote(ExprOf(Apply(Power, Var, Num(k as real)))) == Success(P.Pow(P.X(), k))
  {
    assert Exponent(P.Constant(k as real)) == k;
  }

  /** p^(m+n) = p^m * p^n exactly, so p^(m+n) / p^m is p^n. */
  lemma QuotientOfPowers(p: P.Poly, m: nat, n: nat)
    requires !P.IsZero(P.Pow(p, m))
    ensures P.Quotient(P.Pow(p, m + n), P.Pow(p, m)) == P.Pow(p, n)
  {
    P.PowAdd(p, m, n);
    P.AddZero(P.Mul(P.Pow(p, m), P.Pow(p, n)));
    P.DivideUnique(P.Pow(p, m + n), P.Pow(p, m), P.Pow(p, n), P.Zero());
  }

  lemma TokenizeNinthOverSquare(s: string)
    requires |s| == 9 && s[0] == 'X' && s[1] == '^' && s[2] == '9' && s[3] == ' ' && s[4] == '/'
    requires s[5] == ' ' && s[6] == 'X' && s[7] == '^' && s[8] == '2'
    ensures Tokenize(s, 'X') == Success([Variable('X'), Op(Power), Number(9.0), Op(Divide), Variable('X'), Op(Power), Number(2.0), End])
  {
    var r1 := [Op(Power), Number(9.0), Op(Divide), Variable('X'), Op(Power), Number(2.0), End];
    TokenizeNinthPower(s);
    VariableStep(s, 0, 'X', r1);
    assert [Variable('X')] + r1 == [Variable('X'), Op(Power), Number(9.0), Op(Divide), Variable('X'), Op(Power), Number(2.0), End];
  }

  lemma TokenizeNinthPower(s: string)
    requires |s| == 9 && s[1] == '^' && s[2] == '9' && s[3] == ' ' && s[4] == '/'
    requires s[5] == ' ' && s[6] == 'X' && s[7] == '^' && s[8] == '2'
    ensures TokenizeFrom(s, 1, 'X') == Success([Op(Power), Number(9.0), Op(Divide), Variable('X'), Op(Power), Number(2.0), End])
  {
    var r2 := [Number(9.0), Op(Divide), Variable('X'), Op(Power), Number(2.0), End];
    TokenizeNinthFrom(s);
    OperatorStep(s, 1, 'X', Power, r2);
    assert [Op(Power)] + r2 == [Op(Power), Number(9.0), Op(Divide), Variable('X'), Op(Power), Number(2.0), End];
  }

  /** The tokens of "9 / X^2" at the end of "X^9 / X^2". */
  lemma TokenizeNinthFrom(s: string)
    requires |s| == 9 && s[2] == '9' && s[3] == ' ' && s[4] == '/'
    requires s[5] == ' ' && s[6] == 'X' && s[7] == '^' && s[8] == '2'
    ensures TokenizeFrom(s, 2, 'X') == Success([Number(9.0), Op(Divide), Variable('X'), Op(Power), Number(2.0), End])
  {
    var r4 := [Op(Divide), Variable('X'), Op(Power), Number(2.0), End];
    TokenizeOverSquare(s);
    BlankStep(s, 3, 'X', r4);
    DigitStep(s, 2, 'X', 9.0, r4);
    assert [Number(9.0)] + r4 == [Number(9.0), Op(Divide), Variable('X'), Op(Power), Number(2.0), End];
  }

  /** The tokens of "/ X^2" at the end of "X^9 / X^2". */
  lemma TokenizeOverSquare(s: string)
    requires |s| == 9 && s[4] == '/' && s[5] == ' ' && s[6] == 'X' && s[7] == '^' && s[8] == '2'
    ensures TokenizeFrom(s, 4, 'X') == Success([Op(Divide), Variable('X'), Op(Power), Number(2.0), End])
  {
    var r6 := [Variable('X'), Op(Power), Number(2.0), End];
    TokenizeSquare(s);
    BlankStep(s, 5, 'X', r6);
    OperatorStep(s, 4, 'X', Divide, r6);
    assert [Op(Divide)] + r6 == [Op(Divide), Variable('X'), Op(Power), Number(2.0), End];
  }

  /** The tokens of "X^2" at the end of "X^9 / X^2". */
  lemma TokenizeSquare(s: string)
    requires |s| == 9 && s[6] == 'X' && s[7] == '^' && s[8] == '2'
    ensures TokenizeFrom(s, 6, 'X') == Success([Variable('X'), Op(Power), Number(2.0), End])
  {
    EndStep(s, 'X');
    var r8 := [Number(2.0)] + [End];
    DigitStep(s, 8, 'X', 2.0, [End]);
    var r7 := [Op(Power)] + r8;
    OperatorStep(s, 7, 'X', Power, r8);
    VariableStep(s, 6, 'X', r7);
    assert [Variable('X')] + r7 == [Variable('X'), Op(Power), Number(2.0), End];
  }
}
