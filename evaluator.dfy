// The shunting-yard parser of arvevaluator.c (parse_to_stacks and
// parse_expression) and the ArvEvaluator object that caches its result.
//
// The parser state of the source keeps the output as a list it prepends
// to and reverses at the end; here the output is kept in order. The
// operator stack has its top last. The garbage list, which only holds the
// commas and parentheses until they are freed, and the token count, which
// is only logged, are not modelled.
module Evaluator {
  import opened Common
  import opened EvaluatorToken
  import opened EvaluatorLexer
  import opened EvaluatorEval
  import ArvValue

  /** The two name tables the parser looks variables up in. The source's
      tables never hold NULL values (setting NULL removes the entry), so
      the UNKNOWN_CONSTANT and UNKNOWN_SUB_EXPRESSION branches cannot be
      taken and are not modelled. */
  datatype Names = Names(constants: map<string, string>, subExpressions: map<string, string>)

  /** ArvEvaluatorParserState: the output so far, the operator stack (top
      last) and the previous token, which the lexer needs for unary minus. */
  datatype ParserState = ParserState(output: seq<Token>, operators: seq<Token>, previous: Option<Token>)

  datatype ParseResult = Parsed(state: ParserState) | Failed(status: Status)

  const EMPTY_STATE := ParserState([], [], None)

  function Top(ops: seq<Token>): Token
    requires |ops| > 0
  {
    ops[|ops| - 1]
  }

  // ---------------------------------------------------------------------
  // Moving operators to the output

  /** Moves operators from the top of the stack to the output, top first,
      as long as `pops` holds for the top one (see PopWhileSpec). */
  function PopWhile(pops: Token -> bool, output: seq<Token>, ops: seq<Token>): (seq<Token>, seq<Token>)
    decreases |ops|
  {
    if |ops| == 0 || !pops(Top(ops)) then (output, ops)
    else PopWhile(pops, output + [Top(ops)], ops[..|ops| - 1])
  }

  /** What stays is a bottom part of the stack whose top does not pop;
      what goes to the output is the rest, every token of which pops, in
      reverse order. */
  lemma {:induction false} PopWhileSpec(pops: Token -> bool, output: seq<Token>, ops: seq<Token>)
    ensures var r := PopWhile(pops, output, ops);
      |r.1| <= |ops| && r.1 == ops[..|r.1|]
      && (r.1 == [] || !pops(Top(r.1)))
      && (forall i :: |r.1| <= i < |ops| ==> pops(ops[i]))
      && r.0 == output + Reversed(ops[|r.1|..])
    decreases |ops|
  {
    if |ops| == 0 || !pops(Top(ops)) {
      assert ops[|ops|..] == [];
      assert ops[..|ops|] == ops;
    } else {
      var t := Top(ops);
      var rest := ops[..|ops| - 1];
      PopWhileSpec(pops, output + [t], rest);
      var r := PopWhile(pops, output + [t], rest);
      assert PopWhile(pops, output, ops) == r;
      var k := |r.1|;
      assert ops[..k] == rest[..k];
      assert ops[k..] == rest[k..] + [t];
      assert forall i :: k <= i < |ops| ==> pops(ops[i]) by {
        assert forall i :: k <= i < |rest| ==> ops[i] == rest[i];
      }
      assert r.0 == output + Reversed(ops[k..]) by {
        ReversedSnoc(rest[k..], t);
        assert output + [t] + Reversed(rest[k..]) == output + ([t] + Reversed(rest[k..]));
      }
    }
  }

  /** Down to the nearest left parenthesis, which stays on the stack. */
  function AboveParenthesis(): Token -> bool { (u: Token) => u.id != LeftParenthesis }

  /** The operators the new operator t yields to
      (arv_evaluator_token_compare_precedence). */
  function YieldsTo(t: Token): Token -> bool { (u: Token) => ComparePrecedence(Some(t), Some(u)) }

  // ---------------------------------------------------------------------
  // parse_to_stacks

  /** What parse_to_stacks does with a token that is not a name found in
      one of the tables: operands go to the output, operators wait on the
      stack, a comma or a right parenthesis empties the stack down to the
      matching left parenthesis, which a right parenthesis also removes. */
  function Shunt(t: Token, st: ParserState): (r: ParseResult)
  {
    if IsOperand(Some(t)) then
      Parsed(ParserState(st.output + [t], st.operators, Some(t)))
    else if IsComma(Some(t)) then
      var (output, ops) := PopWhile(AboveParenthesis(), st.output, st.operators);
      if ops == [] then Failed(ParenthesesMismatch)
      else Parsed(ParserState(output, ops, Some(t)))
    else if IsOperator(Some(t)) then
      var (output, ops) := PopWhile(YieldsTo(t), st.output, st.operators);
      Parsed(ParserState(output, ops + [t], Some(t)))
    else if IsLeftParenthesis(Some(t)) then
      Parsed(ParserState(st.output, st.operators + [t], Some(t)))
    else if IsRightParenthesis(Some(t)) then
      var (output, ops) := PopWhile(AboveParenthesis(), st.output, st.operators);
      if ops == [] then Failed(ParenthesesMismatch)
      else Parsed(ParserState(output, ops[..|ops| - 1], Some(t)))
    else
      Failed(SyntaxError)
  }

  predicate IsConstant(names: Names, t: Token)
  {
    t.id == Variable && t.data.NameData? && t.data.name in names.constants
  }

  predicate IsSubExpression(names: Names, t: Token)
  {
    t.id == Variable && t.data.NameData? && t.data.name in names.subExpressions
  }

  /** The text a sub-expression is parsed from: its formula in parentheses. */
  function Parenthesized(formula: string): string { "(" + formula + ")" }

  /** parse_to_stacks on s from position pos. A constant is replaced by the
      first token of its text (none at all ends the parse); a sub-expression
      is parsed in place, in parentheses, and may not name another one. */
  function ParseFrom(names: Names, s: string, pos: nat, inSub: bool, st: ParserState): (r: ParseResult)
    requires pos <= |s|
    ensures r.Failed? ==> r.status in {SyntaxError, ParenthesesMismatch, ForbiddenRecursion}
    decreases if inSub then 0 else 1, |s| - pos
  {
    var (token, next) := NextToken(s, pos, st.previous);
    if token.None? then
      if At(s, next) != '\0' then Failed(SyntaxError) else Parsed(st.(previous := None))
    else
      var t := token.value;
      if IsConstant(names, t) then
        var c := NextToken(names.constants[t.data.name], 0, None).0;
        if c.None? then Parsed(st.(previous := None))
        else ParseFrom(names, s, next, inSub, ParserState(st.output + [c.value], st.operators, c))
      else if IsSubExpression(names, t) then
        if inSub then Failed(ForbiddenRecursion)
        else
          match ParseFrom(names, Parenthesized(names.subExpressions[t.data.name]), 0, true, st)
          case Failed(e) => Failed(e)
          case Parsed(inner) => ParseFrom(names, s, next, inSub, inner.(previous := token))
      else
        match Shunt(t, st)
        case Failed(e) => Failed(e)
        case Parsed(st') => ParseFrom(names, s, next, inSub, st')
  }

  predicate HasLeftParenthesis(ops: seq<Token>)
  {
    exists i :: 0 <= i < |ops| && ops[i].id == LeftParenthesis
  }

  /** The end of parse_expression: the operators left on the stack go to
      the output, top first, unless one of them is a left parenthesis. */
  function Finish(r: ParseResult): (p: (Status, seq<Token>))
    requires r.Failed? ==> r.status != Success
    ensures p.0 == Success <==> p.1 != []
    ensures r.Failed? ==> p == (r.status, [])
  {
    match r
    case Failed(e) => (e, [])
    case Parsed(st) =>
      var (rpn, rest) := PopWhile(AboveParenthesis(), st.output, st.operators);
      if rest != [] then (ParenthesesMismatch, [])
      else (if rpn == [] then EmptyExpression else Success, rpn)
  }

  /** The status and the RPN list of parse_expression; the list is empty
      on any error. A NULL expression is an empty one. */
  function ParseExpression(names: Names, expression: Option<string>): (r: (Status, seq<Token>))
    ensures r.0 == Success <==> r.1 != []
  {
    if expression.None? then (EmptyExpression, [])
    else Finish(ParseFrom(names, expression.value, 0, false, EMPTY_STATE))
  }

  /** What evaluate_as_int64 returns for a parse: the parse error with the
      value 0, or the run of the list. */
  function Result(status: Status, rpn: seq<Token>, variables: map<string, ArvValue.Value>): (o: Outcome)
    ensures status != Success ==> o == Outcome(status, 0)
  {
    if status != Success then Outcome(status, 0) else Run(rpn, variables)
  }

  /** Parsing and evaluating an expression afresh. */
  function Evaluation(names: Names, expression: Option<string>, variables: map<string, ArvValue.Value>): Outcome
  {
    var (status, rpn) := ParseExpression(names, expression);
    Result(status, rpn, variables)
  }

  // ---------------------------------------------------------------------
  // The parser, with its loops

  method PopWhileLoop(pops: Token -> bool, output0: seq<Token>, ops0: seq<Token>) returns (output: seq<Token>, ops: seq<Token>)
    ensures (output, ops) == PopWhile(pops, output0, ops0)
  {
    output, ops := output0, ops0;
    while |ops| > 0 && pops(Top(ops))
      invariant PopWhile(pops, output, ops) == PopWhile(pops, output0, ops0)
      decreases |ops|
    {
      output := output + [Top(ops)];
      ops := ops[..|ops| - 1];
    }
  }

  method ShuntToken(t: Token, st: ParserState) returns (r: ParseResult)
    ensures r == Shunt(t, st)
  {
    var token := Some(t);
    if IsOperand(token) {
      return Parsed(ParserState(st.output + [t], st.operators, token));
    } else if IsComma(token) {
      var output, ops := PopWhileLoop(AboveParenthesis(), st.output, st.operators);
      if ops == [] {
        return Failed(ParenthesesMismatch);
      }
      return Parsed(ParserState(output, ops, token));
    } else if IsOperator(token) {
      var output, ops := PopWhileLoop(YieldsTo(t), st.output, st.operators);
      return Parsed(ParserState(output, ops + [t], token));
    } else if IsLeftParenthesis(token) {
      return Parsed(ParserState(st.output, st.operators + [t], token));
    } else if IsRightParenthesis(token) {
      var output, ops := PopWhileLoop(AboveParenthesis(), st.output, st.operators);
      if ops == [] {
        return Failed(ParenthesesMismatch);
      }
      return Parsed(ParserState(output, ops[..|ops| - 1], token));
    }
    return Failed(SyntaxError);
  }

  /** parse_to_stacks: the token loop, recursing into sub-expressions. */
  method ParseToStacks(names: Names, s: string, inSub: bool, start: ParserState) returns (r: ParseResult)
    ensures r == ParseFrom(names, s, 0, inSub, start)
    decreases if inSub then 0 else 1
  {
    var pos := 0;
    var st := start;
    while true
      invariant pos <= |s|
      invariant ParseFrom(names, s, pos, inSub, st) == ParseFrom(names, s, 0, inSub, start)
      decreases |s| - pos
    {
      var token, next := GetNextToken(s, pos, st.previous);
      if token.None? {
        if At(s, next) != '\0' {
          return Failed(SyntaxError);
        }
        return Parsed(st.(previous := None));
      }
      var t := token.value;
      if IsConstant(names, t) {
        var c, _ := GetNextToken(names.constants[t.data.name], 0, None);
        if c.None? {
          return Parsed(st.(previous := None));
        }
        st := ParserState(st.output + [c.value], st.operators, c);
      } else if IsSubExpression(names, t) {
        if inSub {
          return Failed(ForbiddenRecursion);
        }
        var inner := ParseToStacks(names, Parenthesized(names.subExpressions[t.data.name]), true, st);
        if inner.Failed? {
          return inner;
        }
        st := inner.state.(previous := token);
      } else {
        var shunted := ShuntToken(t, st);
        if shunted.Failed? {
          return shunted;
        }
        st := shunted.state;
      }
      pos := next;
    }
  }

  /** The end of parse_expression, with its loop. */
  method FinishLoop(r: ParseResult) returns (status: Status, rpn: seq<Token>)
    requires r.Failed? ==> r.status != Success
    ensures (status, rpn) == Finish(r)
  {
    if r.Failed? {
      return r.status, [];
    }
    var output, rest := PopWhileLoop(AboveParenthesis(), r.state.output, r.state.operators);
    if rest != [] {
      return ParenthesesMismatch, [];
    }
    rpn := output;
    status := if rpn == [] then EmptyExpression else Success;
  }

  /** parse_expression: parse, then move the remaining operators to the
      output, failing on a left parenthesis that was never closed. */
  method ParseExpressionMethod(names: Names, expression: Option<string>) returns (status: Status, rpn: seq<Token>)
    ensures (status, rpn) == ParseExpression(names, expression)
  {
    if expression.None? {
      return EmptyExpression, [];
    }
    var r := ParseToStacks(names, expression.value, false, EMPTY_STATE);
    status, rpn := FinishLoop(r);
  }

  // ---------------------------------------------------------------------
  // The ArvEvaluator object

  /** M_PI and M_E, as the doubles nearest to them. */
  const M_PI: real := 3.141592653589793115997963468544185161590576171875
  const M_E: real := 2.718281828459045090795598298427648842334747314453125

  function Lookup(table: map<string, string>, name: string): Option<string>
  {
    if name in table then Some(table[name]) else None
  }

  /** g_hash_table_replace with a string, or g_hash_table_remove for NULL. */
  function Assign(table: map<string, string>, name: string, value: Option<string>): (r: map<string, string>)
    ensures Lookup(r, name) == value
    ensures forall other :: other != name ==> Lookup(r, other) == Lookup(table, other)
  {
    if value.Some? then table[name := value.value] else table - {name}
  }

  class ArvEvaluator {
    var expression: Option<string>
    var rpn: seq<Token>
    var parsingStatus: Status
    var variables: map<string, ArvValue.Value>
    var subExpressions: map<string, string>
    var constants: map<string, string>

    function Tables(): Names
      reads this
    {
      Names(constants, subExpressions)
    }

    /** The cached parse is that of the current expression and tables,
        unless a parse is pending. The one exception is a new evaluator
        without an expression: it holds the zero-filled status SUCCESS and
        an empty list. */
    predicate Valid()
      reads this
    {
      parsingStatus == NotParsed
      || (expression.None? && (parsingStatus == EmptyExpression || (parsingStatus == Success && rpn == [])))
      || (parsingStatus, rpn) == ParseExpression(Tables(), expression)
    }

    /** arv_evaluator_new, with arv_evaluator_init: PI and E are double
        variables from the start. */
    constructor (e: Option<string>)
      ensures Valid()
      ensures expression == e && subExpressions == map[] && constants == map[]
      ensures variables == map["PI" := ArvValue.DoubleValue(M_PI), "E" := ArvValue.DoubleValue(M_E)]
      ensures e.None? ==> parsingStatus == Success && rpn == []
      ensures e.Some? ==> parsingStatus == NotParsed
    {
      expression := None;
      rpn := [];
      parsingStatus := Success;
      variables := map[];
      subExpressions := map[];
      constants := map[];
      new;
      SetDoubleVariable("PI", M_PI);
      SetDoubleVariable("E", M_E);
      SetExpression(e);
    }

    /** arv_evaluator_set_expression: a new expression is parsed on the
        next evaluation; NULL makes the expression empty; the same
        expression again keeps the parse. */
    method SetExpression(e: Option<string>)
      requires Valid()
      modifies this
      ensures Valid()
      ensures expression == e && rpn == old(rpn)
      ensures e == old(expression) ==> parsingStatus == old(parsingStatus)
      ensures e != old(expression) ==> parsingStatus == (if e.None? then EmptyExpression else NotParsed)
      ensures variables == old(variables) && Tables() == old(Tables())
    {
      if e == expression {
        return;
      }
      expression := e;
      if e.None? {
        parsingStatus := EmptyExpression;
        return;
      }
      parsingStatus := NotParsed;
    }

    function GetExpression(): Option<string>
      reads this
    {
      expression
    }

    /** arv_evaluator_set_sub_expression: assigning a formula to a name, or
        removing it with NULL, invalidates the parse, unless the name
        already has that formula. A NULL name does nothing. */
    method SetSubExpression(name: Option<string>, e: Option<string>)
      requires Valid()
      modifies this
      ensures Valid()
      ensures name.Some? ==> Lookup(subExpressions, name.value) == e
      ensures name.None? || (Lookup(old(subExpressions), name.value).Some? && Lookup(old(subExpressions), name.value) == e)
        ==> subExpressions == old(subExpressions) && parsingStatus == old(parsingStatus)
      ensures name.Some? && !(Lookup(old(subExpressions), name.value).Some? && Lookup(old(subExpressions), name.value) == e)
        ==> subExpressions == Assign(old(subExpressions), name.value, e) && parsingStatus == NotParsed
      ensures expression == old(expression) && rpn == old(rpn)
      ensures variables == old(variables) && constants == old(constants)
    {
      if name.None? {
        return;
      }
      var previous := Lookup(subExpressions, name.value);
      if previous.Some? && previous == e {
        return;
      }
      subExpressions := Assign(subExpressions, name.value, e);
      parsingStatus := NotParsed;
    }

    function GetSubExpression(name: Option<string>): Option<string>
      reads this
    {
      if name.None? then None else Lookup(subExpressions, name.value)
    }

    /** arv_evaluator_set_constant, alike for the constants. */
    method SetConstant(name: Option<string>, c: Option<string>)
      requires Valid()
      modifies this
      ensures Valid()
      ensures name.Some? ==> Lookup(constants, name.value) == c
      ensures name.None? || (Lookup(old(constants), name.value).Some? && Lookup(old(constants), name.value) == c)
        ==> constants == old(constants) && parsingStatus == old(parsingStatus)
      ensures name.Some? && !(Lookup(old(constants), name.value).Some? && Lookup(old(constants), name.value) == c)
        ==> constants == Assign(old(constants), name.value, c) && parsingStatus == NotParsed
      ensures expression == old(expression) && rpn == old(rpn)
      ensures variables == old(variables) && subExpressions == old(subExpressions)
    {
      if name.None? {
        return;
      }
      var previous := Lookup(constants, name.value);
      if previous.Some? && previous == c {
        return;
      }
      constants := Assign(constants, name.value, c);
      parsingStatus := NotParsed;
    }

    function GetConstant(name: Option<string>): Option<string>
      reads this
    {
      if name.None? then None else Lookup(constants, name.value)
    }

    /** arv_evaluator_set_double_variable: the variable holds v afterwards
        (read as a double); an entry that already reads as v is kept.
        Variables play no part in parsing. */
    method SetDoubleVariable(name: string, v: real)
      modifies this
      ensures name in variables && ArvValue.GetDouble(variables[name]) == v
      ensures variables == if name in old(variables) && ArvValue.GetDouble(old(variables)[name]) == v
        then old(variables) else old(variables)[name := ArvValue.NewDouble(v)]
      ensures expression == old(expression) && rpn == old(rpn) && parsingStatus == old(parsingStatus)
      ensures subExpressions == old(subExpressions) && constants == old(constants)
    {
      if name in variables && ArvValue.GetDouble(variables[name]) == v {
        return;
      }
      variables := variables[name := ArvValue.NewDouble(v)];
    }

    /** arv_evaluator_set_int64_variable, alike; an entry that already
        reads as v, a double that truncates to v included, is kept. The new
        entry is built by arv_value_new_int64 as written, through a double,
        so the variable reads back as v when v has at most 53 bits. */
    method SetInt64Variable(name: string, v: int64)
      modifies this
      ensures name in variables
      ensures -(ArvValue.TWO_53 as int) <= v <= ArvValue.TWO_53 ==> ArvValue.GetInt64(variables[name]) == v
      ensures variables == if name in old(variables) && ArvValue.GetInt64(old(variables)[name]) == v
        then old(variables) else old(variables)[name := ArvValue.NewInt64AsWritten(v)]
      ensures expression == old(expression) && rpn == old(rpn) && parsingStatus == old(parsingStatus)
      ensures subExpressions == old(subExpressions) && constants == old(constants)
    {
      if name in variables && ArvValue.GetInt64(variables[name]) == v {
        return;
      }
      if -(ArvValue.TWO_53 as int) <= v <= ArvValue.TWO_53 {
        ArvValue.NewInt64AgreesBelow53Bits(v);
      }
      variables := variables[name := ArvValue.NewInt64AsWritten(v)];
    }

    /** arv_evaluator_evaluate_as_int64: parse if a parse is pending, then
        run the list. Whenever an expression is set, the result is that of
        a fresh parse and evaluation, cache or not. */
    method EvaluateAsInt64() returns (r: Outcome)
      requires Valid()
      modifies this
      ensures Valid() && parsingStatus != NotParsed
      ensures old(parsingStatus) == NotParsed ==> (parsingStatus, rpn) == ParseExpression(Tables(), expression)
      ensures old(parsingStatus) != NotParsed ==> parsingStatus == old(parsingStatus) && rpn == old(rpn)
      ensures expression == old(expression) && variables == old(variables) && Tables() == old(Tables())
      ensures r == Result(parsingStatus, rpn, variables)
      ensures expression.Some? ==> r == Evaluation(Tables(), expression, variables)
      ensures expression.None? ==> r == Outcome(EmptyExpression, 0) || r == Outcome(RemainingOperands, 0)
    {
      if parsingStatus == NotParsed {
        parsingStatus, rpn := ParseExpressionMethod(Tables(), expression);
      }
      if parsingStatus != Success {
        return Outcome(parsingStatus, 0);
      }
      r := Evaluate(rpn, variables);
    }
  }

  // ---------------------------------------------------------------------
  // Properties

  /** parse_expression reports a mismatch exactly when a left parenthesis
      is still on the stack at the end; otherwise the list is the output
      followed by the remaining operators, top first. */
  lemma FinishCases(st: ParserState)
    ensures Finish(Parsed(st)).0 == ParenthesesMismatch <==> HasLeftParenthesis(st.operators)
    ensures !HasLeftParenthesis(st.operators) ==> Finish(Parsed(st)).1 == st.output + Reversed(st.operators)
  {
    PopWhileSpec(AboveParenthesis(), st.output, st.operators);
    var (rpn, rest) := PopWhile(AboveParenthesis(), st.output, st.operators);
    if rest != [] {
      assert st.operators[|rest| - 1].id == LeftParenthesis;
    } else {
      assert st.operators[0..] == st.operators;
    }
  }

  /** A comma or a right parenthesis fails with a mismatch exactly when
      no left parenthesis is on the stack. */
  lemma ShuntUnmatched(t: Token, st: ParserState)
    requires IsComma(Some(t)) || IsRightParenthesis(Some(t))
    ensures Shunt(t, st).Failed? <==> !HasLeftParenthesis(st.operators)
    ensures Shunt(t, st).Failed? ==> Shunt(t, st).status == ParenthesesMismatch
  {
    ClassesDisjoint(Some(t));
    PopsToParenthesis(st.output, st.operators);
  }

  /** Popping down to a left parenthesis empties the stack exactly when
      there is none. */
  lemma PopsToParenthesis(output: seq<Token>, ops: seq<Token>)
    ensures PopWhile(AboveParenthesis(), output, ops).1 == [] <==> !HasLeftParenthesis(ops)
  {
    PopWhileSpec(AboveParenthesis(), output, ops);
    var rest := PopWhile(AboveParenthesis(), output, ops).1;
    if rest != [] {
      assert ops[|rest| - 1].id == LeftParenthesis;
    } else {
      assert ops[0..] == ops;
    }
  }

  /** What may sit on the operator stack: left parentheses and operators
      other than the comma (see ShapeClasses). */
  predicate Stackable(t: Token)
  {
    t.id !in {RightParenthesis, Comma, Unknown, ConstantInt64, ConstantDouble, Variable}
  }

  /** What may be output: operands and operators other than the comma. */
  predicate Emittable(t: Token)
  {
    t.id !in {LeftParenthesis, RightParenthesis, Comma, Unknown}
  }

  lemma ShapeClasses(t: Token)
    ensures Stackable(t) <==> IsLeftParenthesis(Some(t)) || (IsOperator(Some(t)) && !IsComma(Some(t)))
    ensures Emittable(t) <==> IsOperand(Some(t)) || (IsOperator(Some(t)) && !IsComma(Some(t)))
  {
    ClassesCover(Some(t));
    ClassesDisjoint(Some(t));
  }

  predicate WellShaped(st: ParserState)
  {
    (forall i :: 0 <= i < |st.operators| ==> Stackable(st.operators[i]))
    && (forall i :: 0 <= i < |st.output| ==> Emittable(st.output[i]))
  }

  /** Every constant names an operand (or nothing): the parser outputs the
      first token of a constant's text whatever it is. */
  ghost predicate ConstantsAreOperands(names: Names)
  {
    forall name :: name in names.constants ==>
      var c := NextToken(names.constants[name], 0, None).0;
      c.None? || IsOperand(c)
  }

  /** Popping moves tokens from the stack to the output. */
  lemma PopKeepsShape(pops: Token -> bool, st: ParserState)
    requires WellShaped(st)
    requires forall u :: Stackable(u) && pops(u) ==> Emittable(u)
    ensures var (output, ops) := PopWhile(pops, st.output, st.operators);
      WellShaped(ParserState(output, ops, st.previous))
  {
    PopWhileSpec(pops, st.output, st.operators);
    var r := PopWhile(pops, st.output, st.operators);
    var k := |r.1|;
    assert forall i :: 0 <= i < k ==> r.1[i] == st.operators[i];
    PoppedEmittable(pops, st.operators, k);
    AllEmittable(st.output, Reversed(st.operators[k..]));
    assert r.0 == st.output + Reversed(st.operators[k..]);
  }

  /** The tokens popped from a stack of stackable tokens are emittable. */
  lemma PoppedEmittable(pops: Token -> bool, ops: seq<Token>, k: nat)
    requires k <= |ops| && forall i :: 0 <= i < |ops| ==> Stackable(ops[i])
    requires forall i :: k <= i < |ops| ==> pops(ops[i])
    requires forall u :: Stackable(u) && pops(u) ==> Emittable(u)
    ensures forall j :: 0 <= j < |ops| - k ==> Emittable(Reversed(ops[k..])[j])
  {
    var back := Reversed(ops[k..]);
    forall j | 0 <= j < |ops| - k
      ensures Emittable(back[j])
    {
      assert back[j] == ops[|ops| - 1 - j];
    }
  }

  /** Appending emittable tokens to an emittable output keeps it so. */
  lemma AllEmittable(a: seq<Token>, b: seq<Token>)
    requires forall i :: 0 <= i < |a| ==> Emittable(a[i])
    requires forall j :: 0 <= j < |b| ==> Emittable(b[j])
    ensures forall i :: 0 <= i < |a + b| ==> Emittable((a + b)[i])
  {
    forall i | |a| <= i < |a + b|
      ensures Emittable((a + b)[i])
    {
      assert (a + b)[i] == b[i - |a|];
    }
  }

  lemma ShuntKeepsShape(t: Token, st: ParserState)
    requires WellShaped(st)
    ensures Shunt(t, st).Parsed? ==> WellShaped(Shunt(t, st).state)
  {
    ShapeClasses(t);
    ClassesDisjoint(Some(t));
    ClassesCover(Some(t));
    if !IsOperand(Some(t)) && (IsComma(Some(t)) || IsRightParenthesis(Some(t))) {
      PopKeepsShape(AboveParenthesis(), st);
    } else if !IsOperand(Some(t)) && IsOperator(Some(t)) {
      forall u | Stackable(u) && YieldsTo(t)(u)
        ensures Emittable(u)
      {
        if u.id == LeftParenthesis {
          LeftParenthesisStops(t, u);
        }
      }
      PopKeepsShape(YieldsTo(t), st);
    }
  }

  /** The parser keeps the stack to left parentheses and operators, and
      the output to operands and operators other than the comma; errors
      are syntax errors, mismatches and forbidden recursion. */
  lemma {:induction false} ParseKeepsShape(names: Names, s: string, pos: nat, inSub: bool, st: ParserState)
    requires pos <= |s|
    requires ConstantsAreOperands(names) && WellShaped(st)
    ensures ParseFrom(names, s, pos, inSub, st).Parsed? ==> WellShaped(ParseFrom(names, s, pos, inSub, st).state)
    decreases if inSub then 0 else 1, |s| - pos
  {
    var (token, next) := NextToken(s, pos, st.previous);
    if token.Some? {
      var t := token.value;
      if IsConstant(names, t) {
        var c := NextToken(names.constants[t.data.name], 0, None).0;
        if c.Some? {
          var st' := ParserState(st.output + [c.value], st.operators, c);
          ShapeClasses(c.value);
          assert WellShaped(st');
          ParseKeepsShape(names, s, next, inSub, st');
        }
      } else if IsSubExpression(names, t) {
        if !inSub {
          var sub := Parenthesized(names.subExpressions[t.data.name]);
          ParseKeepsShape(names, sub, 0, true, st);
          var inner := ParseFrom(names, sub, 0, true, st);
          if inner.Parsed? {
            ParseKeepsShape(names, s, next, inSub, inner.state.(previous := token));
          }
        }
      } else {
        ShuntKeepsShape(t, st);
        var shunted := Shunt(t, st);
        if shunted.Parsed? {
          ParseKeepsShape(names, s, next, inSub, shunted.state);
        }
      }
    }
  }

  /** A successful parse yields a list of operands and operators only:
      every parenthesis was matched and dropped, every comma dropped. */
  lemma RpnHasNoParentheses(names: Names, expression: Option<string>)
    requires ConstantsAreOperands(names)
    ensures var (status, rpn) := ParseExpression(names, expression);
      status == Success ==> forall i :: 0 <= i < |rpn| ==> Emittable(rpn[i])
  {
    if expression.Some? {
      var r := ParseFrom(names, expression.value, 0, false, EMPTY_STATE);
      ParseKeepsShape(names, expression.value, 0, false, EMPTY_STATE);
      if r.Parsed? {
        var st := r.state;
        FinishCases(st);
        PopKeepsShape(AboveParenthesis(), st);
      }
    }
  }
}
