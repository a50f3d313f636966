// Whole expressions through the parser and the stack machine: the
// examples of the evaluator tests (tests/evaluator.c) and the error
// statuses of the parser.
module EvaluatorExamples {
  import opened Common
  import opened EvaluatorToken
  import opened EvaluatorLexer
  import opened EvaluatorEval
  import opened Evaluator
  import ArvStr
  import ArvValue

  const NO_NAMES := Names(map[], map[])

  // ---------------------------------------------------------------------
  // Reading tokens

  lemma {:induction false} DigitsEndAt(s: string, i: nat, e: nat)
    requires i <= e <= |s|
    requires forall k :: i <= k < e ==> IsDigit(s[k])
    requires e == |s| || !IsDigit(s[e])
    ensures ArvStr.DigitsEnd(s, i) == e && BaseDigitsEnd(s, i, 10) == e
    decreases e - i
  {
    if i < e {
      DigitsEndAt(s, i + 1, e);
    }
  }

  /** A decimal integer without a leading zero, followed by no character
      that could continue it, is read as its value. */
  lemma DecimalToken(s: string, p: nat, e: nat, previous: Option<Token>)
    requires p < e <= |s| && '1' <= s[p] <= '9'
    requires forall k :: p <= k < e ==> IsDigit(s[k])
    requires var c := At(s, e); !IsDigit(c) && c != '.' && c != 'e' && c != 'E'
    requires DigitsValue(s, p, e, 10) <= INT64_MAX
    ensures NextToken(s, p, previous) == (Some(NewInt64AsWritten(DigitsValue(s, p, e, 10))), e)
    ensures DigitsValue(s, p, e, 10) <= ArvValue.TWO_53 ==> NextToken(s, p, previous) == (Some(I(DigitsValue(s, p, e, 10))), e)
  {
    DigitsEndAt(s, p, e);
    assert ArvStr.MantissaEnd(s, p) == Some(e);
    assert ArvStr.NumberEnd(s, p) == Some(e);
    assert IntegerDigits(s, p) == IntegerLiteral(10, p, e);
    if DigitsValue(s, p, e, 10) <= ArvValue.TWO_53 {
      NewInt64AsWrittenExactBelow53Bits(DigitsValue(s, p, e, 10));
    }
  }

  /** The literal 9007199254740993 (2^53 + 1) is read as the constant
      9007199254740992: the token constructor takes a double. */
  lemma LargeLiteralRounds()
    ensures var (t, next) := NextToken("9007199254740993", 0, None);
      next == 16 && t.Some? && t.value.id == ConstantInt64 && t.value.data == Int64Data(9007199254740992)
  {
    var s := "9007199254740993";
    assert DigitsValue(s, 0, 1, 10) == 9;
    assert DigitsValue(s, 0, 2, 10) == 90;
    assert DigitsValue(s, 0, 3, 10) == 900;
    assert DigitsValue(s, 0, 4, 10) == 9007;
    assert DigitsValue(s, 0, 5, 10) == 90071;
    assert DigitsValue(s, 0, 6, 10) == 900719;
    assert DigitsValue(s, 0, 7, 10) == 9007199;
    assert DigitsValue(s, 0, 8, 10) == 90071992;
    assert DigitsValue(s, 0, 9, 10) == 900719925;
    assert DigitsValue(s, 0, 10, 10) == 9007199254;
    assert DigitsValue(s, 0, 11, 10) == 90071992547;
    assert DigitsValue(s, 0, 12, 10) == 900719925474;
    assert DigitsValue(s, 0, 13, 10) == 9007199254740;
    assert DigitsValue(s, 0, 14, 10) == 90071992547409;
    assert DigitsValue(s, 0, 15, 10) == 900719925474099;
    assert DigitsValue(s, 0, 16, 10) == 9007199254740993;
    DecimalToken(s, 0, 16, None);
    NewInt64AsWrittenRounds();
  }

  /** A one-character operator or parenthesis. */
  lemma SymbolTokenAt(s: string, p: nat, previous: Option<Token>, id: TokenId)
    requires p < |s| && !ArvStr.IsAsciiSpace(s[p]) && s[p] != '\0'
    requires !IsDigit(s[p]) && !IsAlpha(s[p]) && s[p] != '_'
    requires Punctuation(s[p], At(s, p + 1), previous) == (id, 1) && id != Unknown
    ensures NextToken(s, p, previous) == (Some(Op(id)), p + 1)
  {
    SymbolStartsToken(s, p, previous);
  }

  /** The end of the text. */
  lemma EndToken(s: string, previous: Option<Token>)
    ensures NextToken(s, |s|, previous) == (None, |s|) && At(s, |s|) == '\0'
  {
  }

  /** A one-letter variable. */
  lemma LetterToken(s: string, p: nat, previous: Option<Token>)
    requires p < |s| && IsAlpha(s[p]) && !IsIdentifierChar(At(s, p + 1))
    requires Keyword([s[p]]) == Unknown
    ensures NextToken(s, p, previous) == (Some(NewVariable([s[p]])), p + 1)
  {
    IdentifierToken(s, p, previous);
    assert s[p..p + 1] == [s[p]];
  }

  // ---------------------------------------------------------------------
  // The shunting-yard cases

  lemma ShuntOperand(t: Token, st: ParserState)
    requires IsOperand(Some(t))
    ensures Shunt(t, st) == Parsed(ParserState(st.output + [t], st.operators, Some(t)))
  {
  }

  /** An operator that yields to nothing on the stack is pushed. */
  lemma ShuntOperator(t: Token, st: ParserState)
    requires IsOperator(Some(t)) && !IsComma(Some(t))
    requires st.operators == [] || !ComparePrecedence(Some(t), Some(Top(st.operators)))
    ensures Shunt(t, st) == Parsed(ParserState(st.output, st.operators + [t], Some(t)))
  {
    ClassesDisjoint(Some(t));
  }

  lemma ShuntLeftParenthesis(t: Token, st: ParserState)
    requires t.id == LeftParenthesis
    ensures Shunt(t, st) == Parsed(ParserState(st.output, st.operators + [t], Some(t)))
  {
  }

  /** A right parenthesis above one operator and its left parenthesis. */
  lemma ShuntRightParenthesis(st: ParserState)
    requires |st.operators| >= 2 && st.operators[|st.operators| - 2].id == LeftParenthesis
    requires Top(st.operators).id != LeftParenthesis
    ensures var ops := st.operators;
      Shunt(Op(RightParenthesis), st) == Parsed(ParserState(st.output + [Top(ops)], ops[..|ops| - 2], Some(Op(RightParenthesis))))
  {
    var ops := st.operators;
    var rest := ops[..|ops| - 1];
    assert Top(rest).id == LeftParenthesis;
    assert PopWhile(AboveParenthesis(), st.output + [Top(ops)], rest) == (st.output + [Top(ops)], rest);
    assert PopWhile(AboveParenthesis(), st.output, ops) == (st.output + [Top(ops)], rest);
    assert rest[..|rest| - 1] == ops[..|ops| - 2];
  }

  // ---------------------------------------------------------------------
  // Parsing steps

  lemma ShuntStep(names: Names, s: string, pos: nat, st: ParserState, t: Token, next: nat, st': ParserState)
    requires pos <= |s| && NextToken(s, pos, st.previous) == (Some(t), next)
    requires !IsConstant(names, t) && !IsSubExpression(names, t)
    requires Shunt(t, st) == Parsed(st')
    ensures ParseFrom(names, s, pos, false, st) == ParseFrom(names, s, next, false, st')
    ensures ParseFrom(names, s, pos, true, st) == ParseFrom(names, s, next, true, st')
  {
  }

  lemma EndStep(names: Names, s: string, st: ParserState)
    ensures ParseFrom(names, s, |s|, false, st) == Parsed(st.(previous := None))
  {
    EndToken(s, st.previous);
  }

  // ---------------------------------------------------------------------
  // 24+2*8 is 40: multiplication binds tighter

  predicate PrecedenceChars(s: string)
  {
    |s| == 6 && s[0] == '2' && s[1] == '4' && s[2] == '+' && s[3] == '2' && s[4] == '*' && s[5] == '8'
  }

  /** The parser states after each token. */
  function PrecedenceState(n: nat): ParserState
  {
    var plus, times := Op(Addition), Op(Multiplication);
    if n == 0 then EMPTY_STATE
    else if n == 1 then ParserState([I(24)], [], Some(I(24)))
    else if n == 2 then ParserState([I(24)], [plus], Some(plus))
    else if n == 3 then ParserState([I(24), I(2)], [plus], Some(I(2)))
    else if n == 4 then ParserState([I(24), I(2)], [plus, times], Some(times))
    else ParserState([I(24), I(2), I(8)], [plus, times], Some(I(8)))
  }

  lemma PrecedenceToken1(s: string)
    requires PrecedenceChars(s)
    ensures NextToken(s, 0, None) == (Some(I(24)), 2)
  {
    DecimalToken(s, 0, 2, None);
    assert DigitsValue(s, 0, 2, 10) == 24;
  }

  lemma PrecedenceStep1(s: string)
    requires PrecedenceChars(s)
    ensures ParseFrom(NO_NAMES, s, 0, false, PrecedenceState(0)) == ParseFrom(NO_NAMES, s, 2, false, PrecedenceState(1))
  {
    PrecedenceToken1(s);
    ShuntOperand(I(24), PrecedenceState(0));
    ShuntStep(NO_NAMES, s, 0, PrecedenceState(0), I(24), 2, PrecedenceState(1));
  }

  lemma PrecedenceToken2(s: string)
    requires PrecedenceChars(s)
    ensures NextToken(s, 2, Some(I(24))) == (Some(Op(Addition)), 3)
  {
    SymbolTokenAt(s, 2, Some(I(24)), Addition);
  }

  lemma PrecedenceShunt2()
    ensures Shunt(Op(Addition), PrecedenceState(1)) == Parsed(PrecedenceState(2))
  {
    var st := ParserState([I(24)], [], Some(I(24)));
    assert PrecedenceState(1) == st;
    ShuntOperator(Op(Addition), st);
    assert st.operators + [Op(Addition)] == [Op(Addition)];
  }

  lemma PrecedenceStep2(s: string)
    requires PrecedenceChars(s)
    ensures ParseFrom(NO_NAMES, s, 2, false, PrecedenceState(1)) == ParseFrom(NO_NAMES, s, 3, false, PrecedenceState(2))
  {
    PrecedenceToken2(s);
    PrecedenceShunt2();
    ShuntStep(NO_NAMES, s, 2, PrecedenceState(1), Op(Addition), 3, PrecedenceState(2));
  }

  lemma PrecedenceToken3(s: string)
    requires PrecedenceChars(s)
    ensures NextToken(s, 3, Some(Op(Addition))) == (Some(I(2)), 4)
  {
    DecimalToken(s, 3, 4, Some(Op(Addition)));
    assert DigitsValue(s, 3, 4, 10) == 2;
  }

  lemma PrecedenceStep3(s: string)
    requires PrecedenceChars(s)
    ensures ParseFrom(NO_NAMES, s, 3, false, PrecedenceState(2)) == ParseFrom(NO_NAMES, s, 4, false, PrecedenceState(3))
  {
    PrecedenceToken3(s);
    ShuntOperand(I(2), PrecedenceState(2));
    ShuntStep(NO_NAMES, s, 3, PrecedenceState(2), I(2), 4, PrecedenceState(3));
  }

  lemma PrecedenceToken4(s: string)
    requires PrecedenceChars(s)
    ensures NextToken(s, 4, Some(I(2))) == (Some(Op(Multiplication)), 5)
  {
    SymbolTokenAt(s, 4, Some(I(2)), Multiplication);
  }

  lemma PrecedenceShunt4()
    ensures Shunt(Op(Multiplication), PrecedenceState(3)) == Parsed(PrecedenceState(4))
  {
    var st := ParserState([I(24), I(2)], [Op(Addition)], Some(I(2)));
    assert PrecedenceState(3) == st;
    PrecedenceExamples();
    ShuntOperator(Op(Multiplication), st);
    assert st.operators + [Op(Multiplication)] == [Op(Addition), Op(Multiplication)];
  }

  lemma PrecedenceStep4(s: string)
    requires PrecedenceChars(s)
    ensures ParseFrom(NO_NAMES, s, 4, false, PrecedenceState(3)) == ParseFrom(NO_NAMES, s, 5, false, PrecedenceState(4))
  {
    PrecedenceToken4(s);
    PrecedenceShunt4();
    ShuntStep(NO_NAMES, s, 4, PrecedenceState(3), Op(Multiplication), 5, PrecedenceState(4));
  }

  lemma PrecedenceToken5(s: string)
    requires PrecedenceChars(s)
    ensures NextToken(s, 5, Some(Op(Multiplication))) == (Some(I(8)), 6)
  {
    DecimalToken(s, 5, 6, Some(Op(Multiplication)));
    assert DigitsValue(s, 5, 6, 10) == 8;
  }

  lemma PrecedenceStep5(s: string)
    requires PrecedenceChars(s)
    ensures ParseFrom(NO_NAMES, s, 5, false, PrecedenceState(4)) == Parsed(PrecedenceState(5).(previous := None))
  {
    PrecedenceToken5(s);
    ShuntOperand(I(8), PrecedenceState(4));
    ShuntStep(NO_NAMES, s, 5, PrecedenceState(4), I(8), 6, PrecedenceState(5));
    EndStep(NO_NAMES, s, PrecedenceState(5));
  }

  /** The whole text parses to the final state. */
  lemma PrecedenceStacks(s: string)
    requires PrecedenceChars(s)
    ensures ParseFrom(NO_NAMES, s, 0, false, EMPTY_STATE) == Parsed(PrecedenceState(5).(previous := None))
  {
    PrecedenceStep1(s);
    PrecedenceStep2(s);
    PrecedenceStep3(s);
    PrecedenceStep4(s);
    PrecedenceStep5(s);
  }

  /** An expression whose tokens all parse finishes with the final stacks. */
  lemma FinishedParse(names: Names, s: string, st: ParserState)
    requires ParseFrom(names, s, 0, false, EMPTY_STATE) == Parsed(st)
    ensures ParseExpression(names, Some(s)) == Finish(Parsed(st))
  {
  }

  lemma PrecedenceFinish()
    ensures Finish(Parsed(PrecedenceState(5).(previous := None))) == (Success, PrecedenceList())
  {
    var st := ParserState([I(24), I(2), I(8)], [Op(Addition), Op(Multiplication)], None);
    assert PrecedenceState(5).(previous := None) == st;
    assert !HasLeftParenthesis(st.operators) by {
      assert st.operators[0].id != LeftParenthesis && st.operators[1].id != LeftParenthesis;
    }
    FinishCases(st);
    assert Reversed(st.operators) == [Op(Multiplication), Op(Addition)];
    assert st.output + Reversed(st.operators) == PrecedenceList();
  }

  lemma PrecedenceParseOn(s: string)
    requires PrecedenceChars(s)
    ensures ParseExpression(NO_NAMES, Some(s)) == (Success, PrecedenceList())
  {
    PrecedenceStacks(s);
    FinishedParse(NO_NAMES, s, PrecedenceState(5).(previous := None));
    PrecedenceFinish();
  }

  /** 24+2*8 becomes 24 2 8 * +. */
  lemma PrecedenceParse()
    ensures ParseExpression(NO_NAMES, Some("24+2*8")) == (Success, PrecedenceList())
  {
    PrecedenceParseOn("24+2*8");
  }

  /** The test's 24+2*8 is 40. */
  lemma PrecedenceEvaluation(variables: map<string, ArvValue.Value>)
    ensures Evaluation(NO_NAMES, Some("24+2*8"), variables) == Outcome(Success, 40)
  {
    PrecedenceParse();
    PrecedenceRun(variables);
  }

  // ---------------------------------------------------------------------
  // (24+2)*2 is 52: parentheses group

  predicate ParenthesesChars(s: string)
  {
    |s| == 8 && s[0] == '(' && s[1] == '2' && s[2] == '4' && s[3] == '+'
    && s[4] == '2' && s[5] == ')' && s[6] == '*' && s[7] == '2'
  }

  function ParenthesesState(n: nat): ParserState
  {
    var open, plus, close, times := Op(LeftParenthesis), Op(Addition), Op(RightParenthesis), Op(Multiplication);
    if n == 0 then EMPTY_STATE
    else if n == 1 then ParserState([], [open], Some(open))
    else if n == 2 then ParserState([I(24)], [open], Some(I(24)))
    else if n == 3 then ParserState([I(24)], [open, plus], Some(plus))
    else if n == 4 then ParserState([I(24), I(2)], [open, plus], Some(I(2)))
    else if n == 5 then ParserState([I(24), I(2), plus], [], Some(close))
    else if n == 6 then ParserState([I(24), I(2), plus], [times], Some(times))
    else ParserState([I(24), I(2), plus, I(2)], [times], Some(I(2)))
  }

  lemma ParenthesesToken1(s: string)
    requires ParenthesesChars(s)
    ensures NextToken(s, 0, None) == (Some(Op(LeftParenthesis)), 1)
  {
    SymbolTokenAt(s, 0, None, LeftParenthesis);
  }

  lemma ParenthesesStep1(s: string)
    requires ParenthesesChars(s)
    ensures ParseFrom(NO_NAMES, s, 0, false, ParenthesesState(0)) == ParseFrom(NO_NAMES, s, 1, false, ParenthesesState(1))
  {
    ParenthesesToken1(s);
    ShuntLeftParenthesis(Op(LeftParenthesis), ParenthesesState(0));
    ShuntStep(NO_NAMES, s, 0, ParenthesesState(0), Op(LeftParenthesis), 1, ParenthesesState(1));
  }

  lemma ParenthesesToken2(s: string)
    requires ParenthesesChars(s)
    ensures NextToken(s, 1, Some(Op(LeftParenthesis))) == (Some(I(24)), 3)
  {
    DecimalToken(s, 1, 3, Some(Op(LeftParenthesis)));
    assert DigitsValue(s, 1, 3, 10) == 24;
  }

  lemma ParenthesesStep2(s: string)
    requires ParenthesesChars(s)
    ensures ParseFrom(NO_NAMES, s, 1, false, ParenthesesState(1)) == ParseFrom(NO_NAMES, s, 3, false, ParenthesesState(2))
  {
    ParenthesesToken2(s);
    ShuntOperand(I(24), ParenthesesState(1));
    ShuntStep(NO_NAMES, s, 1, ParenthesesState(1), I(24), 3, ParenthesesState(2));
  }

  lemma ParenthesesToken3(s: string)
    requires ParenthesesChars(s)
    ensures NextToken(s, 3, Some(I(24))) == (Some(Op(Addition)), 4)
  {
    SymbolTokenAt(s, 3, Some(I(24)), Addition);
  }

  /** The addition waits above the left parenthesis. */
  lemma ParenthesesShunt3()
    ensures Shunt(Op(Addition), ParenthesesState(2)) == Parsed(ParenthesesState(3))
  {
    var st := ParserState([I(24)], [Op(LeftParenthesis)], Some(I(24)));
    assert ParenthesesState(2) == st;
    LeftParenthesisStops(Op(Addition), Op(LeftParenthesis));
    ShuntOperator(Op(Addition), st);
    assert st.operators + [Op(Addition)] == [Op(LeftParenthesis), Op(Addition)];
  }

  lemma ParenthesesStep3(s: string)
    requires ParenthesesChars(s)
    ensures ParseFrom(NO_NAMES, s, 3, false, ParenthesesState(2)) == ParseFrom(NO_NAMES, s, 4, false, ParenthesesState(3))
  {
    ParenthesesToken3(s);
    ParenthesesShunt3();
    ShuntStep(NO_NAMES, s, 3, ParenthesesState(2), Op(Addition), 4, ParenthesesState(3));
  }

  lemma ParenthesesToken4(s: string)
    requires ParenthesesChars(s)
    ensures NextToken(s, 4, Some(Op(Addition))) == (Some(I(2)), 5)
  {
    DecimalToken(s, 4, 5, Some(Op(Addition)));
    assert DigitsValue(s, 4, 5, 10) == 2;
  }

  lemma ParenthesesStep4(s: string)
    requires ParenthesesChars(s)
    ensures ParseFrom(NO_NAMES, s, 4, false, ParenthesesState(3)) == ParseFrom(NO_NAMES, s, 5, false, ParenthesesState(4))
  {
    ParenthesesToken4(s);
    ShuntOperand(I(2), ParenthesesState(3));
    ShuntStep(NO_NAMES, s, 4, ParenthesesState(3), I(2), 5, ParenthesesState(4));
  }

  lemma ParenthesesToken5(s: string)
    requires ParenthesesChars(s)
    ensures NextToken(s, 5, Some(I(2))) == (Some(Op(RightParenthesis)), 6)
  {
    SymbolTokenAt(s, 5, Some(I(2)), RightParenthesis);
  }

  /** The right parenthesis outputs the addition and drops its partner. */
  lemma ParenthesesShunt5()
    ensures Shunt(Op(RightParenthesis), ParenthesesState(4)) == Parsed(ParenthesesState(5))
  {
    var st := ParserState([I(24), I(2)], [Op(LeftParenthesis), Op(Addition)], Some(I(2)));
    assert ParenthesesState(4) == st;
    ShuntRightParenthesis(st);
    assert st.output + [Top(st.operators)] == [I(24), I(2), Op(Addition)];
    assert st.operators[..0] == [];
  }

  lemma ParenthesesStep5(s: string)
    requires ParenthesesChars(s)
    ensures ParseFrom(NO_NAMES, s, 5, false, ParenthesesState(4)) == ParseFrom(NO_NAMES, s, 6, false, ParenthesesState(5))
  {
    ParenthesesToken5(s);
    ParenthesesShunt5();
    ShuntStep(NO_NAMES, s, 5, ParenthesesState(4), Op(RightParenthesis), 6, ParenthesesState(5));
  }

  lemma ParenthesesToken6(s: string)
    requires ParenthesesChars(s)
    ensures NextToken(s, 6, Some(Op(RightParenthesis))) == (Some(Op(Multiplication)), 7)
  {
    SymbolTokenAt(s, 6, Some(Op(RightParenthesis)), Multiplication);
  }

  lemma ParenthesesShunt6()
    ensures Shunt(Op(Multiplication), ParenthesesState(5)) == Parsed(ParenthesesState(6))
  {
    var st := ParserState([I(24), I(2), Op(Addition)], [], Some(Op(RightParenthesis)));
    assert ParenthesesState(5) == st;
    ShuntOperator(Op(Multiplication), st);
    assert st.operators + [Op(Multiplication)] == [Op(Multiplication)];
  }

  lemma ParenthesesStep6(s: string)
    requires ParenthesesChars(s)
    ensures ParseFrom(NO_NAMES, s, 6, false, ParenthesesState(5)) == ParseFrom(NO_NAMES, s, 7, false, ParenthesesState(6))
  {
    ParenthesesToken6(s);
    ParenthesesShunt6();
    ShuntStep(NO_NAMES, s, 6, ParenthesesState(5), Op(Multiplication), 7, ParenthesesState(6));
  }

  lemma ParenthesesToken7(s: string)
    requires ParenthesesChars(s)
    ensures NextToken(s, 7, Some(Op(Multiplication))) == (Some(I(2)), 8)
  {
    DecimalToken(s, 7, 8, Some(Op(Multiplication)));
    assert DigitsValue(s, 7, 8, 10) == 2;
  }

  lemma ParenthesesStep7(s: string)
    requires ParenthesesChars(s)
    ensures ParseFrom(NO_NAMES, s, 7, false, ParenthesesState(6)) == Parsed(ParenthesesState(7).(previous := None))
  {
    ParenthesesToken7(s);
    ShuntOperand(I(2), ParenthesesState(6));
    ShuntStep(NO_NAMES, s, 7, ParenthesesState(6), I(2), 8, ParenthesesState(7));
    EndStep(NO_NAMES, s, ParenthesesState(7));
  }

  lemma ParenthesesStacks(s: string)
    requires ParenthesesChars(s)
    ensures ParseFrom(NO_NAMES, s, 0, false, EMPTY_STATE) == Parsed(ParenthesesState(7).(previous := None))
  {
    ParenthesesStep1(s);
    ParenthesesStep2(s);
    ParenthesesStep3(s);
    ParenthesesStep4(s);
    ParenthesesStep5(s);
    ParenthesesStep6(s);
    ParenthesesStep7(s);
  }

  lemma ParenthesesFinish()
    ensures Finish(Parsed(ParenthesesState(7).(previous := None))) == (Success, ParenthesesList())
  {
    var st := ParenthesesState(7).(previous := None);
    assert !HasLeftParenthesis(st.operators) by {
      assert st.operators == [Op(Multiplication)];
    }
    FinishCases(st);
    assert Reversed(st.operators) == [Op(Multiplication)];
    assert st.output + Reversed(st.operators) == ParenthesesList();
  }

  lemma ParenthesesParseOn(s: string)
    requires ParenthesesChars(s)
    ensures ParseExpression(NO_NAMES, Some(s)) == (Success, ParenthesesList())
  {
    ParenthesesStacks(s);
    FinishedParse(NO_NAMES, s, ParenthesesState(7).(previous := None));
    ParenthesesFinish();
  }

  /** (24+2)*2 becomes 24 2 + 2 * and gives 52. */
  lemma ParenthesesEvaluation(variables: map<string, ArvValue.Value>)
    ensures ParseExpression(NO_NAMES, Some("(24+2)*2")) == (Success, ParenthesesList())
    ensures Evaluation(NO_NAMES, Some("(24+2)*2"), variables) == Outcome(Success, 52)
  {
    ParenthesesParseOn("(24+2)*2");
    ParenthesesRun(variables);
  }

  // ---------------------------------------------------------------------
  // A sub-expression naming a sub-expression is refused

  /** The sub-expression A is defined as A itself. */
  const SELF_NAMES := Names(map[], map["A" := "A"])

  /** Within a sub-expression, a name of a sub-expression fails. */
  lemma NestedSubExpression(names: Names, s: string, pos: nat, st: ParserState, t: Token, next: nat)
    requires pos <= |s| && NextToken(s, pos, st.previous) == (Some(t), next)
    requires !IsConstant(names, t) && IsSubExpression(names, t)
    ensures ParseFrom(names, s, pos, true, st) == Failed(ForbiddenRecursion)
  {
  }

  lemma RecursionOpen(s: string)
    requires |s| == 3 && s[0] == '(' && s[1] == 'A' && s[2] == ')'
    ensures ParseFrom(SELF_NAMES, s, 0, true, EMPTY_STATE)
      == ParseFrom(SELF_NAMES, s, 1, true, ParserState([], [Op(LeftParenthesis)], Some(Op(LeftParenthesis))))
  {
    var open := Op(LeftParenthesis);
    SymbolTokenAt(s, 0, None, LeftParenthesis);
    ShuntLeftParenthesis(open, EMPTY_STATE);
    ShuntStep(SELF_NAMES, s, 0, EMPTY_STATE, open, 1, ParserState([], [open], Some(open)));
  }

  lemma RecursionName(s: string)
    requires |s| == 3 && s[0] == '(' && s[1] == 'A' && s[2] == ')'
    ensures NextToken(s, 1, Some(Op(LeftParenthesis))) == (Some(NewVariable("A")), 2)
  {
    LetterToken(s, 1, Some(Op(LeftParenthesis)));
    assert [s[1]] == "A";
  }

  /** Inside the sub-expression, "(A)", the name A is refused. */
  lemma RecursionInside(s: string)
    requires |s| == 3 && s[0] == '(' && s[1] == 'A' && s[2] == ')'
    ensures ParseFrom(SELF_NAMES, s, 0, true, EMPTY_STATE) == Failed(ForbiddenRecursion)
  {
    var open := Op(LeftParenthesis);
    RecursionOpen(s);
    RecursionName(s);
    NestedSubExpression(SELF_NAMES, s, 1, ParserState([], [open], Some(open)), NewVariable("A"), 2);
  }

  /** A sub-expression that fails makes the whole parse fail. */
  lemma FailingSubExpression(names: Names, s: string, pos: nat, st: ParserState, t: Token, next: nat, e: Status)
    requires pos <= |s| && NextToken(s, pos, st.previous) == (Some(t), next)
    requires !IsConstant(names, t) && IsSubExpression(names, t)
    requires ParseFrom(names, Parenthesized(names.subExpressions[t.data.name]), 0, true, st) == Failed(e)
    ensures ParseFrom(names, s, pos, false, st) == Failed(e)
  {
  }

  /** The expression A opens the sub-expression A, which names itself. */
  lemma RecursionOutside(s: string)
    requires |s| == 1 && s[0] == 'A'
    ensures ParseFrom(SELF_NAMES, s, 0, false, EMPTY_STATE) == Failed(ForbiddenRecursion)
  {
    RecursionTopName(s);
    var inner := SelfFormula();
    RecursionInside(inner);
    FailingSubExpression(SELF_NAMES, s, 0, EMPTY_STATE, NewVariable("A"), 1, ForbiddenRecursion);
  }

  lemma RecursionTopName(s: string)
    requires |s| == 1 && s[0] == 'A'
    ensures NextToken(s, 0, None) == (Some(NewVariable("A")), 1)
  {
    LetterToken(s, 0, None);
    assert [s[0]] == "A";
  }

  lemma SelfFormula() returns (inner: string)
    ensures inner == Parenthesized(SELF_NAMES.subExpressions["A"])
    ensures |inner| == 3 && inner[0] == '(' && inner[1] == 'A' && inner[2] == ')'
  {
    inner := Parenthesized(SELF_NAMES.subExpressions["A"]);
    assert inner == "(A)";
  }

  /** Evaluating A gives FORBIDDEN_RECURSION and the value 0. */
  lemma RecursionEvaluation(variables: map<string, ArvValue.Value>)
    ensures ParseExpression(SELF_NAMES, Some("A")) == (ForbiddenRecursion, [])
    ensures Evaluation(SELF_NAMES, Some("A"), variables) == Outcome(ForbiddenRecursion, 0)
  {
    RecursionOutside("A");
  }
}
