// The stack machine of the expression evaluator: `evaluate` in
// arvevaluator.c, which runs the reverse Polish token list on an array of
// ARV_EVALUATOR_STACK_SIZE (128) values.
//
// The model covers integer evaluation: every value on the stack is a
// gint64. As soon as a double would be pushed or computed (a double
// constant or variable, a division, a power or one of the transcendental
// and rounding functions), the run leaves the model with OutsideModel.
// So does INT64_MIN % -1, which traps in the x86 idiv instruction rather
// than giving a value.
// Integer arithmetic wraps around in two's complement and shifts use the
// count modulo 64, as gcc emits them on x86.
module EvaluatorEval {
  import opened Common
  import opened Bits
  import opened EvaluatorToken
  import ArvValue

  /** ArvEvaluatorStatus, in declaration order. */
  datatype Status =
    | Success | NotParsed | EmptyExpression | ParenthesesMismatch | SyntaxError
    | UnknownOperator | UnknownVariable | UnknownSubExpression | UnknownConstant
    | MissingArguments | RemainingOperands | DivisionByZero | StackOverflow | ForbiddenRecursion

  const STACK_SIZE: nat := 128

  /** What one token does to the top of the stack: replace the arguments
      it takes by one value, stop with a status, or leave the model. */
  datatype StepResult = Write(v: int64) | Fail(status: Status) | Outside

  /** The result of a run; on an error the value returned is 0. */
  datatype Outcome = Outcome(status: Status, value: int64) | OutsideModel

  // ---------------------------------------------------------------------
  // Integer operators

  function Truth(b: bool): int64 { if b then 1 else 0 }

  function Abs(x: int): nat { if x < 0 then -x else x }

  /** The signed bitwise operators, on the 64-bit two's complement patterns. */
  function BitAnd(a: int64, b: int64): int64
  {
    ToI64(AndBits(ToU64(a), ToU64(b), 64))
  }

  function BitOr(a: int64, b: int64): int64
  {
    ToI64(OrBits(ToU64(a), ToU64(b), 64))
  }

  function BitXor(a: int64, b: int64): int64
  {
    ToI64(XorBits(ToU64(a), ToU64(b), 64))
  }

  /** `~a`: in two's complement, -a - 1. */
  function BitNot(a: int64): (r: int64)
    ensures r + a == -1
  {
    -(a as int) - 1
  }

  /** `a >> b`: arithmetic shift by the count modulo 64, rounding toward
      minus infinity. */
  function ArithmeticShiftRight(a: int64, b: int64): int64
  {
    var d := Pow2(b % 64);
    DivBounds(a, d);
    a / d
  }

  /** `a % b` in C: the remainder of the division truncated toward zero. */
  function TruncatedRemainder(a: int64, b: int64): int64
    requires b != 0
  {
    var m := Abs(a) % Abs(b);
    RemainderLemma(a, b, m);
    if a < 0 then -(m as int) else m
  }

  /** `abs` on a gint64 as written: its argument is converted to int, that
      is to its low 32 bits, and abs(INT_MIN) stays INT_MIN. */
  function AbsAsWritten(a: int64): int64
  {
    var t := ToI32(a);
    if t < 0 then ToI32(-(t as int)) else t
  }

  /** The absolute value of a gint64, as intended; INT64_MIN stays itself. */
  function Abs64(a: int64): (r: int64)
    ensures a != INT64_MIN ==> r == Abs(a)
    ensures a == INT64_MIN ==> r == INT64_MIN
  {
    ToI64(Abs(a))
  }

  function Sign(a: int64): (r: int64)
    ensures (r == -1 <==> a < 0) && (r == 0 <==> a == 0) && (r == 1 <==> a > 0)
  {
    if a < 0 then -1 else if a > 0 then 1 else 0
  }

  // ---------------------------------------------------------------------
  // One token

  /** The switch on the token id: args are the top NArgs(id) values,
      the deepest first. */
  function Apply(t: Token, args: seq<int64>, variables: map<string, ArvValue.Value>): (r: StepResult)
    requires |args| == NArgs(t.id)
    ensures r.Fail? ==> r.status in {DivisionByZero, UnknownVariable, UnknownOperator}
    ensures r.Fail? && r.status == DivisionByZero ==> t.id in {Remainder, Division} && args[1] == 0
    ensures r.Fail? && r.status == UnknownVariable ==> t.id == Variable && t.data.NameData? && t.data.name !in variables
  {
    match t.id
    case LogicalAnd => Write(Truth(args[0] != 0 && args[1] != 0))
    case LogicalOr => Write(Truth(args[0] != 0 || args[1] != 0))
    case BitwiseNot => Write(BitNot(args[0]))
    case BitwiseAnd => Write(BitAnd(args[0], args[1]))
    case BitwiseOr => Write(BitOr(args[0], args[1]))
    case BitwiseXor => Write(BitXor(args[0], args[1]))
    case Equal => Write(Truth(args[0] == args[1]))
    case NotEqual => Write(Truth(args[0] != args[1]))
    case LessOrEqual => Write(Truth(args[0] <= args[1]))
    case GreaterOrEqual => Write(Truth(args[0] >= args[1]))
    case Less => Write(Truth(args[0] < args[1]))
    case Greater => Write(Truth(args[0] > args[1]))
    case ShiftRight => Write(ArithmeticShiftRight(args[0], args[1]))
    case ShiftLeft => Write(WrappingShiftLeft(args[0], args[1]))
    case Substraction => Write(ToI64(args[0] as int - args[1]))
    case Addition => Write(ToI64(args[0] as int + args[1]))
    case Remainder =>
      if args[1] == 0 then Fail(DivisionByZero)
      else if args[0] == INT64_MIN && args[1] == -1 then Outside
      else Write(TruncatedRemainder(args[0], args[1]))
    // The source tests the divisor converted to double against 0.0, which
    // holds exactly for 0 (DivisionTestsZero).
    case Division => if args[1] == 0 then Fail(DivisionByZero) else Outside
    case Multiplication => Write(ToI64(args[0] as int * args[1]))
    case Power => Outside
    case Minus => Write(ToI64(-(args[0] as int)))
    case Plus => Write(args[0])
    case FunctionSgn => Write(Sign(args[0]))
    case FunctionNeg => Write(ToI64(-(args[0] as int)))
    case FunctionAbs => Write(AbsAsWritten(args[0]))
    case FunctionSin => Outside
    case FunctionCos => Outside
    case FunctionAtan => Outside
    case FunctionTan => Outside
    case FunctionExp => Outside
    case FunctionLn => Outside
    case FunctionLg => Outside
    case FunctionSqrt => Outside
    case FunctionTrunc => Outside
    case FunctionFloor => Outside
    case FunctionCeil => Outside
    case FunctionAsin => Outside
    case FunctionAcos => Outside
    case ConstantInt64 => if t.data.Int64Data? then Write(t.data.v) else Outside
    case ConstantDouble => Outside
    case Variable =>
      if !t.data.NameData? then Outside
      else if t.data.name !in variables then Fail(UnknownVariable)
      else if variables[t.data.name].Int64Value? then Write(variables[t.data.name].i)
      else Outside
    case TernaryColon => Write(args[0])
    case TernaryQuestionMark => Write(if args[0] != 0 then args[1] else args[2])
    case Unknown => Fail(UnknownOperator)
    case Comma => Fail(UnknownOperator)
    case RightParenthesis => Fail(UnknownOperator)
    case LeftParenthesis => Fail(UnknownOperator)
  }

  // ---------------------------------------------------------------------
  // The run

  /** What the switch of evaluate does with one token and its arguments. */
  type Semantics = (Token, seq<int64>) -> StepResult

  /** The switch of evaluate on the integer values, with the variables in
      scope; Step always hands a token NArgs(id) arguments. */
  function Switch(variables: map<string, ArvValue.Value>): Semantics
  {
    (t: Token, args: seq<int64>) => if |args| == NArgs(t.id) then Apply(t, args, variables) else Outside
  }

  /** A semantics whose only errors are those of an operator. */
  ghost predicate OperatorErrorsOnly(apply: Semantics)
  {
    forall t: Token, args: seq<int64> :: apply(t, args).Fail? ==>
      apply(t, args).status in {DivisionByZero, UnknownVariable, UnknownOperator}
  }

  /** What one token does to the whole stack (bottom first). */
  datatype Transition = Push(stack: seq<int64>) | Halt(outcome: Outcome)

  /** One turn of the loop of evaluate: before the token acts, too few
      values gives MISSING_ARGUMENTS and a full stack STACK_OVERFLOW; the
      token then replaces its arguments by one value. */
  function Step(apply: Semantics, t: Token, stack: seq<int64>): Transition
  {
    var n := NArgs(t.id);
    if |stack| < n then Halt(Outcome(MissingArguments, 0))
    else if |stack| >= STACK_SIZE then Halt(Outcome(StackOverflow, 0))
    else
      match apply(t, stack[|stack| - n..])
      case Write(v) => Push(stack[..|stack| - n] + [v])
      case Fail(status) => Halt(Outcome(status, 0))
      case Outside => Halt(OutsideModel)
  }

  /** After the last token, anything but one value is REMAINING_OPERANDS. */
  function Final(stack: seq<int64>): (o: Outcome)
    ensures o.Outcome? && (o.status == Success <==> |stack| == 1)
    ensures o.status == Success ==> o.value == stack[0]
    ensures o.status != Success ==> o.value == 0
  {
    if |stack| != 1 then Outcome(RemainingOperands, 0) else Outcome(Success, stack[0])
  }

  /** The run of rpn[i..] from the given stack. */
  function RunOn(apply: Semantics, rpn: seq<Token>, i: nat, stack: seq<int64>): Outcome
    requires i <= |rpn|
    decreases |rpn| - i
  {
    if i == |rpn| then Final(stack)
    else
      match Step(apply, rpn[i], stack)
      case Push(next) => RunOn(apply, rpn, i + 1, next)
      case Halt(o) => o
  }

  /** The run of evaluate on a whole list. */
  function Run(rpn: seq<Token>, variables: map<string, ArvValue.Value>): Outcome
  {
    RunOn(Switch(variables), rpn, 0, [])
  }

  /** A step needs its arguments and room on the stack, leaves the values
      below its arguments as they were and adds one on top; a step that
      stops reports an error and the value 0. */
  lemma StepShape(apply: Semantics, t: Token, stack: seq<int64>)
    ensures var r := Step(apply, t, stack);
      r.Push? ==>
        && NArgs(t.id) <= |stack| < STACK_SIZE
        && |r.stack| == |stack| - NArgs(t.id) + 1
        && r.stack[..|r.stack| - 1] == stack[..|stack| - NArgs(t.id)]
    ensures var r := Step(apply, t, stack);
      r.Halt? && r.outcome.Outcome? && OperatorErrorsOnly(apply) ==> r.outcome.value == 0 && r.outcome.status != Success
  {
  }

  /** The loop of evaluate, on its array of 128 values and its index of
      the top, for the given switch. */
  method EvaluateOn(rpn: seq<Token>, apply: Semantics) returns (o: Outcome)
    ensures o == RunOn(apply, rpn, 0, [])
  {
    var stack := new int64[STACK_SIZE];
    var index: int := -1;
    var i := 0;
    while i < |rpn|
      invariant 0 <= i <= |rpn|
      invariant -1 <= index < STACK_SIZE
      invariant RunOn(apply, rpn, i, stack[..index + 1]) == RunOn(apply, rpn, 0, [])
    {
      var n := NArgs(rpn[i].id);
      if index < n as int - 1 {
        return Outcome(MissingArguments, 0);
      }
      if index >= STACK_SIZE - 1 {
        return Outcome(StackOverflow, 0);
      }
      var k := index - n + 1;
      ghost var before := stack[..index + 1];
      assert stack[k..index + 1] == before[|before| - n..];
      var r := apply(rpn[i], stack[k..index + 1]);
      match r {
        case Write(v) =>
          stack[k] := v;
          assert stack[..k + 1] == before[..|before| - n] + [v];
        case Fail(status) =>
          return Outcome(status, 0);
        case Outside =>
          return OutsideModel;
      }
      index := k;
      i := i + 1;
    }
    if index != 0 {
      return Outcome(RemainingOperands, 0);
    }
    return Outcome(Success, stack[0]);
  }

  /** evaluate: the loop with the switch on the integer values. */
  method Evaluate(rpn: seq<Token>, variables: map<string, ArvValue.Value>) returns (o: Outcome)
    ensures o == Run(rpn, variables)
  {
    o := EvaluateOn(rpn, Switch(variables));
  }

  // ---------------------------------------------------------------------
  // Arithmetic helpers

  lemma MulAtLeastSelf(q: int, d: int)
    requires q >= 0 && d >= 1
    ensures q * d >= q
  {
    assert q * d == q + q * (d - 1);
  }

  lemma DivBounds(a: int64, d: nat)
    requires d >= 1
    ensures INT64_MIN <= a / d <= INT64_MAX
    ensures (a / d) * d <= a < (a / d + 1) * d
  {
    var q, r := a / d, a % d;
    assert a == q * d + r && 0 <= r < d;
    assert (q + 1) * d == q * d + d;
    if a >= 0 {
      if q < 0 {
        MulAtLeast(-q, d);
      }
      MulAtLeastSelf(q, d);
    } else {
      if q >= 0 {
        MulAtLeastSelf(q, d);
      }
      if q < a {
        MulAtLeastSelf(-(q + 1), d);
        assert (-(q + 1)) * d == -((q + 1) * d);
      }
    }
  }

  lemma RemainderLemma(a: int64, b: int64, m: nat)
    requires b != 0 && m == Abs(a) % Abs(b)
    ensures var r := if a < 0 then -(m as int) else m; (a - r) % Abs(b) == 0 && m < Abs(b)
  {
    var q := Abs(a) / Abs(b);
    assert Abs(a) == q * Abs(b) + m;
    var r := if a < 0 then -(m as int) else m;
    var k := if a < 0 then -(q as int) else q;
    assert a - r == k * Abs(b);
    DivModUnique(a - r, Abs(b), k, 0);
  }

  // ---------------------------------------------------------------------
  // The shape of a reverse Polish list

  /** Starting from a stack of d values, every token of rpn[i..] finds its
      arguments and room on the stack, and one value is left. */
  predicate Balanced(rpn: seq<Token>, i: nat, d: int)
    requires i <= |rpn|
    decreases |rpn| - i
  {
    if i == |rpn| then d == 1
    else
      var n := NArgs(rpn[i].id);
      n <= d < STACK_SIZE && Balanced(rpn, i + 1, d - n + 1)
  }

  /** A successful run implies the list is balanced, whatever the switch. */
  lemma {:induction false} SuccessIsBalanced(apply: Semantics, rpn: seq<Token>, i: nat, stack: seq<int64>)
    requires OperatorErrorsOnly(apply)
    requires i <= |rpn|
    requires RunOn(apply, rpn, i, stack).Outcome? && RunOn(apply, rpn, i, stack).status == Success
    ensures Balanced(rpn, i, |stack|)
    decreases |rpn| - i
  {
    if i < |rpn| {
      var r := Step(apply, rpn[i], stack);
      StepShape(apply, rpn[i], stack);
      if r.Push? {
        SuccessIsBalanced(apply, rpn, i + 1, r.stack);
      }
    }
  }

  /** On a balanced list the structural errors do not occur: a run ends
      in success, in an operator's own error, or outside the model. */
  lemma {:induction false} BalancedAvoidsStructuralErrors(apply: Semantics, rpn: seq<Token>, i: nat, stack: seq<int64>)
    requires OperatorErrorsOnly(apply)
    requires i <= |rpn| && Balanced(rpn, i, |stack|)
    ensures var o := RunOn(apply, rpn, i, stack);
      o.Outcome? ==> o.status in {Success, DivisionByZero, UnknownVariable, UnknownOperator}
    decreases |rpn| - i
  {
    if i < |rpn| {
      var r := Step(apply, rpn[i], stack);
      if r.Push? {
        StepShape(apply, rpn[i], stack);
        BalancedAvoidsStructuralErrors(apply, rpn, i + 1, r.stack);
      }
    }
  }

  /** The switch of evaluate fails only with an operator's error. */
  lemma SwitchErrors(variables: map<string, ArvValue.Value>)
    ensures OperatorErrorsOnly(Switch(variables))
  {
  }

  /** The two together: on the lists evaluate runs, success means a
      balanced list, and a balanced list ends in success, a division by
      zero, an unknown variable or an unknown operator. */
  lemma RunShape(rpn: seq<Token>, variables: map<string, ArvValue.Value>)
    ensures Run(rpn, variables).Outcome? && Run(rpn, variables).status == Success ==> Balanced(rpn, 0, 0)
    ensures Balanced(rpn, 0, 0) && Run(rpn, variables).Outcome? ==>
      Run(rpn, variables).status in {Success, DivisionByZero, UnknownVariable, UnknownOperator}
  {
    SwitchErrors(variables);
    if Run(rpn, variables).Outcome? && Run(rpn, variables).status == Success {
      SuccessIsBalanced(Switch(variables), rpn, 0, []);
    }
    if Balanced(rpn, 0, 0) {
      BalancedAvoidsStructuralErrors(Switch(variables), rpn, 0, []);
    }
  }

  // ---------------------------------------------------------------------
  // Properties of the operators

  /** The division's test of its divisor, converted to double, against 0.0
      is a test for 0; `%` and `/` report DIVISION_BY_ZERO exactly then. */
  lemma DivisionTestsZero(a: int64, b: int64, variables: map<string, ArvValue.Value>)
    ensures ArvValue.GetDouble(ArvValue.Int64Value(b)) == 0.0 <==> b == 0
    ensures Apply(NewToken(Remainder), [a, b], variables) == Fail(DivisionByZero) <==> b == 0
    ensures Apply(NewToken(Division), [a, b], variables) == Fail(DivisionByZero) <==> b == 0
  {
    ArvValue.IntToDoubleZero(b);
  }

  /** The remainder is the C one: 7 % -2 == 1 and -7 % 2 == -1. */
  lemma RemainderExamples()
    ensures TruncatedRemainder(7, -2) == 1 && TruncatedRemainder(-7, 2) == -1 && TruncatedRemainder(10, 3) == 1 && TruncatedRemainder(-6, 3) == 0
  {
  }

  /** Exclusive or undoes itself; or with 0 and and with itself change
      nothing. */
  lemma BitwiseLaws(a: int64, b: int64)
    ensures BitXor(BitXor(a, b), b) == a
    ensures BitOr(a, 0) == a && BitAnd(a, a) == a && BitAnd(a, 0) == 0
  {
    Pow2Values();
    var x, y := ToU64(a), ToU64(b);
    XorBitsBound(x, y, 64);
    UnsignedRoundTrip(XorBits(x, y, 64));
    XorBitsTwice(x, y, 64);
    OrBitsZero(x, 64);
    AndBitsSelf(x, 64);
    SignedRoundTrip(a);
  }

  /** `%` is the C remainder: it differs from a by a multiple of b, is
      smaller than b in magnitude and has the sign of a. */
  lemma RemainderProperties(a: int64, b: int64)
    requires b != 0
    ensures var r := TruncatedRemainder(a, b);
      (a - r) % Abs(b) == 0 && Abs(r) < Abs(b) && (a >= 0 ==> r >= 0) && (a < 0 ==> r <= 0)
  {
    RemainderLemma(a, b, Abs(a) % Abs(b));
  }

  /** A right shift by b divides by 2^(b mod 64), rounding toward minus
      infinity. */
  lemma ShiftRightBounds(a: int64, b: int64)
    ensures var r, d := ArithmeticShiftRight(a, b), Pow2(b % 64);
      r * d <= a < (r + 1) * d
  {
    DivBounds(a, Pow2(b % 64));
  }

  /** A right shift keeps the sign of its operand. */
  lemma ShiftRightSign(a: int64, b: int64)
    ensures ArithmeticShiftRight(a, b) < 0 <==> a < 0
  {
    var d := Pow2(b % 64);
    var r := a / d;
    DivBounds(a, d);
    if r >= 0 {
      MulAtLeastSelf(r, d);
    }
    if r + 1 <= 0 {
      MulAtLeastSelf(-(r + 1), d);
    }
  }

  /** A left shift that does not overflow multiplies by a power of two. */
  lemma ShiftLeftMultiplies(a: int64, b: int64)
    requires 0 <= b < 64 && 0 <= a * Pow2(b) <= INT64_MAX
    ensures WrappingShiftLeft(a, b) == a * Pow2(b)
  {
    assert b % 64 == b;
    assert a * Pow2(b % 64) == a * Pow2(b);
    ToI64Identity(a * Pow2(b));
  }

  lemma ToI32Identity(x: int)
    requires -0x8000_0000 <= x < 0x8000_0000
    ensures ToI32(x) == x
  {
    if x < 0 {
      DivModUnique(x, 0x1_0000_0000, -1, x + 0x1_0000_0000);
    }
  }

  /** abs as written agrees with the 64-bit absolute value on operands of
      31 bits ... */
  lemma AbsAsWrittenAgreesBelow31Bits(a: int64)
    requires -0x7fff_ffff <= a <= 0x7fff_ffff
    ensures AbsAsWritten(a) == Abs64(a)
  {
    ToI32Identity(a);
    ToI32Identity(-(a as int));
  }

  /** ... and not beyond: 2^32 gives 0 and 3000000000 gives 1294967296. */
  lemma AbsAsWrittenTruncates()
    ensures AbsAsWritten(0x1_0000_0000) == 0 && Abs64(0x1_0000_0000) == 0x1_0000_0000
    ensures AbsAsWritten(3000000000) == 1294967296 && Abs64(3000000000) == 3000000000
  {
  }

  /** The switch with the evidently intended ABS, the 64-bit one. */
  function ApplyCorrected(t: Token, args: seq<int64>, variables: map<string, ArvValue.Value>): (r: StepResult)
    requires |args| == NArgs(t.id)
    ensures t.id == FunctionAbs && args[0] != INT64_MIN ==> r == Write(Abs(args[0]))
    ensures t.id != FunctionAbs ==> r == Apply(t, args, variables)
  {
    if t.id == FunctionAbs then Write(Abs64(args[0])) else Apply(t, args, variables)
  }

  /** The switch as written and the corrected one agree on every token but
      ABS, and on ABS of an operand of 31 bits; ABS of 3000000000 is where
      they part. */
  lemma ApplyCorrectedAgrees(t: Token, args: seq<int64>, variables: map<string, ArvValue.Value>)
    requires |args| == NArgs(t.id)
    requires t.id == FunctionAbs ==> -0x7fff_ffff <= args[0] <= 0x7fff_ffff
    ensures ApplyCorrected(t, args, variables) == Apply(t, args, variables)
  {
    if t.id == FunctionAbs {
      AbsAsWrittenAgreesBelow31Bits(args[0]);
    }
  }

  lemma AbsRunsDiffer(variables: map<string, ArvValue.Value>)
    ensures Apply(NewToken(FunctionAbs), [3000000000], variables) == Write(1294967296)
    ensures ApplyCorrected(NewToken(FunctionAbs), [3000000000], variables) == Write(3000000000)
  {
    AbsAsWrittenTruncates();
  }

  // ---------------------------------------------------------------------
  // Runs of the reverse Polish lists of the evaluator tests

  /** The tokens NewInt64(v) and NewToken(id) build, spelt out. */
  function I(v: int64): Token { Token(ConstantInt64, Int64Data(v)) }
  function Op(id: TokenId): Token { Token(id, NoData) }

  /** 1<<4 is 16, 16>>4 is 1, ~255 is -256. */
  lemma ShiftExamples()
    ensures WrappingShiftLeft(1, 4) == 16 && ArithmeticShiftRight(16, 4) == 1 && BitNot(255) == -256
  {
    assert Pow2(4) == 16 by { Pow2Values(); }
  }

  /** The count is taken modulo 64 and the bits shifted out are lost:
      1<<64 is 1, 1<<63 is INT64_MIN and -1>>70 is -1. */
  lemma ShiftWrapExamples()
    ensures WrappingShiftLeft(1, 64) == 1 && WrappingShiftLeft(1, 63) == INT64_MIN
    ensures ArithmeticShiftRight(-1, 70) == -1
  {
    Pow2Values();
  }

  /** 255&8 is 8. */
  lemma BitwiseAndExample()
    ensures BitAnd(255, 8) == 8
  {
    ToU64Identity(255);
    ToU64Identity(8);
    assert AndBits(31, 1, 61) == 1;
    assert AndBits(63, 2, 62) == 2;
    assert AndBits(127, 4, 63) == 4;
    assert AndBits(255, 8, 64) == 8;
    ToI64Identity(8);
  }

  /** 128|8 is 136. */
  lemma BitwiseOrExample()
    ensures BitOr(128, 8) == 136
  {
    ToU64Identity(128);
    ToU64Identity(8);
    assert OrBits(1, 0, 57) == 1;
    assert OrBits(2, 0, 58) == 2;
    assert OrBits(4, 0, 59) == 4;
    assert OrBits(8, 0, 60) == 8;
    assert OrBits(16, 1, 61) == 17;
    assert OrBits(32, 2, 62) == 34;
    assert OrBits(64, 4, 63) == 68;
    assert OrBits(128, 8, 64) == 136;
    ToI64Identity(136);
  }

  /** 3^1 is 2. */
  lemma BitwiseXorExample()
    ensures BitXor(3, 1) == 2
  {
    ToU64Identity(3);
    ToU64Identity(1);
    assert XorBits(3, 1, 64) == 2;
    ToI64Identity(2);
  }

  /** The switch applies an operator to exactly its number of arguments. */
  lemma SwitchApplies(t: Token, args: seq<int64>, variables: map<string, ArvValue.Value>)
    requires |args| == NArgs(t.id)
    ensures Switch(variables)(t, args) == Apply(t, args, variables)
  {
  }

  /** A constant writes its value. */
  lemma SwitchConstant(v: int64, variables: map<string, ArvValue.Value>)
    ensures Switch(variables)(I(v), []) == Write(v)
  {
    assert NArgs(ConstantInt64) == 0;
    assert Apply(I(v), [], variables) == Write(v);
  }

  /** A constant pushes its value. */
  lemma PushConstant(apply: Semantics, below: seq<int64>, v: int64)
    requires |below| < STACK_SIZE && apply(I(v), []) == Write(v)
    ensures Step(apply, I(v), below) == Push(below + [v])
  {
    assert below[|below|..] == [];
    assert below[..|below|] == below;
  }

  /** An operator of two arguments replaces them by the value it writes. */
  lemma PushBinary(apply: Semantics, id: TokenId, below: seq<int64>, a: int64, b: int64, v: int64)
    requires NArgs(id) == 2 && |below| + 2 < STACK_SIZE
    requires apply(Op(id), [a, b]) == Write(v)
    ensures Step(apply, Op(id), below + [a, b]) == Push(below + [v])
  {
    var s := below + [a, b];
    assert s[|s| - 2..] == [a, b];
    assert s[..|s| - 2] == below;
  }

  /** A token that pushes continues the run on the new stack. */
  lemma RunPush(apply: Semantics, rpn: seq<Token>, i: nat, t: Token, stack: seq<int64>, next: seq<int64>)
    requires i < |rpn| && rpn[i] == t && Step(apply, t, stack) == Push(next)
    ensures RunOn(apply, rpn, i, stack) == RunOn(apply, rpn, i + 1, next)
  {
  }

  /** A constant in the list continues the run with its value pushed. */
  lemma ConstantRun(apply: Semantics, rpn: seq<Token>, i: nat, v: int64, below: seq<int64>)
    requires i < |rpn| && rpn[i] == I(v) && |below| < STACK_SIZE && apply(I(v), []) == Write(v)
    ensures RunOn(apply, rpn, i, below) == RunOn(apply, rpn, i + 1, below + [v])
  {
    PushConstant(apply, below, v);
    RunPush(apply, rpn, i, I(v), below, below + [v]);
  }

  /** An operator of two arguments in the list continues the run with the
      value it writes in place of its arguments. */
  lemma BinaryRun(apply: Semantics, rpn: seq<Token>, i: nat, id: TokenId, below: seq<int64>, a: int64, b: int64, v: int64)
    requires i < |rpn| && rpn[i] == Op(id) && NArgs(id) == 2 && |below| + 2 < STACK_SIZE
    requires apply(Op(id), [a, b]) == Write(v)
    ensures RunOn(apply, rpn, i, below + [a, b]) == RunOn(apply, rpn, i + 1, below + [v])
  {
    PushBinary(apply, id, below, a, b, v);
    RunPush(apply, rpn, i, Op(id), below + [a, b], below + [v]);
  }

  /** 2*8 is 16 and 4*-3 is -12. */
  lemma MultiplicationExample(variables: map<string, ArvValue.Value>)
    ensures Apply(Op(Multiplication), [2, 8], variables) == Write(16)
    ensures Apply(Op(Multiplication), [4, -3], variables) == Write(-12)
  {
  }

  /** 24+16 is 40 and 10-8 is 2. */
  lemma AdditionExample(variables: map<string, ArvValue.Value>)
    ensures Apply(Op(Addition), [24, 16], variables) == Write(40)
    ensures Apply(Op(Substraction), [10, 8], variables) == Write(2)
  {
  }

  /** 24 2 8 * +, the list of 24+2*8. */
  function PrecedenceList(): seq<Token>
  {
    [I(24), I(2), I(8), Op(Multiplication), Op(Addition)]
  }

  /** A run of constants in the list, from i to j, pushes them in order. */
  lemma {:induction false} ConstantsRun(apply: Semantics, rpn: seq<Token>, i: nat, j: nat, vs: seq<int64>, below: seq<int64>)
    requires j == i + |vs| && j <= |rpn| && |below| + |vs| <= STACK_SIZE
    requires forall k :: i <= k < j ==> rpn[k] == I(vs[k - i])
    requires forall v :: apply(I(v), []) == Write(v)
    ensures RunOn(apply, rpn, i, below) == RunOn(apply, rpn, j, below + vs)
    decreases |vs|
  {
    if |vs| == 0 {
      assert below + vs == below;
    } else {
      var v, rest, mid := vs[0], vs[1..], below + [vs[0]];
      assert rpn[i] == I(v);
      ConstantRun(apply, rpn, i, v, below);
      ConstantsRun(apply, rpn, i + 1, j, rest, mid);
      assert mid + rest == below + vs;
    }
  }

  /** Every constant writes its own value. */
  lemma SwitchConstants(variables: map<string, ArvValue.Value>)
    ensures forall v :: Switch(variables)(I(v), []) == Write(v)
  {
    forall v: int64 ensures Switch(variables)(I(v), []) == Write(v) {
      SwitchConstant(v, variables);
    }
  }

  /** Its two operators. */
  lemma PrecedenceOperatorsRun(variables: map<string, ArvValue.Value>)
    ensures RunOn(Switch(variables), PrecedenceList(), 3, [24, 2, 8]) == Outcome(Success, 40)
  {
    var rpn := PrecedenceList();
    MultiplicationExample(variables);
    AdditionExample(variables);
    assert rpn[3] == Op(Multiplication);
    SwitchApplies(Op(Multiplication), [2, 8], variables);
    BinaryRun(Switch(variables), rpn, 3, Multiplication, [24], 2, 8, 16);
    assert [24] + [2, 8] == [24, 2, 8] && [24] + [16] == [24, 16];
    assert rpn[4] == Op(Addition);
    SwitchApplies(Op(Addition), [24, 16], variables);
    BinaryRun(Switch(variables), rpn, 4, Addition, [], 24, 16, 40);
    assert [] + [24, 16] == [24, 16] && [] + [40] == [40];
  }

  /** 24+2*8 gives 40. */
  lemma PrecedenceRun(variables: map<string, ArvValue.Value>)
    ensures Run(PrecedenceList(), variables) == Outcome(Success, 40)
  {
    var rpn := PrecedenceList();
    SwitchConstants(variables);
    assert rpn[0] == I(24) && rpn[1] == I(2) && rpn[2] == I(8);
    ConstantsRun(Switch(variables), rpn, 0, 3, [24, 2, 8], []);
    assert [] + [24, 2, 8] == [24, 2, 8];
    PrecedenceOperatorsRun(variables);
  }

  /** 24 2 + 2 *, the list of (24+2)*2. */
  function ParenthesesList(): seq<Token>
  {
    [I(24), I(2), Op(Addition), I(2), Op(Multiplication)]
  }

  /** 24+2 is 26 and 26*2 is 52. */
  lemma ParenthesesOperators(variables: map<string, ArvValue.Value>)
    ensures Apply(Op(Addition), [24, 2], variables) == Write(26)
    ensures Apply(Op(Multiplication), [26, 2], variables) == Write(52)
  {
  }

  /** 24 2 + leaves 26. */
  lemma ParenthesesSumRun(variables: map<string, ArvValue.Value>)
    ensures RunOn(Switch(variables), ParenthesesList(), 0, []) == RunOn(Switch(variables), ParenthesesList(), 3, [26])
  {
    var rpn := ParenthesesList();
    ParenthesesOperators(variables);
    assert rpn[0] == I(24);
    SwitchConstant(24, variables);
    ConstantRun(Switch(variables), rpn, 0, 24, []);
    assert [] + [24] == [24];
    assert rpn[1] == I(2);
    SwitchConstant(2, variables);
    ConstantRun(Switch(variables), rpn, 1, 2, [24]);
    assert [24] + [2] == [24, 2];
    assert rpn[2] == Op(Addition);
    SwitchApplies(Op(Addition), [24, 2], variables);
    BinaryRun(Switch(variables), rpn, 2, Addition, [], 24, 2, 26);
    assert [] + [24, 2] == [24, 2] && [] + [26] == [26];
  }

  /** (24+2)*2 gives 52. */
  lemma ParenthesesRun(variables: map<string, ArvValue.Value>)
    ensures Run(ParenthesesList(), variables) == Outcome(Success, 52)
  {
    var rpn := ParenthesesList();
    ParenthesesSumRun(variables);
    ParenthesesOperators(variables);
    assert rpn[3] == I(2);
    SwitchConstant(2, variables);
    ConstantRun(Switch(variables), rpn, 3, 2, [26]);
    assert [26] + [2] == [26, 2];
    assert rpn[4] == Op(Multiplication);
    SwitchApplies(Op(Multiplication), [26, 2], variables);
    BinaryRun(Switch(variables), rpn, 4, Multiplication, [], 26, 2, 52);
    assert [] + [26, 2] == [26, 2] && [] + [52] == [52];
  }

  /** 10%3 is 1, 1%0 is DIVISION_BY_ZERO, 1/0 too. */
  lemma RemainderRunExamples(variables: map<string, ArvValue.Value>)
    ensures Apply(Op(Remainder), [10, 3], variables) == Write(1)
    ensures Apply(Op(Remainder), [1, 0], variables) == Fail(DivisionByZero)
    ensures Apply(Op(Division), [1, 0], variables) == Fail(DivisionByZero)
  {
  }

  /** 1=1 is 1, and the ternary picks its second or third value. */
  lemma TernaryExamples(variables: map<string, ArvValue.Value>)
    ensures Apply(Op(Equal), [1, 1], variables) == Write(1)
    ensures Apply(Op(TernaryQuestionMark), [1, 1, 0], variables) == Write(1)
    ensures Apply(Op(TernaryQuestionMark), [0, 1, 0], variables) == Write(0)
  {
  }

  /** Errors: a lone `+` lacks arguments, an empty list leaves no value,
      a comma reaching the machine is an unknown operator. */
  lemma ErrorRuns(variables: map<string, ArvValue.Value>)
    ensures Run([Op(Addition)], variables) == Outcome(MissingArguments, 0)
    ensures Run([], variables) == Outcome(RemainingOperands, 0)
    ensures Run([Op(Comma)], variables) == Outcome(UnknownOperator, 0)
  {
  }

  /** 1 2, two values without an operator. */
  function TwoValuesList(): seq<Token>
  {
    [I(1), I(2)]
  }

  /** 1 2 leaves two values. */
  lemma RemainingOperandsRun(variables: map<string, ArvValue.Value>)
    ensures Run(TwoValuesList(), variables) == Outcome(RemainingOperands, 0)
  {
    var rpn := TwoValuesList();
    assert rpn[0] == I(1);
    SwitchConstant(1, variables);
    ConstantRun(Switch(variables), rpn, 0, 1, []);
    assert [] + [1] == [1];
    assert rpn[1] == I(2);
    SwitchConstant(2, variables);
    ConstantRun(Switch(variables), rpn, 1, 2, [1]);
    assert [1] + [2] == [1, 2];
  }

  /** A variable is read from the table; a missing one is UNKNOWN_VARIABLE. */
  lemma VariableRuns()
    ensures Run([NewVariable("A_1")], map["A_1" := ArvValue.Int64Value(123)]) == Outcome(Success, 123)
    ensures Run([NewVariable("A_1")], map[]) == Outcome(UnknownVariable, 0)
  {
  }
}
