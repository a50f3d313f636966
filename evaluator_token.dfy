// Tokens of the GenICam expression evaluator (arvevaluator.c): the token
// ids in their declaration order, the table of tag, precedence, argument
// count and associativity, the token classification predicates and
// arv_evaluator_token_compare_precedence.
module EvaluatorToken {
  import opened Common

  /** ArvEvaluatorTokenId, in declaration order. */
  datatype TokenId =
    | Unknown | Comma | TernaryQuestionMark | TernaryColon
    | LogicalOr | LogicalAnd | BitwiseNot | BitwiseOr | BitwiseXor | BitwiseAnd
    | Equal | NotEqual | LessOrEqual | GreaterOrEqual | Less | Greater
    | ShiftRight | ShiftLeft | Substraction | Addition | Remainder | Division | Multiplication | Power
    | Minus | Plus
    | FunctionSin | FunctionCos | FunctionSgn | FunctionNeg | FunctionAtan | FunctionTan | FunctionAbs
    | FunctionExp | FunctionLn | FunctionLg | FunctionSqrt | FunctionTrunc | FunctionFloor | FunctionCeil
    | FunctionAsin | FunctionAcos
    | RightParenthesis | LeftParenthesis
    | ConstantInt64 | ConstantDouble | Variable

  /** The numeric value of an id (its position in the enumeration). */
  function Ordinal(id: TokenId): (n: nat)
    ensures n < 47
  {
    match id
    case Unknown => 0 case Comma => 1 case TernaryQuestionMark => 2 case TernaryColon => 3
    case LogicalOr => 4 case LogicalAnd => 5 case BitwiseNot => 6 case BitwiseOr => 7
    case BitwiseXor => 8 case BitwiseAnd => 9 case Equal => 10 case NotEqual => 11
    case LessOrEqual => 12 case GreaterOrEqual => 13 case Less => 14 case Greater => 15
    case ShiftRight => 16 case ShiftLeft => 17 case Substraction => 18 case Addition => 19
    case Remainder => 20 case Division => 21 case Multiplication => 22 case Power => 23
    case Minus => 24 case Plus => 25 case FunctionSin => 26 case FunctionCos => 27
    case FunctionSgn => 28 case FunctionNeg => 29 case FunctionAtan => 30 case FunctionTan => 31
    case FunctionAbs => 32 case FunctionExp => 33 case FunctionLn => 34 case FunctionLg => 35
    case FunctionSqrt => 36 case FunctionTrunc => 37 case FunctionFloor => 38 case FunctionCeil => 39
    case FunctionAsin => 40 case FunctionAcos => 41 case RightParenthesis => 42
    case LeftParenthesis => 43 case ConstantInt64 => 44 case ConstantDouble => 45 case Variable => 46
  }

  datatype Associativity = LeftToRight | RightToLeft

  /** arv_evaluator_token_infos, column by column: the tag, the
      precedence, the number of arguments and the associativity of each
      id. The rows with a 0 associativity are LEFT_TO_RIGHT, the first
      enumerator. */
  function Tag(id: TokenId): string
  {
    match id
    case Unknown => ""
    case Comma => ","
    case TernaryQuestionMark => "?"
    case TernaryColon => ":"
    case LogicalOr => "||"
    case LogicalAnd => "&&"
    case BitwiseNot => "~"
    case BitwiseOr => "|"
    case BitwiseXor => "^"
    case BitwiseAnd => "&"
    case Equal => "="
    case NotEqual => "<>"
    case LessOrEqual => "<="
    case GreaterOrEqual => ">="
    case Less => "<"
    case Greater => ">"
    case ShiftRight => ">>"
    case ShiftLeft => "<<"
    case Substraction => "-"
    case Addition => "+"
    case Remainder => "%"
    case Division => "/"
    case Multiplication => "*"
    case Power => "**"
    case Minus => "minus"
    case Plus => "plus"
    case FunctionSin => "sin"
    case FunctionCos => "cos"
    case FunctionSgn => "sgn"
    case FunctionNeg => "neg"
    case FunctionAtan => "atan"
    case FunctionTan => "tan"
    case FunctionAbs => "abs"
    case FunctionExp => "exp"
    case FunctionLn => "ln"
    case FunctionLg => "lg"
    case FunctionSqrt => "sqrt"
    case FunctionTrunc => "trunc"
    case FunctionFloor => "floor"
    case FunctionCeil => "ceil"
    case FunctionAsin => "asin"
    case FunctionAcos => "acos"
    case RightParenthesis => ")"
    case LeftParenthesis => "("
    case ConstantInt64 => "int64"
    case ConstantDouble => "double"
    case Variable => "var"
  }

  function Precedence(id: TokenId): int
  {
    match id
    case Unknown | Comma => 0
    case TernaryQuestionMark | TernaryColon => 5
    case LogicalOr => 10
    case LogicalAnd => 20
    case BitwiseNot => 30
    case BitwiseOr => 40
    case BitwiseXor => 50
    case BitwiseAnd => 60
    case Equal | NotEqual => 70
    case LessOrEqual | GreaterOrEqual | Less | Greater => 80
    case ShiftRight | ShiftLeft => 90
    case Substraction | Addition => 100
    case Remainder | Division | Multiplication => 110
    case Power => 120
    case Minus | Plus => 130
    case FunctionSin | FunctionCos | FunctionSgn | FunctionNeg | FunctionAtan | FunctionTan
      | FunctionAbs | FunctionExp | FunctionLn | FunctionLg | FunctionSqrt | FunctionTrunc
      | FunctionFloor | FunctionCeil | FunctionAsin | FunctionAcos | ConstantInt64
      | ConstantDouble | Variable => 200
    case RightParenthesis => 990
    case LeftParenthesis => -1
  }

  function NArgs(id: TokenId): nat
  {
    match id
    case Unknown | TernaryColon | BitwiseNot | Minus | Plus | FunctionSin | FunctionCos
      | FunctionSgn | FunctionNeg | FunctionAtan | FunctionTan | FunctionAbs | FunctionExp
      | FunctionLn | FunctionLg | FunctionSqrt | FunctionTrunc | FunctionFloor | FunctionCeil
      | FunctionAsin | FunctionAcos => 1
    case Comma | RightParenthesis | LeftParenthesis | ConstantInt64 | ConstantDouble | Variable => 0
    case TernaryQuestionMark => 3
    case LogicalOr | LogicalAnd | BitwiseOr | BitwiseXor | BitwiseAnd | Equal | NotEqual
      | LessOrEqual | GreaterOrEqual | Less | Greater | ShiftRight | ShiftLeft | Substraction
      | Addition | Remainder | Division | Multiplication | Power => 2
  }

  function AssociativityOf(id: TokenId): Associativity
  {
    match id
    case Unknown | Comma | LogicalOr | LogicalAnd | BitwiseNot | BitwiseOr | BitwiseXor
      | BitwiseAnd | Equal | NotEqual | LessOrEqual | GreaterOrEqual | Less | Greater
      | ShiftRight | ShiftLeft | Substraction | Addition | Remainder | Division | Multiplication
      | FunctionSin | FunctionCos | FunctionSgn | FunctionNeg | FunctionAtan | FunctionTan
      | FunctionAbs | FunctionExp | FunctionLn | FunctionLg | FunctionSqrt | FunctionTrunc
      | FunctionFloor | FunctionCeil | FunctionAsin | FunctionAcos | RightParenthesis
      | LeftParenthesis | ConstantInt64 | ConstantDouble | Variable => LeftToRight
    case TernaryQuestionMark | TernaryColon | Power | Minus | Plus => RightToLeft
  }

  /** The data union of a token. A double constant keeps the text it was
      read from: the value arv_str_parse_double computes is not modelled. */
  datatype TokenData = NoData | Int64Data(v: int64) | DoubleData(text: string) | NameData(name: string)

  datatype Token = Token(id: TokenId, data: TokenData)

  /** arv_evaluator_token_new: the union zero-filled. */
  function NewToken(id: TokenId): (t: Token)
    ensures t.id == id
  {
    Token(id, NoData)
  }

  function NewVariable(name: string): (t: Token)
    ensures IsVariable(Some(t)) && t.data == NameData(name)
  {
    Token(Variable, NameData(name))
  }

  function NewDouble(text: string): (t: Token)
    ensures IsOperand(Some(t)) && !IsVariable(Some(t))
  {
    Token(ConstantDouble, DoubleData(text))
  }

  /** arv_evaluator_token_new_int64 as intended: the token holds the value. */
  function NewInt64(v: int64): (t: Token)
    ensures IsOperand(Some(t)) && t.data == Int64Data(v)
  {
    Token(ConstantInt64, Int64Data(v))
  }

  // Classification of a possibly NULL token.

  predicate IsVariable(t: Option<Token>) { t.Some? && t.value.id == Variable }

  predicate IsOperand(t: Option<Token>) { t.Some? && Ordinal(t.value.id) > Ordinal(LeftParenthesis) }

  predicate IsOperator(t: Option<Token>)
  {
    t.Some? && Ordinal(t.value.id) > Ordinal(Unknown) && Ordinal(t.value.id) < Ordinal(RightParenthesis)
  }

  predicate IsComma(t: Option<Token>) { t.Some? && t.value.id == Comma }
  predicate IsLeftParenthesis(t: Option<Token>) { t.Some? && t.value.id == LeftParenthesis }
  predicate IsRightParenthesis(t: Option<Token>) { t.Some? && t.value.id == RightParenthesis }

  /** arv_evaluator_token_compare_precedence: whether the operator on top of
      the stack (b) is output before pushing a: a left-associative a yields
      to operators of equal or higher precedence, a right-associative one
      only to higher ones. NULL on either side gives FALSE. (The source also
      rejects ids beyond the table; every modelled id is in it.) */
  function ComparePrecedence(a: Option<Token>, b: Option<Token>): (r: bool)
    ensures r ==> a.Some? && b.Some?
  {
    if a.None? || b.None? then false
    else
      var pa, pb := Precedence(a.value.id), Precedence(b.value.id);
      (pa <= pb && AssociativityOf(a.value.id) == LeftToRight)
      || (pa < pb && AssociativityOf(a.value.id) == RightToLeft)
  }

  // ---------------------------------------------------------------------
  // Properties

  /** The classes are disjoint: an operator is no operand and no parenthesis;
      a comma counts among the operators but is handled before them. */
  lemma ClassesDisjoint(t: Option<Token>)
    ensures !(IsOperand(t) && IsOperator(t))
    ensures IsOperator(t) ==> !IsLeftParenthesis(t) && !IsRightParenthesis(t)
    ensures IsComma(t) ==> IsOperator(t)
  {
  }

  /** The operands are the constants and the variables; every token is an
      operand, an operator, a parenthesis or the unknown token. */
  lemma ClassesCover(t: Option<Token>)
    ensures IsOperand(t) <==> t.Some? && t.value.id in {ConstantInt64, ConstantDouble, Variable}
    ensures t.Some? ==> (IsOperand(t) || IsOperator(t) || IsLeftParenthesis(t) || IsRightParenthesis(t)
                         || t.value.id == Unknown)
  {
  }

  /** Operators other than the comma take one to three arguments; operands
      take none. */
  lemma ArgumentCounts(id: TokenId)
    ensures IsOperator(Some(NewToken(id))) && id != Comma ==> 1 <= NArgs(id) <= 3
  {
  }

  /** Operands and parentheses take no argument. */
  lemma OperandArgumentCount(id: TokenId)
    ensures !IsOperator(Some(NewToken(id))) && id != Unknown ==> NArgs(id) == 0
  {
  }

  /** Only `?` takes three arguments. */
  lemma TernaryArgumentCount(id: TokenId)
    ensures NArgs(id) == 3 <==> id == TernaryQuestionMark
  {
  }

  /** A left parenthesis on the stack is never popped by an operator: no
      operator has a precedence below -1. */
  lemma LeftParenthesisStops(a: Token, b: Token)
    requires IsOperator(Some(a)) && b.id == LeftParenthesis
    ensures !ComparePrecedence(Some(a), Some(b))
  {
  }

  /** Precedence yields in the classical way: with equal precedence a
      left-associative operator pops and a right-associative one does not;
      a strictly higher precedence on the stack always pops, a strictly
      lower one never does. */
  lemma PrecedenceOrder(a: Token, b: Token)
    ensures Precedence(a.id) < Precedence(b.id) ==> ComparePrecedence(Some(a), Some(b))
    ensures Precedence(a.id) > Precedence(b.id) ==> !ComparePrecedence(Some(a), Some(b))
    ensures Precedence(a.id) == Precedence(b.id) ==>
      (ComparePrecedence(Some(a), Some(b)) <==> AssociativityOf(a.id) == LeftToRight)
  {
  }

  /** Multiplication binds tighter than addition. */
  lemma PrecedenceExamples()
    ensures ComparePrecedence(Some(NewToken(Addition)), Some(NewToken(Multiplication)))
    ensures !ComparePrecedence(Some(NewToken(Multiplication)), Some(NewToken(Addition)))
  {
  }

  /** Subtraction associates to the left: it pops an equal operator. */
  lemma LeftAssociativityExample()
    ensures ComparePrecedence(Some(NewToken(Substraction)), Some(NewToken(Substraction)))
  {
  }

  /** Power and the unary signs associate to the right: they do not pop an
      equal operator. */
  lemma RightAssociativityExamples()
    ensures !ComparePrecedence(Some(NewToken(Power)), Some(NewToken(Power)))
    ensures !ComparePrecedence(Some(NewToken(Minus)), Some(NewToken(Minus)))
  {
  }

  /** Nothing pops a missing token. */
  lemma MissingTokenExample()
    ensures !ComparePrecedence(None, Some(NewToken(Addition)))
  {
  }
}
