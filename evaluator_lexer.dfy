// The tokenizer of the expression evaluator: arv_get_next_token
// (arvevaluator.c), over a C string modelled by its characters (a
// position at or past the end, or at a NUL, reads as the terminator).
//
// Integer literals are read by g_ascii_strtoll with base 0 and double
// literals by arv_str_parse_double; the longer of the two wins, the integer
// on a tie. g_ascii_strtoll is GLib's: it is modelled by the strtoll rules
// of ISO C (section 7.22.1.4 of C11) for a subject that starts with a digit:
// "0x"/"0X" followed by a hexadecimal digit starts a hexadecimal number, a
// leading 0 an octal one, anything else a decimal one; a value beyond
// INT64_MAX is clamped to it.
module EvaluatorLexer {
  import opened Common
  import opened EvaluatorToken
  import ArvValue
  import ArvStr

  function At(s: string, i: nat): char
  {
    if i < |s| then s[i] else '\0'
  }

  predicate IsAlpha(c: char) { 'a' <= c <= 'z' || 'A' <= c <= 'Z' }
  predicate IsDigit(c: char) { '0' <= c <= '9' }
  predicate IsAlnum(c: char) { IsAlpha(c) || IsDigit(c) }
  predicate IsIdentifierChar(c: char) { IsAlnum(c) || c == '_' }

  // ---------------------------------------------------------------------
  // Scanners

  /** arv_str_skip_spaces: past g_ascii_isspace characters. */
  function SkipSpaces(s: string, i: nat): (e: nat)
    requires i <= |s|
    ensures i <= e <= |s|
    ensures !ArvStr.IsAsciiSpace(At(s, e))
    ensures forall k | i <= k < e :: ArvStr.IsAsciiSpace(s[k])
    decreases |s| - i
  {
    if i < |s| && ArvStr.IsAsciiSpace(s[i]) then SkipSpaces(s, i + 1) else i
  }

  /** The end of the run of letters, digits and underscores at i. */
  function IdentifierEnd(s: string, i: nat): (e: nat)
    requires i <= |s|
    ensures i <= e <= |s|
    ensures !IsIdentifierChar(At(s, e))
    ensures forall k | i <= k < e :: IsIdentifierChar(s[k])
    decreases |s| - i
  {
    if i < |s| && IsIdentifierChar(s[i]) then IdentifierEnd(s, i + 1) else i
  }

  // ---------------------------------------------------------------------
  // g_ascii_strtoll (nptr, &end, 0) on a subject starting with a digit

  function DigitValue(c: char): nat
  {
    if '0' <= c <= '9' then c as nat - '0' as nat
    else if 'a' <= c <= 'z' then c as nat - 'a' as nat + 10
    else if 'A' <= c <= 'Z' then c as nat - 'A' as nat + 10
    else 36
  }

  predicate IsDigitOf(c: char, base: nat) { DigitValue(c) < base }

  /** The end of the run of digits of the base at i. */
  function BaseDigitsEnd(s: string, i: nat, base: nat): (e: nat)
    requires i <= |s| && base <= 36
    ensures i <= e <= |s|
    ensures !IsDigitOf(At(s, e), base)
    decreases |s| - i
  {
    if i < |s| && IsDigitOf(s[i], base) then BaseDigitsEnd(s, i + 1, base) else i
  }

  /** The number written by s[lo..hi] in the base. */
  function DigitsValue(s: string, lo: nat, hi: nat, base: nat): nat
    requires lo <= hi <= |s|
    decreases hi
  {
    if hi == lo then 0 else DigitsValue(s, lo, hi - 1, base) * base + DigitValue(s[hi - 1])
  }

  datatype IntegerLiteral = IntegerLiteral(base: nat, digitsStart: nat, end: nat)

  /** Where the digits of the literal at i lie, and in which base. */
  function IntegerDigits(s: string, i: nat): (r: IntegerLiteral)
    requires i < |s| && IsDigit(s[i])
    ensures i < r.end <= |s| && r.digitsStart <= r.end
  {
    if s[i] == '0' && (At(s, i + 1) == 'x' || At(s, i + 1) == 'X') && IsDigitOf(At(s, i + 2), 16) then
      IntegerLiteral(16, i + 2, BaseDigitsEnd(s, i + 2, 16))
    else if s[i] == '0' then
      IntegerLiteral(8, i, BaseDigitsEnd(s, i, 8))
    else
      IntegerLiteral(10, i, BaseDigitsEnd(s, i, 10))
  }

  /** The value g_ascii_strtoll returns: clamped to INT64_MAX. */
  function StrToLL(s: string, i: nat): (v: int64)
    requires i < |s| && IsDigit(s[i])
    ensures v >= 0
  {
    var lit := IntegerDigits(s, i);
    Min(DigitsValue(s, lit.digitsStart, lit.end, lit.base), INT64_MAX)
  }

  // ---------------------------------------------------------------------
  // Identifiers

  function ToLower(c: char): char
  {
    if 'A' <= c <= 'Z' then (c as int - 'A' as int + 'a' as int) as char else c
  }

  function Lowercase(s: string): (r: string)
    ensures |r| == |s| && forall k | 0 <= k < |s| :: r[k] == ToLower(s[k])
  {
    seq(|s|, k requires 0 <= k < |s| => ToLower(s[k]))
  }

  /** The function named by an identifier, compared without case as
      g_ascii_strncasecmp does; Unknown when it names none. */
  function Keyword(name: string): TokenId
  {
    LowercaseKeyword(Lowercase(name))
  }

  /** The function named by a lower-case identifier. */
  function LowercaseKeyword(n: string): TokenId
  {
    if n == "ln" then FunctionLn else if n == "lg" then FunctionLg
    else if n == "sin" then FunctionSin else if n == "cos" then FunctionCos
    else if n == "sgn" then FunctionSgn else if n == "neg" then FunctionNeg
    else if n == "tan" then FunctionTan else if n == "abs" then FunctionAbs
    else if n == "exp" then FunctionExp
    else if n == "atan" then FunctionAtan else if n == "sqrt" then FunctionSqrt
    else if n == "ceil" then FunctionCeil else if n == "asin" then FunctionAsin
    else if n == "acos" then FunctionAcos
    else if n == "trunc" then FunctionTrunc else if n == "floor" then FunctionFloor
    else Unknown
  }

  // ---------------------------------------------------------------------
  // arv_get_next_token

  /** `-` and `+` are binary after an operand or a right parenthesis. */
  predicate FollowsOperand(previous: Option<Token>)
  {
    previous.Some? && (IsOperand(previous) || IsRightParenthesis(previous))
  }

  /** The token of a character that is no digit, letter or underscore, and
      how many characters it takes; Unknown for any other character. */
  function Punctuation(c: char, d: char, previous: Option<Token>): (r: (TokenId, nat))
    ensures r.0 != Unknown ==> r.1 >= 1
  {
    match c
    case '(' => (LeftParenthesis, 1)
    case ')' => (RightParenthesis, 1)
    case ',' => (Comma, 1)
    case '?' => (TernaryQuestionMark, 1)
    case ':' => (TernaryColon, 1)
    case '+' => (if FollowsOperand(previous) then Addition else Plus, 1)
    case '-' => (if FollowsOperand(previous) then Substraction else Minus, 1)
    case '*' => if d == '*' then (Power, 2) else (Multiplication, 1)
    case '/' => (Division, 1)
    case '%' => (Remainder, 1)
    case '&' => if d == '&' then (LogicalAnd, 2) else (BitwiseAnd, 1)
    case '|' => if d == '|' then (LogicalOr, 2) else (BitwiseOr, 1)
    case '^' => (BitwiseXor, 1)
    case '~' => (BitwiseNot, 1)
    case '<' =>
      if d == '>' then (NotEqual, 2)
      else if d == '<' then (ShiftLeft, 2)
      else if d == '=' then (LessOrEqual, 2)
      else (Less, 1)
    case '>' =>
      if d == '>' then (ShiftRight, 2)
      else if d == '=' then (GreaterOrEqual, 2)
      else (Greater, 1)
    case '=' => (Equal, 1)
    case _ => (Unknown, 0)
  }

  /** A number at p (a digit): the integer reading unless the double
      reading is longer. The integer reading takes at least the digit, so
      the source's test that one of the two lengths is positive holds. */
  function NumberToken(s: string, p: nat): (r: (Option<Token>, nat))
    requires p < |s| && IsDigit(s[p])
    ensures p < r.1 <= |s| && r.0.Some?
  {
    var lengthInt64 := IntegerDigits(s, p).end - p;
    var doubleEnd := match ArvStr.NumberEnd(s, p) case Some(e) => e case None => p;
    if doubleEnd - p > lengthInt64 then (Some(NewDouble(s[p..doubleEnd])), doubleEnd)
    else (Some(NewInt64AsWritten(StrToLL(s, p))), p + lengthInt64)
  }

  /** The identifier s[p..e]: a function token or a variable. */
  function WordToken(s: string, p: nat, e: nat): (t: Token)
    requires p <= e <= |s|
  {
    var id := Keyword(s[p..e]);
    if id != Unknown then NewToken(id) else NewVariable(s[p..e])
  }

  /** An operator or punctuation character at p. */
  function SymbolToken(s: string, p: nat, previous: Option<Token>): (r: (Option<Token>, nat))
    requires p <= |s|
    ensures p <= r.1 && (r.0.Some? ==> r.1 > p)
  {
    var sym := Punctuation(At(s, p), At(s, p + 1), previous);
    if sym.0 != Unknown then (Some(NewToken(sym.0)), p + sym.1) else (None, p)
  }

  /** The token at position pos (after spaces) and the position after it,
      given the previous token; None at the terminator or at a character
      no token starts with, the position then being after the spaces. */
  function NextToken(s: string, pos: nat, previous: Option<Token>): (r: (Option<Token>, nat))
    requires pos <= |s|
    ensures pos <= r.1 <= |s|
    ensures r.0.Some? ==> r.1 > pos
  {
    var p := SkipSpaces(s, pos);
    var c := At(s, p);
    if c == '\0' then (None, p)
    else if IsDigit(c) then NumberToken(s, p)
    else if IsAlpha(c) || c == '_' then (Some(WordToken(s, p, IdentifierEnd(s, p))), IdentifierEnd(s, p))
    else
      assert p < |s|;
      SymbolToken(s, p, previous)
  }

  method ReadNumber(s: string, p: nat) returns (token: Option<Token>, next: nat)
    requires p < |s| && IsDigit(s[p])
    ensures (token, next) == NumberToken(s, p)
  {
    var lengthInt64 := IntegerDigits(s, p).end - p;
    var ok, end := ArvStr.ParseDouble(s, p);
    var lengthDouble := end - p;
    if lengthDouble > lengthInt64 {
      return Some(NewDouble(s[p..end])), end;
    }
    return Some(NewInt64AsWritten(StrToLL(s, p))), p + lengthInt64;
  }

  method ReadWord(s: string, p: nat) returns (token: Token, next: nat)
    requires p <= |s|
    ensures next == IdentifierEnd(s, p) && token == WordToken(s, p, next)
  {
    next := p;
    while next < |s| && IsIdentifierChar(s[next])
      invariant p <= next <= |s|
      invariant IdentifierEnd(s, next) == IdentifierEnd(s, p)
    {
      next := next + 1;
    }
    var id := Keyword(s[p..next]);
    if id != Unknown {
      token := NewToken(id);
    } else {
      token := NewVariable(s[p..next]);
    }
  }

  /** arv_get_next_token, with its scanning loops. */
  method GetNextToken(s: string, pos: nat, previous: Option<Token>) returns (token: Option<Token>, next: nat)
    requires pos <= |s|
    ensures (token, next) == NextToken(s, pos, previous)
  {
    var p := pos;
    while p < |s| && ArvStr.IsAsciiSpace(s[p])
      invariant pos <= p <= |s|
      invariant SkipSpaces(s, p) == SkipSpaces(s, pos)
    {
      p := p + 1;
    }
    var c := At(s, p);
    if c == '\0' {
      return None, p;
    } else if IsDigit(c) {
      token, next := ReadNumber(s, p);
    } else if IsAlpha(c) || c == '_' {
      var t;
      t, next := ReadWord(s, p);
      token := Some(t);
    } else {
      var sym := Punctuation(c, At(s, p + 1), previous);
      if sym.0 != Unknown {
        return Some(NewToken(sym.0)), p + sym.1;
      }
      return None, p;
    }
  }

  // ---------------------------------------------------------------------
  // The integer token as written

  /** arv_evaluator_token_new_int64 as written: its parameter is declared
      `double`, so the value goes through a double. */
  function NewInt64AsWritten(v: int64): (t: Token)
    ensures t.id == ConstantInt64 && t.data.Int64Data?
  {
    Token(ConstantInt64, Int64Data(ArvValue.DoubleToInt64(ArvValue.IntToDouble(v) as real)))
  }

  /** The literal 9007199254740993 (2^53 + 1) becomes 9007199254740992, and
      a literal clamped to INT64_MAX becomes INT64_MIN. */
  lemma {:induction false} NewInt64AsWrittenRounds()
    ensures NewInt64AsWritten(9007199254740993).data.v == 9007199254740992
    ensures NewInt64AsWritten(INT64_MAX).data.v == INT64_MIN
    ensures NewInt64(9007199254740993).data.v == 9007199254740993
  {
    ArvValue.NewInt64AsWrittenLosesPrecision();
  }

  /** Up to 2^53 the token as written holds the literal's value. */
  lemma NewInt64AsWrittenExactBelow53Bits(v: int64)
    requires 0 <= v <= ArvValue.TWO_53
    ensures NewInt64AsWritten(v) == NewInt64(v)
  {
    ArvValue.IntToDoubleExact(v);
  }

  // ---------------------------------------------------------------------
  // Properties

  /** An integer literal becomes the constant as written, which holds the
      value strtoll reads whenever that value has at most 53 bits. */
  lemma IntegerLiteralToken(s: string, pos: nat, previous: Option<Token>)
    requires pos <= |s|
    requires var p := SkipSpaces(s, pos); p < |s| && IsDigit(s[p])
    requires var p := SkipSpaces(s, pos);
      (match ArvStr.NumberEnd(s, p) case Some(e) => e case None => p) <= IntegerDigits(s, p).end
    ensures var p := SkipSpaces(s, pos); var (t, next) := NextToken(s, pos, previous);
      t == Some(NewInt64AsWritten(StrToLL(s, p))) && next == IntegerDigits(s, p).end
      && (StrToLL(s, p) <= ArvValue.TWO_53 ==> t == Some(NewInt64(StrToLL(s, p))))
  {
    var p := SkipSpaces(s, pos);
    if StrToLL(s, p) <= ArvValue.TWO_53 {
      NewInt64AsWrittenExactBelow53Bits(StrToLL(s, p));
    }
  }

  /** No token: the terminator or a character no token starts with, and the
      cursor stays after the spaces. A token: the cursor moves past it. */
  lemma NextTokenCases(s: string, pos: nat, previous: Option<Token>)
    requires pos <= |s|
    ensures var (t, next) := NextToken(s, pos, previous);
      var p := SkipSpaces(s, pos);
      (t.None? <==> At(s, p) == '\0' || (!IsIdentifierChar(At(s, p)) && Punctuation(At(s, p), At(s, p + 1), previous).0 == Unknown))
      && (t.None? ==> next == p)
      && (t.Some? ==> p < next)
  {
    var p := SkipSpaces(s, pos);
    if IsDigit(At(s, p)) {
      assert IntegerDigits(s, p).end > p;
    }
  }

  /** `-` is a subtraction exactly after an operand or `)`, a unary minus
      otherwise; `+` likewise. Each takes one character. */
  lemma SignDependsOnPrevious(s: string, pos: nat, previous: Option<Token>)
    requires pos <= |s|
    requires var p := SkipSpaces(s, pos); At(s, p) == '-' || At(s, p) == '+'
    ensures var (t, next) := NextToken(s, pos, previous);
      var p := SkipSpaces(s, pos);
      t.Some? && next == p + 1
      && (At(s, p) == '-' ==> (t.value.id == Substraction <==> FollowsOperand(previous)))
      && (At(s, p) == '-' ==> (t.value.id == Minus <==> !FollowsOperand(previous)))
      && (At(s, p) == '+' ==> (t.value.id == Addition <==> FollowsOperand(previous)))
      && (At(s, p) == '+' ==> (t.value.id == Plus <==> !FollowsOperand(previous)))
  {
  }

  /** A token of two characters is exactly one of the eight pairs. */
  lemma TwoCharacterOperators(c: char, d: char, previous: Option<Token>)
    ensures Punctuation(c, d, previous).1 == 2 <==> [c, d] in ["**", "&&", "||", "<>", "<<", "<=", ">>", ">="]
  {
  }

  /** ... and each pair is read as its operator, not as two tokens. */
  lemma TwoCharacterOperatorIds(previous: Option<Token>)
    ensures Punctuation('*', '*', previous).0 == Power && Punctuation('&', '&', previous).0 == LogicalAnd
    ensures Punctuation('|', '|', previous).0 == LogicalOr && Punctuation('<', '>', previous).0 == NotEqual
    ensures Punctuation('<', '<', previous).0 == ShiftLeft && Punctuation('<', '=', previous).0 == LessOrEqual
    ensures Punctuation('>', '>', previous).0 == ShiftRight && Punctuation('>', '=', previous).0 == GreaterOrEqual
  {
  }

  /** Any other character is looked up in the table of punctuation. */
  lemma SymbolStartsToken(s: string, pos: nat, previous: Option<Token>)
    requires pos <= |s|
    requires var c := At(s, SkipSpaces(s, pos)); c != '\0' && !IsDigit(c) && !IsAlpha(c) && c != '_'
    ensures NextToken(s, pos, previous) == SymbolToken(s, SkipSpaces(s, pos), previous)
    ensures var p := SkipSpaces(s, pos); var sym := Punctuation(At(s, p), At(s, p + 1), previous);
      NextToken(s, pos, previous) == (if sym.0 == Unknown then (None, p) else (Some(NewToken(sym.0)), p + sym.1))
  {
    var p := SkipSpaces(s, pos);
    var c := At(s, p);
    assert c != '\0' && !IsDigit(c) && !(IsAlpha(c) || c == '_');
    assert NextToken(s, pos, previous) == SymbolToken(s, p, previous);
  }

  /** An identifier is read to its end; it names a function whatever its
      case, and is a variable with its exact text otherwise. */
  lemma IdentifierToken(s: string, pos: nat, previous: Option<Token>)
    requires pos <= |s|
    requires var p := SkipSpaces(s, pos); IsAlpha(At(s, p)) || At(s, p) == '_'
    ensures var (t, next) := NextToken(s, pos, previous);
      var p := SkipSpaces(s, pos);
      t.Some? && next == IdentifierEnd(s, p) && !IsIdentifierChar(At(s, next))
      && (Keyword(s[p..next]) != Unknown ==> t.value == NewToken(Keyword(s[p..next])))
      && (Keyword(s[p..next]) == Unknown ==> t.value == NewVariable(s[p..next]))
  {
  }

  lemma KeywordIgnoresCase(name: string)
    ensures Keyword(Lowercase(name)) == Keyword(name)
  {
    assert Lowercase(Lowercase(name)) == Lowercase(name);
  }

  lemma KeywordExamples()
    ensures Keyword("SIN") == FunctionSin && Keyword("Cos") == FunctionCos
  {
    assert Lowercase("SIN") == "sin";
    assert Lowercase("Cos") == "cos";
  }

  lemma MoreKeywordExamples()
    ensures Keyword("abs") == FunctionAbs && Keyword("FLOOR") == FunctionFloor
  {
    assert Lowercase("abs") == "abs";
    assert Lowercase("FLOOR") == "floor";
  }

  /** PI and sine are no function names: they are read as variables. */
  lemma NotKeywordExamples()
    ensures Keyword("PI") == Unknown && Keyword("sine") == Unknown
  {
    assert Lowercase("PI") == "pi";
    assert Lowercase("sine") == "sine";
  }

  /** Numbers: decimal, hexadecimal and octal integers; a fraction or an
      exponent makes a double, as does an octal literal followed by 8 or
      9 (the double reading is longer). */
  lemma DecimalExample()
    ensures NextToken("10", 0, None) == (Some(NewInt64(10)), 2)
  {
    var s := "10";
    assert IntegerDigits(s, 0) == IntegerLiteral(10, 0, 2) by {
      assert BaseDigitsEnd(s, 0, 10) == 2;
    }
    assert StrToLL(s, 0) == 10 by {
      assert DigitsValue(s, 0, 2, 10) == 10;
    }
    assert ArvStr.NumberEnd(s, 0) == Some(2) by {
      assert ArvStr.DigitsEnd(s, 0) == 2;
    }
    IntegerLiteralToken(s, 0, None);
  }

  lemma HexadecimalExample()
    ensures NextToken("0x1F", 0, None) == (Some(NewInt64(31)), 4)
  {
    var s := "0x1F";
    assert IntegerDigits(s, 0) == IntegerLiteral(16, 2, 4) by {
      assert BaseDigitsEnd(s, 2, 16) == 4;
    }
    assert StrToLL(s, 0) == 31 by {
      assert DigitsValue(s, 2, 4, 16) == 31;
    }
    assert ArvStr.NumberEnd(s, 0) == Some(1) by {
      assert ArvStr.DigitsEnd(s, 0) == 1;
    }
    IntegerLiteralToken(s, 0, None);
  }

  lemma OctalExample()
    ensures NextToken("010", 0, None) == (Some(NewInt64(8)), 3)
  {
    var s := "010";
    assert IntegerDigits(s, 0) == IntegerLiteral(8, 0, 3) by {
      assert BaseDigitsEnd(s, 0, 8) == 3;
    }
    assert StrToLL(s, 0) == 8 by {
      assert DigitsValue(s, 0, 3, 8) == 8;
    }
    assert ArvStr.NumberEnd(s, 0) == Some(3) by {
      assert ArvStr.DigitsEnd(s, 0) == 3;
    }
    IntegerLiteralToken(s, 0, None);
  }

  /** A number whose floating-point reading is longer than its integer
      reading becomes a double token. */
  lemma DoubleToken(s: string, e: nat)
    requires 0 < |s| && IsDigit(s[0])
    requires ArvStr.NumberEnd(s, 0) == Some(e) && IntegerDigits(s, 0).end < e
    ensures NextToken(s, 0, None) == (Some(NewDouble(s[..e])), e)
  {
    assert SkipSpaces(s, 0) == 0;
    assert NumberToken(s, 0) == (Some(NewDouble(s[0..e])), e);
  }

  lemma FractionExample()
    ensures NextToken("2.5", 0, None) == (Some(NewDouble("2.5")), 3)
  {
    ArvStr.ParseDoubleExponentExamples();
    assert BaseDigitsEnd("2.5", 0, 10) == 1;
    assert IntegerDigits("2.5", 0).end == 1;
    DoubleToken("2.5", 3);
    assert "2.5"[..3] == "2.5";
  }

  lemma ExponentExample()
    ensures NextToken("1e3", 0, None) == (Some(NewDouble("1e3")), 3)
  {
    ArvStr.ParseDoubleExponentExamples();
    assert BaseDigitsEnd("1e3", 0, 10) == 1;
    assert IntegerDigits("1e3", 0).end == 1;
    DoubleToken("1e3", 3);
    assert "1e3"[..3] == "1e3";
  }

  lemma NotOctalExample()
    ensures NextToken("08", 0, None) == (Some(NewDouble("08")), 2)
  {
    assert ArvStr.DigitsEnd("08", 0) == 2;
    assert ArvStr.NumberEnd("08", 0) == Some(2);
    assert BaseDigitsEnd("08", 0, 8) == 1;
    assert "08"[0..2] == "08";
  }
}
