/** The tokens of search expressions. Positions are indices into the text; index
    |s| is the terminating NUL, and nothing reads beyond it. */
module ExprLexer {

  const INT_MAX: nat := 0x7FFF_FFFF
  const SIZE_MAX: nat := 0xFFFF_FFFF_FFFF_FFFF

  /** A NUL-terminated text, at most as long as an object can be. */
  type Text = s: string | '\0' !in s && |s| <= SIZE_MAX / 2 witness ""

  datatype Error =
    | DelimiterMissing | UnknownEscape | TokenTooLong
    | EmptyExpression | TrailingToken | UnexpectedToken | RightParenExpected
    | FieldNameExpected | UnknownField | OperatorExpected | ValueExpected
    | NoValueComparison | BadValue | RegexpExpected | BadRegexp

  datatype Result<+T> = Ok(value: T) | Fail(error: Error)

  datatype Token =
    | Not | And | Or
    | RawEq | RawNe | InterpretedEq | InterpretedNe
    | ValueEq | ValueNe | ValueLt | ValueLe | ValueGt | ValueGe
    | LeftParen | RightParen | Str(v: string) | Regexp(v: string)
    | FieldEscape | Unknown | Eof

  /** A token, where it starts, and the position after it. */
  datatype Lexeme = Lexeme(start: nat, tok: Token, next: nat)

  function At(s: Text, i: nat): (c: char)
    requires i <= |s|
    ensures c == '\0' <==> i == |s|
  {
    if i < |s| then
      assert s[i] in s;
      s[i]
    else '\0'
  }

  predicate Blank(c: char)
  {
    c == ' ' || c == '\t' || c == '\n'
  }

  predicate Unquoted(c: char)
  {
    'a' <= c <= 'z' || 'A' <= c <= 'Z' || '0' <= c <= '9' || c == '_' || c == '-'
  }

  function SkipBlanks(s: Text, i: nat): (j: nat)
    requires i <= |s|
    ensures i <= j <= |s| && !Blank(At(s, j))
    ensures forall k :: i <= k < j ==> Blank(s[k])
    decreases |s| - i
  {
    if Blank(At(s, i)) then SkipBlanks(s, i + 1) else i
  }

  function SkipUnquoted(s: Text, i: nat): (j: nat)
    requires i <= |s|
    ensures i <= j <= |s| && !Unquoted(At(s, j))
    ensures forall k :: i <= k < j ==> Unquoted(s[k])
    decreases |s| - i
  {
    if Unquoted(At(s, i)) then SkipUnquoted(s, i + 1) else i
  }

  /** The delimited text that continues at `i`, unescaped, and the position after it. */
  function Delimited(s: Text, i: nat, d: char): (r: Result<(string, nat)>)
    requires i <= |s| && d != '\0'
    ensures r.Ok? ==> i < r.value.1 <= |s| && |r.value.0| < r.value.1 - i
    decreases |s| - i
  {
    if At(s, i) == d then Ok(("", i + 1))
    else if At(s, i) == '\0' then Fail(DelimiterMissing)
    else
      var j := if s[i] == '\\' then i + 1 else i;
      if j > i && At(s, j) != '\\' && At(s, j) != d then Fail(UnknownEscape)
      else
        match Delimited(s, j + 1, d)
        case Fail(e) => Fail(e)
        case Ok((v, n)) => Ok(([s[j]] + v, n))
  }

  /** The token at `i`, which is not a blank, and the position after it. */
  function Scan(s: Text, i: nat): (r: Result<(Token, nat)>)
    requires i <= |s|
    ensures r.Ok? ==> i <= r.value.1 <= |s|
    ensures r.Ok? ==> (r.value.0 == Eof <==> i == |s|) && (i < |s| ==> i < r.value.1)
  {
    var c := At(s, i);
    if c == '\0' then Ok((Eof, i))
    else if c == '!' then
      if At(s, i + 1) == '=' && At(s, i + 2) == '=' then Ok((ValueNe, i + 3)) else Ok((Not, i + 1))
    else if c == '"' || c == '/' then
      match Delimited(s, i + 1, c)
      case Fail(e) => Fail(e)
      case Ok((v, n)) => Ok((if c == '/' then Regexp(v) else Str(v), n))
    else if c == '&' then
      if At(s, i + 1) == '&' then Ok((And, i + 2)) else Ok((Unknown, i + 1))
    else if c == '(' then Ok((LeftParen, i + 1))
    else if c == ')' then Ok((RightParen, i + 1))
    else if c == '<' then
      if At(s, i + 1) == '=' then Ok((ValueLe, i + 2)) else Ok((ValueLt, i + 1))
    else if c == '=' then
      if At(s, i + 1) == '=' then Ok((ValueEq, i + 2)) else Ok((Unknown, i + 1))
    else if c == '>' then
      if At(s, i + 1) == '=' then Ok((ValueGe, i + 2)) else Ok((ValueGt, i + 1))
    else if c == '\\' then Ok((FieldEscape, i + 1))
    else if c == '|' then
      if At(s, i + 1) == '|' then Ok((Or, i + 2)) else Ok((Unknown, i + 1))
    else if c == 'i' && At(s, i + 1) == '=' then Ok((InterpretedEq, i + 2))
    else if c == 'i' && At(s, i + 1) == '!' && At(s, i + 2) == '=' then Ok((InterpretedNe, i + 3))
    else if c == 'r' && At(s, i + 1) == '=' then Ok((RawEq, i + 2))
    else if c == 'r' && At(s, i + 1) == '!' && At(s, i + 2) == '=' then Ok((RawNe, i + 3))
    else if Unquoted(c) then
      var j := SkipUnquoted(s, i + 1);
      Ok((Str(s[i..j]), j))
    else Ok((Unknown, i + 1))
  }

  /** The next token at or after `pos`. */
  function Lex(s: Text, pos: nat): (r: Result<Lexeme>)
    requires pos <= |s|
    ensures r.Ok? ==> pos <= r.value.start <= r.value.next <= |s|
    ensures r.Ok? ==> (r.value.tok == Eof <==> r.value.start == |s|)
    ensures r.Ok? && r.value.start < |s| ==> r.value.start < r.value.next
  {
    var i := SkipBlanks(s, pos);
    match Scan(s, i)
    case Fail(e) => Fail(e)
    case Ok((tok, n)) => if n - i > INT_MAX then Fail(TokenTooLong) else Ok(Lexeme(i, tok, n))
  }
}
