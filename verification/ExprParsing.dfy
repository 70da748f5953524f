/** The parser as it runs: one object holding the current token and the position
    after it, advanced by loops and recursive calls. */
module ExprParsing {
  import opened Common
  import opened ExprLexer
  import opened ExprGrammar

  /** `p`, with `v` in front of the text it found. */
  function Prepend(v: string, p: Result<(string, nat)>): Result<(string, nat)>
  {
    if p.Ok? then Ok((v + p.value.0, p.value.1)) else p
  }

  class Parsing {
    const s: Text
    const env: Env
    var token: Token
    var tokenStart: nat
    var src: nat

    ghost function Cur(): Lexeme
      reads this
    {
      Lexeme(tokenStart, token, src)
    }

    /** The object agrees with the outcome `p` of a parsing function. */
    ghost predicate Agrees(p: Parsed, r: Result<Expr>)
      reads this
    {
      if p.Ok? then r == Ok(p.value.0) && Cur() == p.value.1 else r == Fail(p.error)
    }

    constructor (text: Text, e: Env)
      ensures s == text && env == e && src == 0
    {
      s, env := text, e;
      token, tokenStart, src := Unknown, 0, 0;
    }

    // --------------------------------------------------------------------- tokens

    /** Appends a character to the buffer, doubling it when only the place for the
        final NUL is left. */
    method Put(buf: array<char>, dest: nat, c: char) returns (out: array<char>)
      requires dest < buf.Length && (buf.Length == 8 || buf.Length <= 2 * dest) && dest < SIZE_MAX / 2
      modifies buf
      ensures out == buf || fresh(out)
      ensures dest + 1 < out.Length && (out.Length == 8 || out.Length <= 2 * (dest + 1))
      ensures out[..dest + 1] == old(buf[..dest]) + [c]
    {
      out := buf;
      if dest + 1 >= buf.Length {
        if buf.Length > SIZE_MAX / 2 {
          assert false;
        }
        out := new char[buf.Length * 2];
        forall k | 0 <= k < buf.Length {
          out[k] := buf[k];
        }
      }
      out[dest] := c;
      assert out[..dest] == old(buf[..dest]);
    }

    /** The next character of a delimited text, unescaped. */
    method NextChar(delimiter: char, ghost before: string) returns (c: Result<char>)
      requires src <= |s| && delimiter != '\0' && At(s, src) != delimiter
      modifies this`src
      ensures if c.Ok? then
                && old(src) < src <= |s|
                && Prepend(before, Delimited(s, old(src), delimiter))
                   == Prepend(before + [c.value], Delimited(s, src, delimiter))
              else
                Delimited(s, old(src), delimiter) == Fail(c.error)
    {
      if At(s, src) == '\0' {
        return Fail(DelimiterMissing);
      }
      ghost var i := src;
      if At(s, src) == '\\' {
        src := src + 1;
        if At(s, src) != '\\' && At(s, src) != delimiter {
          return Fail(UnknownEscape);
        }
      }
      src := src + 1;
      UnfoldDelimited(s, i, src, delimiter, before);
      return Ok(s[src - 1]);
    }

    /** Collects a delimited text in a buffer; every write, also that of the final
        NUL, is inside the buffer. */
    method LexDelimited(delimiter: char) returns (r: Result<string>)
      requires src <= |s| && delimiter != '\0'
      modifies this`src
      ensures match Delimited(s, old(src), delimiter)
              case Ok((v, n)) => r == Ok(v) && src == n
              case Fail(e) => r == Fail(e)
    {
      var buf := new char[8];
      var dest := 0;
      PrependNothing(buf[..dest], Delimited(s, src, delimiter));
      while At(s, src) != delimiter
        invariant src <= |s| && dest <= src
        invariant fresh(buf) && dest < buf.Length && (buf.Length == 8 || buf.Length <= 2 * dest)
        invariant Delimited(s, old(src), delimiter) == Prepend(buf[..dest], Delimited(s, src, delimiter))
        decreases |s| - src
      {
        var c := NextChar(delimiter, buf[..dest]);
        if c.Fail? {
          return Fail(c.error);
        }
        buf := Put(buf, dest, c.value);
        dest := dest + 1;
      }
      ghost var v := buf[..dest];
      src := src + 1;
      buf[dest] := '\0';
      assert buf[..dest] == v && v + "" == v;
      return Ok(buf[..dest]);
    }

    /** Makes the next token current. */
    method Advance() returns (failed: Option<Error>)
      requires src <= |s|
      modifies this
      ensures match Lex(s, old(src))
              case Ok(c) => failed == None && Cur() == c
              case Fail(e) => failed == Some(e)
    {
      while Blank(At(s, src))
        invariant old(src) <= src <= |s|
        invariant SkipBlanks(s, old(src)) == SkipBlanks(s, src)
        decreases |s| - src
      {
        src := src + 1;
      }
      tokenStart := src;
      failed := ScanToken();
      if failed == None && src - tokenStart > INT_MAX {
        failed := Some(TokenTooLong);
      }
    }

    method ScanToken() returns (failed: Option<Error>)
      requires src <= |s| && tokenStart == src
      modifies this`src, this`token
      ensures match Scan(s, tokenStart)
              case Ok((t, n)) => failed == None && token == t && src == n
              case Fail(e) => failed == Some(e)
    {
      failed := None;
      var c := At(s, src);
      if c == '\0' {
        token := Eof;
      } else if c == '"' || c == '/' {
        failed := ScanQuoted(c);
      } else if c == 'i' || c == 'r' || Unquoted(c) {
        ScanWord();
      } else if c == '&' || c == '|' || c == '<' || c == '=' || c == '>' {
        ScanOperator();
      } else {
        ScanSymbol();
      }
    }

    method ScanQuoted(c: char) returns (failed: Option<Error>)
      requires src < |s| && tokenStart == src && s[src] == c && (c == '"' || c == '/')
      modifies this`src, this`token
      ensures match Scan(s, tokenStart)
              case Ok((t, n)) => failed == None && token == t && src == n
              case Fail(e) => failed == Some(e)
    {
      src := src + 1;
      var r := LexDelimited(c);
      if r.Fail? {
        return Some(r.error);
      }
      token := if c == '/' then Regexp(r.value) else Str(r.value);
      failed := None;
    }

    /** A comparison operator that starts with a letter, or an unquoted string. */
    method ScanWord()
      requires src < |s| && tokenStart == src && Unquoted(s[src])
      modifies this`src, this`token
      ensures Scan(s, tokenStart) == Ok((token, src))
    {
      var c := s[src];
      if (c == 'i' || c == 'r') && At(s, src + 1) == '=' {
        src := src + 2;
        token := if c == 'i' then InterpretedEq else RawEq;
      } else if (c == 'i' || c == 'r') && At(s, src + 1) == '!' && At(s, src + 2) == '=' {
        src := src + 3;
        token := if c == 'i' then InterpretedNe else RawNe;
      } else {
        ScanUnquoted();
      }
    }

    method ScanUnquoted()
      requires src < |s| && tokenStart == src
      modifies this`src, this`token
      ensures src == SkipUnquoted(s, tokenStart + 1) && token == Str(s[tokenStart..src])
    {
      src := src + 1;
      while Unquoted(At(s, src))
        invariant tokenStart < src <= |s|
        invariant SkipUnquoted(s, tokenStart + 1) == SkipUnquoted(s, src)
        decreases |s| - src
      {
        src := src + 1;
      }
      token := Str(s[tokenStart..src]);
    }

    /** Everything else: negation, parentheses, the field escape, stray characters. */
    method ScanSymbol()
      requires src < |s| && tokenStart == src && !Unquoted(s[src])
      requires s[src] !in {'"', '/', '&', '|', '<', '=', '>', '\0'}
      modifies this`src, this`token
      ensures Scan(s, tokenStart) == Ok((token, src))
    {
      var c := s[src];
      src := src + 1;
      if c == '!' && At(s, src) == '=' && At(s, src + 1) == '=' {
        src := src + 2;
        token := ValueNe;
      } else {
        token :=
          if c == '!' then Not
          else if c == '(' then LeftParen
          else if c == ')' then RightParen
          else if c == '\\' then FieldEscape
          else Unknown;
      }
    }

    /** The operators of one or two characters. */
    method ScanOperator()
      requires src < |s| && tokenStart == src && s[src] in {'&', '|', '<', '=', '>'}
      modifies this`src, this`token
      ensures Scan(s, tokenStart) == Ok((token, src))
    {
      var c := s[src];
      src := src + 1;
      var two := At(s, src) == if c == '&' || c == '|' then c else '=';
      if two {
        src := src + 1;
      }
      token :=
        if c == '&' then (if two then And else Unknown)
        else if c == '|' then (if two then Or else Unknown)
        else if c == '<' then (if two then ValueLe else ValueLt)
        else if c == '>' then (if two then ValueGe else ValueGt)
        else (if two then ValueEq else Unknown);
    }

    // ----------------------------------------------------------------- productions

    /** Makes the next token current and returns `e`, or the lexer's error. */
    method AdvanceWith(e: Expr, next: nat) returns (r: Result<Expr>)
      requires next <= |s|
      modifies this
      ensures Agrees(Then(s, e, next), r)
    {
      src := next;
      var failed := Advance();
      r := if failed.Some? then Fail(failed.value) else Ok(e);
    }

    method ParseRegexp() returns (r: Result<Expr>)
      requires Current(s, Cur())
      modifies this
      ensures Agrees(ExprGrammar.ParseRegexp(env, s, old(Cur())), r)
    {
      var failed := Advance();
      if failed.Some? {
        return Fail(failed.value);
      }
      if !token.Str? && !token.Regexp? {
        return Fail(RegexpExpected);
      }
      if !env.regexp(token.v) {
        return Fail(BadRegexp);
      }
      r := AdvanceWith(RegexpMatch(token.v), src);
    }

    /** The operator and value of a comparison whose field has been read. */
    method ParseAfterField(field: Field) returns (r: Result<Expr>)
      requires src <= |s|
      modifies this
      ensures Agrees(ExprGrammar.ParseAfterField(env, s, field, old(src)), r)
    {
      var failed := Advance();
      if failed.Some? {
        return Fail(failed.value);
      }
      var op := token;
      if !IsTextOp(op) && !IsValueOp(op) {
        return Fail(OperatorExpected);
      }
      failed := Advance();
      if failed.Some? {
        return Fail(failed.value);
      }
      if !token.Str? {
        return Fail(ValueExpected);
      }
      if IsTextOp(op) {
        r := AdvanceWith(TextCompare(field, op, token.v), src);
      } else {
        var v := ParseValue(env, s, field, Lexeme(tokenStart, token, src));
        if v.Fail? {
          return Fail(v.error);
        }
        r := AdvanceWith(ValueCompare(field, op, v.value.0), v.value.1);
      }
    }

    method ParseComparison() returns (r: Result<Expr>)
      requires Current(s, Cur()) && (token.FieldEscape? || token.Str?)
      modifies this
      ensures Agrees(ExprGrammar.ParseComparison(env, s, old(Cur())), r)
    {
      if token.Str? {
        r := ParseAfterField(Named(token.v));
      } else {
        var failed := Advance();
        if failed.Some? {
          return Fail(failed.value);
        }
        if !token.Str? {
          return Fail(FieldNameExpected);
        }
        if token.v == "regexp" {
          r := ParseRegexp();
        } else {
          var id := EscapedField(token.v);
          if id.None? {
            return Fail(UnknownField);
          }
          r := ParseAfterField(Virtual(id.value));
        }
      }
    }

    method ParsePrimary() returns (r: Result<Expr>)
      requires Current(s, Cur())
      modifies this
      ensures Agrees(ExprGrammar.ParsePrimary(env, s, old(Cur())), r)
      decreases |s| - tokenStart, 0
    {
      if token.Not? {
        var failed := Advance();
        if failed.Some? {
          return Fail(failed.value);
        }
        r := ParsePrimary();
        if r.Ok? {
          r := Ok(NotE(r.value));
        }
      } else if token.LeftParen? {
        var failed := Advance();
        if failed.Some? {
          return Fail(failed.value);
        }
        r := ParseOr();
        if r.Fail? {
          return;
        }
        if !token.RightParen? {
          return Fail(RightParenExpected);
        }
        r := AdvanceWith(r.value, src);
      } else if token.FieldEscape? || token.Str? {
        r := ParseComparison();
      } else {
        r := Fail(UnexpectedToken);
      }
    }

    method ParseAnd() returns (r: Result<Expr>)
      requires Current(s, Cur())
      modifies this
      ensures Agrees(ExprGrammar.ParseAnd(env, s, old(Cur())), r)
      decreases |s| - tokenStart, 1
    {
      r := ParsePrimary();
      if r.Fail? {
        return;
      }
      while token.And?
        invariant r.Ok? && Current(s, Cur()) && old(tokenStart) < tokenStart
        invariant ExprGrammar.ParseAnd(env, s, old(Cur())) == AndLoop(env, s, r.value, Cur())
        decreases |s| - tokenStart
      {
        var failed := Advance();
        if failed.Some? {
          return Fail(failed.value);
        }
        var e2 := ParsePrimary();
        if e2.Fail? {
          return e2;
        }
        r := Ok(AndE(r.value, e2.value));
      }
    }

    method ParseOr() returns (r: Result<Expr>)
      requires Current(s, Cur())
      modifies this
      ensures Agrees(ExprGrammar.ParseOr(env, s, old(Cur())), r)
      decreases |s| - tokenStart, 2
    {
      r := ParseAnd();
      if r.Fail? {
        return;
      }
      while token.Or?
        invariant r.Ok? && Current(s, Cur()) && old(tokenStart) < tokenStart
        invariant ExprGrammar.ParseOr(env, s, old(Cur())) == OrLoop(env, s, r.value, Cur())
        decreases |s| - tokenStart
      {
        var failed := Advance();
        if failed.Some? {
          return Fail(failed.value);
        }
        var e2 := ParseAnd();
        if e2.Fail? {
          return e2;
        }
        r := Ok(OrE(r.value, e2.value));
      }
    }
  }

  /** Parses a whole text, with the result the grammar calls for. */
  method Parse(text: Text, env: Env) returns (r: Result<Expr>)
    ensures r == ExprParse(env, text)
    ensures forall e :: r == Ok(e) <==> exists t :: Derives(env, text, t) && Meaning(t) == e
  {
    forall e
      ensures ExprParse(env, text) == Ok(e) <==> exists t :: Derives(env, text, t) && Meaning(t) == e
    {
      ParserImplementsGrammar(env, text, e);
    }
    var p := new Parsing(text, env);
    var failed := p.Advance();
    if failed.Some? {
      return Fail(failed.value);
    }
    if p.token.Eof? {
      return Fail(EmptyExpression);
    }
    r := p.ParseOr();
    if r.Ok? && !p.token.Eof? {
      r := Fail(TrailingToken);
    }
  }

  lemma PrependNothing(v: string, p: Result<(string, nat)>)
    requires v == []
    ensures Prepend(v, p) == p
  {
    if p.Ok? {
      assert v + p.value.0 == p.value.0;
    }
  }

  /** One turn of the loop over a delimited text. */
  lemma UnfoldDelimited(s: Text, i: nat, j: nat, d: char, before: string)
    requires d != '\0' && i < j <= |s| && At(s, i) != d
    requires j == if s[i] == '\\' then i + 2 else i + 1
    requires s[i] == '\\' ==> s[j - 1] == '\\' || s[j - 1] == d
    ensures Prepend(before, Delimited(s, i, d)) == Prepend(before + [s[j - 1]], Delimited(s, j, d))
  {
    var p := Delimited(s, j, d);
    if p.Ok? {
      assert before + ([s[j - 1]] + p.value.0) == before + [s[j - 1]] + p.value.0;
    }
  }
}
