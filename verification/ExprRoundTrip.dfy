/** Printing an expression and parsing it again. */
module ExprRoundTrip {
  import opened Common
  import opened ExprLexer
  import opened ExprGrammar

  /** An AND/OR/NOT tree of textual comparisons, comparisons of numeric fields with numbers
      that the environment reads back, and regular expressions that it accepts. */
  predicate Printable(env: Env, e: Expr)
  {
    match e
    case NotE(x) => Printable(env, x)
    case AndE(l, r) => Printable(env, l) && Printable(env, r)
    case OrE(l, r) => Printable(env, l) && Printable(env, r)
    case TextCompare(f, op, x) => IsTextOp(op) && Quotable(x, '"') && FieldFits(f)
    case ValueCompare(f, op, v) =>
      && IsValueOp(op) && FieldFits(f) && f.Named? && env.numeric(f.name)
      && v.ANumber? && Quotable(Decimal(v.n), '"') && env.number(Decimal(v.n)) == Some(v.n)
    case RegexpMatch(p) => env.regexp(p) && Quotable(p, '/')
  }

  /** A text that can be a token between delimiters `d`. */
  predicate Quotable(v: string, d: char)
  {
    '\0' !in v && |Delimit(v, d)| <= INT_MAX
  }

  predicate FieldFits(f: Field)
  {
    f.Named? ==> Quotable(f.name, '"')
  }

  // --------------------------------------------------------------- the derivation

  /** What an operand may be without parentheses: any expression, an
      and-expression, or a primary. */
  datatype Level = AnyLevel | AndLevel | PrimaryLevel

  function Rank(v: Level): nat
  {
    match v case AnyLevel => 0 case AndLevel => 1 case PrimaryLevel => 2
  }

  predicate NeedsParens(e: Expr, v: Level)
  {
    (e.OrE? && !v.AnyLevel?) || (e.AndE? && v.PrimaryLevel?)
  }

  /** The derivation of an expression with as few parentheses as possible. */
  function TreeOf(env: Env, e: Expr, v: Level): (t: Tree)
    requires Printable(env, e)
    ensures Grammatical(t) && Meaning(t) == e
    ensures Fits(t, v)
    decreases e, Rank(v)
  {
    if NeedsParens(e, v) then ByParen(TreeOf(env, e, AnyLevel)) else
    match e
    case OrE(l, r) => ByOr(TreeOf(env, l, AnyLevel), TreeOf(env, r, AndLevel))
    case AndE(l, r) => ByAnd(TreeOf(env, l, AndLevel), TreeOf(env, r, PrimaryLevel))
    case NotE(x) => ByNot(TreeOf(env, x, PrimaryLevel))
    case TextCompare(f, op, x) => ByText(f, op, x)
    case ValueCompare(f, op, x) => ByValue(f, op, Decimal(x.n), x)
    case RegexpMatch(p) => ByRegexp(p, true)
  }

  function Parens(t: Tree): nat
  {
    match t
    case ByOr(l, r) => Parens(l) + Parens(r)
    case ByAnd(l, r) => Parens(l) + Parens(r)
    case ByNot(t1) => Parens(t1)
    case ByParen(t1) => Parens(t1) + 1
    case _ => 0
  }

  /** May the tree stand where an operand of this level is expected? */
  predicate Fits(t: Tree, v: Level)
  {
    (v.AndLevel? ==> IsAnd(t)) && (v.PrimaryLevel? ==> IsPrimary(t))
  }

  lemma OneMoreParen(env: Env, e: Expr, v: Level)
    requires Printable(env, e)
    ensures Parens(TreeOf(env, e, AnyLevel)) <= Parens(TreeOf(env, e, v)) <= Parens(TreeOf(env, e, AnyLevel)) + 1
  {
  }

  /** No derivation of an expression has fewer parentheses than the one that is printed. */
  lemma {:induction false} FewestParens(env: Env, t: Tree, v: Level)
    requires Grammatical(t) && Fits(t, v) && Printable(env, Meaning(t))
    ensures Parens(TreeOf(env, Meaning(t), v)) <= Parens(t)
    decreases t
  {
    match t
    case ByOr(l, r) =>
      FewestParens(env, l, AnyLevel);
      FewestParens(env, r, AndLevel);
    case ByAnd(l, r) =>
      FewestParens(env, l, AndLevel);
      FewestParens(env, r, PrimaryLevel);
    case ByNot(t1) => FewestParens(env, t1, PrimaryLevel);
    case ByParen(t1) =>
      FewestParens(env, t1, AnyLevel);
      OneMoreParen(env, Meaning(t1), v);
    case _ =>
  }

  /** The tokens a derivation spells out. */
  function Tokens(t: Tree): seq<Token>
  {
    match t
    case ByOr(l, r) => Tokens(l) + ([Or] + Tokens(r))
    case ByAnd(l, r) => Tokens(l) + ([And] + Tokens(r))
    case ByNot(t1) => [Not] + Tokens(t1)
    case ByParen(t1) => [LeftParen] + (Tokens(t1) + [RightParen])
    case ByText(f, op, x) => Spelled(f) + [op, Str(x)]
    case ByValue(f, op, x, _) => Spelled(f) + [op, Str(x)]
    case ByRegexp(p, slashed) => [FieldEscape, Str("regexp"), if slashed then Regexp(p) else Str(p)]
  }

  /** A derivation that can be written down: its texts can be tokens, its values are what
      their texts stand for, and its regular expressions are accepted. */
  predicate Writable(env: Env, t: Tree)
  {
    match t
    case ByOr(l, r) => Writable(env, l) && Writable(env, r)
    case ByAnd(l, r) => Writable(env, l) && Writable(env, r)
    case ByNot(t1) => Writable(env, t1)
    case ByParen(t1) => Writable(env, t1)
    case ByText(f, op, x) => IsTextOp(op) && FieldFits(f) && Quotable(x, '"')
    case ByValue(f, op, x, v) => IsValueOp(op) && FieldFits(f) && Quotable(x, '"') && Denotes(env, f, x, v)
    case ByRegexp(p, slashed) => env.regexp(p) && Quotable(p, if slashed then '/' else '"')
  }

  lemma {:induction false} TreeOfWritable(env: Env, e: Expr, v: Level)
    requires Printable(env, e)
    ensures Writable(env, TreeOf(env, e, v))
    decreases e, Rank(v)
  {
    if NeedsParens(e, v) {
      TreeOfWritable(env, e, AnyLevel);
    } else {
      match e
      case OrE(l, r) =>
        TreeOfWritable(env, l, AnyLevel);
        TreeOfWritable(env, r, AndLevel);
      case AndE(l, r) =>
        TreeOfWritable(env, l, AndLevel);
        TreeOfWritable(env, r, PrimaryLevel);
      case NotE(x) => TreeOfWritable(env, x, PrimaryLevel);
      case _ =>
    }
  }

  function Size(t: Tree): (n: nat)
    ensures n > 0
  {
    match t
    case ByOr(l, r) => Size(l) + Size(r) + 1
    case ByAnd(l, r) => Size(l) + Size(r) + 1
    case ByNot(t1) => Size(t1) + 1
    case ByParen(t1) => Size(t1) + 1
    case _ => 1
  }

  /** Where its tokens are read, the tree is read. */
  lemma {:induction false} TokensRead(env: Env, s: Text, t: Tree, c: Lexeme)
    requires Writable(env, t) && Current(s, c) && ReadTokens(s, Tokens(t), c).Some?
    ensures Read(env, s, t, c) == ReadTokens(s, Tokens(t), c)
    decreases Size(t), 0
  {
    match t
    case ByOr(l, r) => InfixRead(env, s, l, Or, r, c);
    case ByAnd(l, r) => InfixRead(env, s, l, And, r, c);
    case ByNot(t1) =>
      ReadSplit(s, [Not], Tokens(t1), c);
      ReadOne(s, Not, c);
      TokensRead(env, s, t1, Next(s, c).value);
    case ByParen(t1) => ParenRead(env, s, t1, c);
    case ByText(_, _, _) =>
    case ByValue(f, op, x, v) => ValueRead(env, s, f, op, x, v, c);
    case ByRegexp(_, _) =>
  }

  lemma {:induction false} InfixRead(env: Env, s: Text, l: Tree, op: Token, r: Tree, c: Lexeme)
    requires Writable(env, l) && Writable(env, r) && Current(s, c)
    requires ReadTokens(s, Tokens(l) + ([op] + Tokens(r)), c).Some?
    ensures var c1 := Read(env, s, l, c);
            && c1.Some? && c1.value.tok == op && Next(s, c1.value).Some?
            && Read(env, s, r, Next(s, c1.value).value) == ReadTokens(s, Tokens(l) + ([op] + Tokens(r)), c)
    decreases Size(l) + Size(r), 1
  {
    InfixSplit(s, Tokens(l), op, Tokens(r), c);
    TokensRead(env, s, l, c);
    TokensRead(env, s, r, Next(s, ReadTokens(s, Tokens(l), c).value).value);
  }

  lemma {:induction false} ParenRead(env: Env, s: Text, t: Tree, c: Lexeme)
    requires Writable(env, t) && Current(s, c) && ReadTokens(s, [LeftParen] + (Tokens(t) + [RightParen]), c).Some?
    ensures Read(env, s, ByParen(t), c) == ReadTokens(s, [LeftParen] + (Tokens(t) + [RightParen]), c)
    decreases Size(t), 1
  {
    ParenSplit(s, Tokens(t), c);
    TokensRead(env, s, t, Next(s, c).value);
  }

  lemma ParenSplit(s: Text, a: seq<Token>, c: Lexeme)
    requires Current(s, c) && ReadTokens(s, [LeftParen] + (a + [RightParen]), c).Some?
    ensures c.tok == LeftParen && Next(s, c).Some?
    ensures var m := ReadTokens(s, a, Next(s, c).value);
            && m.Some? && m.value.tok == RightParen
            && Next(s, m.value) == ReadTokens(s, [LeftParen] + (a + [RightParen]), c)
  {
    ReadSplit(s, [LeftParen], a + [RightParen], c);
    ReadOne(s, LeftParen, c);
    var c1 := Next(s, c).value;
    ReadSplit(s, a, [RightParen], c1);
    ReadOne(s, RightParen, ReadTokens(s, a, c1).value);
  }

  lemma ValueRead(env: Env, s: Text, f: Field, op: Token, x: string, v: Value, c: Lexeme)
    requires Denotes(env, f, x, v) && Current(s, c) && ReadTokens(s, Spelled(f) + [op, Str(x)], c).Some?
    ensures Read(env, s, ByValue(f, op, x, v), c) == ReadTokens(s, Spelled(f) + [op, Str(x)], c)
  {
    assert Spelled(f) + [op, Str(x)] == Spelled(f) + [op] + [Str(x)];
    ReadSplit(s, Spelled(f) + [op], [Str(x)], c);
    var c1 := ReadTokens(s, Spelled(f) + [op], c).value;
    ReadOne(s, Str(x), c1);
    DenotedIsParsed(env, s, f, x, v, c1);
  }

  lemma DenotedIsParsed(env: Env, s: Text, f: Field, x: string, v: Value, c: Lexeme)
    requires Denotes(env, f, x, v) && Current(s, c) && c.tok == Str(x)
    ensures ParseValue(env, s, f, c) == Ok((v, c.next))
  {
  }

  lemma InfixSplit(s: Text, a: seq<Token>, op: Token, b: seq<Token>, c: Lexeme)
    requires Current(s, c) && ReadTokens(s, a + ([op] + b), c).Some?
    ensures ReadTokens(s, a, c).Some? && ReadTokens(s, a, c).value.tok == op
    ensures Next(s, ReadTokens(s, a, c).value).Some?
    ensures ReadTokens(s, b, Next(s, ReadTokens(s, a, c).value).value) == ReadTokens(s, a + ([op] + b), c)
  {
    ReadSplit(s, a, [op] + b, c);
    var m := ReadTokens(s, a, c).value;
    ReadSplit(s, [op], b, m);
    ReadOne(s, op, m);
  }

  // -------------------------------------------------------------------- the text

  function EscapeOf(c: char, d: char): string
  {
    if c == d || c == '\\' then ['\\', c] else [c]
  }

  function Escaped(v: string, d: char): string
  {
    if v == [] then [] else EscapeOf(v[0], d) + Escaped(v[1..], d)
  }

  function Delimit(v: string, d: char): string
  {
    [d] + (Escaped(v, d) + [d])
  }

  /** The text of a token; strings are always quoted. */
  function TokenText(tok: Token): string
  {
    match tok
    case Not => "!"
    case And => "&&"
    case Or => "||"
    case LeftParen => "("
    case RightParen => ")"
    case FieldEscape => "\\"
    case RawEq => "r="
    case RawNe => "r!="
    case InterpretedEq => "i="
    case InterpretedNe => "i!="
    case ValueEq => "=="
    case ValueNe => "!=="
    case ValueLt => "<"
    case ValueLe => "<="
    case ValueGt => ">"
    case ValueGe => ">="
    case Str(v) => Delimit(v, '"')
    case Regexp(v) => Delimit(v, '/')
    case _ => ""
  }

  predicate HasText(tok: Token)
  {
    && !tok.Unknown? && !tok.Eof?
    && (tok.Str? ==> Quotable(tok.v, '"')) && (tok.Regexp? ==> Quotable(tok.v, '/'))
  }

  function TextOf(toks: seq<Token>): string
  {
    if toks == [] then "" else TokenText(toks[0]) + TextOf(toks[1..])
  }

  /** The text of an expression. */
  function Print(env: Env, e: Expr): string
    requires Printable(env, e)
  {
    TextOf(Tokens(TreeOf(env, e, AnyLevel)))
  }

  /** Tokens with texts, of which `==` follows only a string, so that no two run together. */
  predicate AllText(toks: seq<Token>)
  {
    && (forall k :: 0 <= k < |toks| ==> HasText(toks[k]))
    && (forall k :: 0 <= k < |toks| - 1 && toks[k + 1].ValueEq? ==> toks[k].Str?)
  }

  /** Tokens with texts that can follow any token. */
  predicate Follows(toks: seq<Token>)
  {
    AllText(toks) && toks != [] && !toks[0].ValueEq?
  }

  lemma Join(a: seq<Token>, b: seq<Token>)
    requires AllText(a) && AllText(b) && (b != [] && b[0].ValueEq? ==> a != [] && a[|a| - 1].Str?)
    ensures AllText(a + b)
  {
    var c := a + b;
    forall k | 0 <= k < |c| - 1 && c[k + 1].ValueEq?
      ensures c[k].Str?
    {
      if k + 1 < |a| {
        assert a[k + 1].ValueEq?;
      } else if k + 1 > |a| {
        assert b[k - |a| + 1].ValueEq?;
      }
    }
  }

  lemma AllTextBoth(a: seq<Token>, b: seq<Token>)
    requires AllText(a) && Follows(b)
    ensures AllText(a + b) && (a != [] && !a[0].ValueEq? ==> Follows(a + b))
  {
    Join(a, b);
  }

  lemma InfixText(a: seq<Token>, op: Token, b: seq<Token>)
    requires Follows(a) && HasText(op) && !op.ValueEq? && Follows(b)
    ensures Follows(a + ([op] + b))
  {
    AllTextBoth([op], b);
    AllTextBoth(a, [op] + b);
  }

  lemma OperandText(op: Token, x: string)
    requires (IsTextOp(op) || IsValueOp(op)) && Quotable(x, '"')
    ensures AllText([op, Str(x)])
  {
  }

  lemma FollowsAfter(a: seq<Token>, b: seq<Token>)
    requires Follows(a) && AllText(b) && a[|a| - 1].Str?
    ensures Follows(a + b)
  {
    Join(a, b);
    assert (a + b)[0] == a[0];
  }

  lemma ComparisonText(f: Field, op: Token, x: string)
    requires FieldFits(f) && (IsTextOp(op) || IsValueOp(op)) && Quotable(x, '"')
    ensures Follows(Spelled(f) + [op, Str(x)])
  {
    FieldHasText(f);
    OperandText(op, x);
    FollowsAfter(Spelled(f), [op, Str(x)]);
  }

  lemma {:induction false} TokensHaveText(env: Env, t: Tree)
    requires Writable(env, t)
    ensures Follows(Tokens(t))
    decreases t
  {
    match t
    case ByOr(l, r) =>
      TokensHaveText(env, l);
      TokensHaveText(env, r);
      InfixText(Tokens(l), Or, Tokens(r));
    case ByAnd(l, r) =>
      TokensHaveText(env, l);
      TokensHaveText(env, r);
      InfixText(Tokens(l), And, Tokens(r));
    case ByNot(t1) =>
      TokensHaveText(env, t1);
      AllTextBoth([Not], Tokens(t1));
    case ByParen(t1) =>
      TokensHaveText(env, t1);
      ParenText(Tokens(t1));
    case ByText(f, op, x) => ComparisonText(f, op, x);
    case ByValue(f, op, x, _) => ComparisonText(f, op, x);
    case ByRegexp(p, slashed) => RegexpText(if slashed then Regexp(p) else Str(p));
  }

  lemma ParenText(a: seq<Token>)
    requires Follows(a)
    ensures Follows([LeftParen] + (a + [RightParen]))
  {
    AllTextBoth(a, [RightParen]);
    AllTextBoth([LeftParen], a + [RightParen]);
  }

  lemma RegexpText(tok: Token)
    requires HasText(tok) && !tok.ValueEq?
    ensures Follows([FieldEscape, Str("regexp"), tok])
  {
    EscapedLength("regexp", '"');
  }

  lemma {:induction false} EscapedLength(v: string, d: char)
    ensures |Escaped(v, d)| <= 2 * |v|
  {
    if v != [] {
      EscapedLength(v[1..], d);
    }
  }

  lemma FieldHasText(f: Field)
    requires FieldFits(f)
    ensures Follows(Spelled(f)) && Spelled(f)[|Spelled(f)| - 1].Str?
  {
    if f.Virtual? {
      EscapedLength(FieldName(f.id), '"');
    }
  }

  predicate OccursAt(s: string, i: nat, p: string)
  {
    i + |p| <= |s| && s[i..i + |p|] == p
  }

  lemma OccursSplit(s: string, i: nat, a: string, b: string)
    requires OccursAt(s, i, a + b)
    ensures OccursAt(s, i, a) && OccursAt(s, i + |a|, b)
  {
    assert s[i..i + |a|] == s[i..i + |a + b|][..|a|];
    assert s[i + |a|..i + |a| + |b|] == s[i..i + |a + b|][|a|..];
  }

  lemma OccursChars(s: string, i: nat, p: string)
    requires OccursAt(s, i, p)
    ensures |p| > 0 ==> s[i] == p[0]
    ensures |p| > 1 ==> s[i + 1] == p[1]
    ensures |p| > 2 ==> s[i + 2] == p[2]
  {
    assert |p| > 0 ==> s[i..i + |p|][0] == p[0];
    assert |p| > 1 ==> s[i..i + |p|][1] == p[1];
    assert |p| > 2 ==> s[i..i + |p|][2] == p[2];
  }

  /** The text from `i` to its closing delimiter is read as `v`. (Stated of the whole, so
      that reading stays folded.) */
  ghost predicate ReadsAs(s: Text, i: nat, d: char, v: string, end: nat)
    requires d != '\0'
  {
    forall k: nat {:trigger Whole(s, k)} :: i <= k == |s| ==> Delimited(Whole(s, k), i, d) == Ok((v, end))
  }

  lemma ReadsAsMeans(s: Text, i: nat, d: char, v: string, end: nat)
    requires i <= |s| && d != '\0'
    ensures ReadsAs(s, i, d, v, end) <==> Delimited(s, i, d) == Ok((v, end))
  {
    assert Whole(s, |s|) == s;
  }

  lemma ReadsClosing(s: Text, i: nat, d: char)
    requires OccursAt(s, i, [d]) && d != '\0'
    ensures ReadsAs(s, i, d, "", i + 1)
  {
    OccursChars(s, i, [d]);
    ReadsAsMeans(s, i, d, "", i + 1);
  }

  /** One more character of a delimited text, escaped or not. */
  lemma ReadsOneMore(s: Text, i: nat, d: char, c: char, v: string, end: nat)
    requires c != '\0' && (d == '"' || d == '/') && OccursAt(s, i, EscapeOf(c, d))
    requires ReadsAs(s, i + |EscapeOf(c, d)|, d, v, end)
    ensures ReadsAs(s, i, d, [c] + v, end)
  {
    OccursChars(s, i, EscapeOf(c, d));
    ReadsAsMeans(s, i + |EscapeOf(c, d)|, d, v, end);
    ReadsAsMeans(s, i, d, [c] + v, end);
  }

  /** Reading back an escaped text up to its closing delimiter. */
  lemma {:induction false} ReadsEscaped(s: Text, i: nat, d: char, v: string, end: nat)
    requires d == '"' || d == '/'
    requires OccursAt(s, i, Escaped(v, d) + [d]) && '\0' !in v && end == i + |Escaped(v, d)| + 1
    ensures ReadsAs(s, i, d, v, end)
    decreases |v|
  {
    if v == [] {
      ReadsClosing(s, i, d);
    } else {
      var c, rest := v[0], v[1..];
      Associate(EscapeOf(c, d), Escaped(rest, d), [d]);
      OccursSplit(s, i, EscapeOf(c, d), Escaped(rest, d) + [d]);
      FirstAndRest(v, '\0');
      ReadsEscaped(s, i + |EscapeOf(c, d)|, d, rest, end);
      ReadsOneMore(s, i, d, c, rest, end);
    }
  }

  lemma LexDelimited(s: Text, i: nat, d: char, v: string, end: nat)
    requires i < |s| && s[i] == d && (d == '"' || d == '/') && ReadsAs(s, i + 1, d, v, end) && end - i <= INT_MAX
    ensures Lex(s, i) == Ok(Lexeme(i, if d == '/' then Regexp(v) else Str(v), end))
  {
    ReadsAsMeans(s, i + 1, d, v, end);
  }

  lemma LexQuoted(s: Text, i: nat, d: char, v: string, end: nat)
    requires (d == '"' || d == '/') && OccursAt(s, i, Delimit(v, d)) && Quotable(v, d) && end == i + |Delimit(v, d)|
    ensures Lex(s, i) == Ok(Lexeme(i, if d == '/' then Regexp(v) else Str(v), end))
  {
    OccursSplit(s, i, [d], Escaped(v, d) + [d]);
    OccursChars(s, i, [d]);
    ReadsEscaped(s, i + 1, d, v, end);
    LexDelimited(s, i, d, v, end);
  }

  predicate Span(s: Text, i: nat, tok: Token, j: nat)
  {
    i < j <= |s| && Lex(s, i) == Ok(Lexeme(i, tok, j))
  }

  /** The text of a token is lexed as that token, unless an equals sign continues it. */
  lemma LexToken(s: Text, i: nat, tok: Token, j: nat)
    requires HasText(tok) && OccursAt(s, i, TokenText(tok)) && j == i + |TokenText(tok)|
    requires (tok.Not? || tok.ValueLt? || tok.ValueGt?) && j < |s| ==> s[j] != '='
    ensures Span(s, i, tok, j)
  {
    if tok.Str? {
      LexQuoted(s, i, '"', tok.v, j);
    } else if tok.Regexp? {
      LexQuoted(s, i, '/', tok.v, j);
    } else if IsTextOp(tok) {
      LexTextOp(s, i, tok, j);
    } else if IsValueOp(tok) {
      LexValueOp(s, i, tok, j);
    } else {
      OccursChars(s, i, TokenText(tok));
    }
  }

  lemma LexTextOp(s: Text, i: nat, tok: Token, j: nat)
    requires IsTextOp(tok) && OccursAt(s, i, TokenText(tok)) && j == i + |TokenText(tok)|
    ensures Span(s, i, tok, j)
  {
    OccursChars(s, i, TokenText(tok));
  }

  lemma LexValueOp(s: Text, i: nat, tok: Token, j: nat)
    requires IsValueOp(tok) && OccursAt(s, i, TokenText(tok)) && j == i + |TokenText(tok)|
    requires (tok.ValueLt? || tok.ValueGt?) && j < |s| ==> s[j] != '='
    ensures Span(s, i, tok, j)
  {
    OccursChars(s, i, TokenText(tok));
  }

  lemma FirstChar(tok: Token)
    requires HasText(tok)
    ensures TokenText(tok) != [] && (TokenText(tok)[0] == '=' <==> tok.ValueEq?)
  {
  }

  lemma SuffixSplit(s: string, i: nat, a: string, b: string)
    requires i <= |s| && s[i..] == a + b
    ensures i + |a| <= |s| && OccursAt(s, i, a) && s[i + |a|..] == b
    ensures b != [] ==> i + |a| < |s| && s[i + |a|] == b[0]
    ensures b == [] ==> i + |a| == |s|
  {
    assert s[i..i + |a|] == s[i..][..|a|];
    assert s[i + |a|..] == s[i..][|a|..];
    if b != [] {
      assert s[i + |a|..][0] == b[0];
    }
  }

  lemma TextOfFirst(toks: seq<Token>)
    requires toks != [] ==> HasText(toks[0])
    ensures TextOf(toks) != [] && TextOf(toks)[0] == '=' ==> toks[0].ValueEq?
  {
    if toks != [] {
      FirstChar(toks[0]);
    }
  }

  /** The text consists of exactly these tokens, token `k` from `ps[k]` to `ps[k + 1]`. */
  predicate Laid(s: Text, ps: seq<nat>, toks: seq<Token>)
  {
    && |ps| == |toks| + 1 && ps[|toks|] == |s|
    && (forall k :: 0 <= k < |toks| ==> Span(s, ps[k], toks[k], ps[k + 1]))
  }

  lemma LaidCons(s: Text, i: nat, j: nat, ps: seq<nat>, toks: seq<Token>)
    requires toks != [] && Span(s, i, toks[0], j) && Laid(s, ps, toks[1..]) && ps[0] == j
    ensures Laid(s, [i] + ps, toks)
  {
    var qs := [i] + ps;
    forall k | 0 <= k < |toks|
      ensures Span(s, qs[k], toks[k], qs[k + 1])
    {
      if k > 0 {
        assert toks[k] == toks[1..][k - 1];
      }
    }
  }

  lemma HeadSpan(s: Text, i: nat, toks: seq<Token>) returns (j: nat)
    requires i <= |s| && s[i..] == TextOf(toks) && AllText(toks) && toks != []
    ensures Span(s, i, toks[0], j) && j <= |s| && s[j..] == TextOf(toks[1..])
  {
    j := TextSplit(s, i, toks);
    LexToken(s, i, toks[0], j);
  }

  lemma TextSplit(s: string, i: nat, toks: seq<Token>) returns (j: nat)
    requires i <= |s| && s[i..] == TextOf(toks) && AllText(toks) && toks != []
    ensures OccursAt(s, i, TokenText(toks[0])) && j == i + |TokenText(toks[0])| <= |s|
    ensures s[j..] == TextOf(toks[1..]) && (j < |s| && s[j] == '=' ==> toks[0].Str?)
  {
    j := i + |TokenText(toks[0])|;
    SuffixSplit(s, i, TokenText(toks[0]), TextOf(toks[1..]));
    EqualsAfterString(toks);
  }

  lemma EqualsAfterString(toks: seq<Token>)
    requires AllText(toks) && toks != []
    ensures TextOf(toks[1..]) != [] && TextOf(toks[1..])[0] == '=' ==> toks[0].Str?
  {
    if |toks| > 1 {
      assert toks[1..][0] == toks[1];
      TextOfFirst(toks[1..]);
    }
    NextIsString(toks);
  }

  lemma NextIsString(toks: seq<Token>)
    requires AllText(toks) && toks != []
    ensures toks[1..] != [] && toks[1..][0].ValueEq? ==> toks[0].Str?
  {
    if |toks| > 1 {
      assert toks[1..][0] == toks[0 + 1];
    }
  }

  /** A text made of token texts is lexed into those tokens. */
  lemma {:induction false} TextIsLaid(s: Text, i: nat, toks: seq<Token>) returns (ps: seq<nat>)
    requires i <= |s| && s[i..] == TextOf(toks) && AllText(toks)
    ensures Laid(s, ps, toks) && ps[0] == i
    decreases |toks|
  {
    if toks == [] {
      assert |s[i..]| == 0;
      ps := [i];
    } else {
      var j := HeadSpan(s, i, toks);
      AllTextTail(toks);
      var rest := TextIsLaid(s, j, toks[1..]);
      LaidCons(s, i, j, rest, toks);
      ps := [i] + rest;
    }
  }

  lemma ReadCons(s: Text, toks: seq<Token>, i: nat, j: nat)
    requires toks != [] && Span(s, i, toks[0], j) && Lex(s, j).Ok?
    ensures ReadTokens(s, toks, Lex(s, i).value) == ReadTokens(s, toks[1..], Lex(s, j).value)
  {
    assert Next(s, Lex(s, i).value) == Some(Lex(s, j).value);
  }

  lemma LaidTail(s: Text, ps: seq<nat>, toks: seq<Token>)
    requires Laid(s, ps, toks) && toks != []
    ensures Laid(s, ps[1..], toks[1..])
  {
  }

  lemma {:induction false} LaidIsRead(s: Text, ps: seq<nat>, toks: seq<Token>)
    requires Laid(s, ps, toks)
    ensures ps[0] <= |s| && Lex(s, ps[0]).Ok?
    ensures ReadTokens(s, toks, Lex(s, ps[0]).value) == Some(Lexeme(|s|, Eof, |s|))
    decreases |toks|
  {
    if toks != [] {
      LaidTail(s, ps, toks);
      LaidIsRead(s, ps[1..], toks[1..]);
      ReadCons(s, toks, ps[0], ps[1]);
    }
  }

  // ------------------------------------------------------------------ the round trip

  /** A derivation written down is parsed to its meaning: all operators, quoted and slashed
      texts, values of numeric fields and of record types. */
  lemma WrittenThenParsed(env: Env, t: Tree)
    requires Grammatical(t) && Writable(env, t) && |TextOf(Tokens(t))| <= SIZE_MAX / 2
    ensures '\0' !in TextOf(Tokens(t))
    ensures ExprParse(env, TextOf(Tokens(t))) == Ok(Meaning(t))
  {
    TokensHaveText(env, t);
    TextNulFree(Tokens(t));
    var s: Text := TextOf(Tokens(t));
    assert s[0..] == s;
    var ps := TextIsLaid(s, 0, Tokens(t));
    LaidIsRead(s, ps, Tokens(t));
    TokensRead(env, s, t, Lex(s, 0).value);
    DerivedIsParsed(env, s, t);
  }

  /** Parsing the printed form of an expression gives the expression back: && binds
      tighter than ||, and both associate to the left. */
  lemma PrintThenParse(env: Env, e: Expr)
    requires Printable(env, e) && |Print(env, e)| <= SIZE_MAX / 2
    ensures '\0' !in Print(env, e)
    ensures ExprParse(env, Print(env, e)) == Ok(e)
  {
    TreeOfWritable(env, e, AnyLevel);
    WrittenThenParsed(env, TreeOf(env, e, AnyLevel));
  }

  lemma {:induction false} EscapedNulFree(v: string, d: char)
    requires '\0' !in v && d != '\0'
    ensures '\0' !in Escaped(v, d)
  {
    if v != [] {
      FirstAndRest(v, '\0');
      EscapedNulFree(v[1..], d);
    }
  }

  lemma AllTextTail(toks: seq<Token>)
    requires AllText(toks) && toks != []
    ensures AllText(toks[1..])
  {
    var rest := toks[1..];
    forall k | 0 <= k < |rest| - 1 && rest[k + 1].ValueEq?
      ensures rest[k].Str?
    {
      assert toks[(k + 1) + 1] == rest[k + 1];
    }
  }

  lemma TokenNulFree(tok: Token)
    requires HasText(tok)
    ensures '\0' !in TokenText(tok)
  {
    if tok.Str? {
      EscapedNulFree(tok.v, '"');
    } else if tok.Regexp? {
      EscapedNulFree(tok.v, '/');
    }
  }

  lemma {:induction false} TextNulFree(toks: seq<Token>)
    requires AllText(toks)
    ensures '\0' !in TextOf(toks)
  {
    if toks != [] {
      TokenNulFree(toks[0]);
      AllTextTail(toks);
      TextNulFree(toks[1..]);
    }
  }

  // ------------------------------------------------------------------ words and blanks

  /** Spaces, tabs and newlines before a token are skipped. */
  lemma {:induction false} BlanksAreSkipped(s: Text, i: nat, j: nat)
    requires i <= j <= |s| && forall k :: i <= k < j ==> s[k] == ' ' || s[k] == '\t' || s[k] == '\n'
    ensures Lex(s, i) == Lex(s, j)
    decreases j - i
  {
    if i < j {
      BlanksAreSkipped(s, i + 1, j);
    }
  }

  predicate WordChar(c: char)
  {
    '0' <= c <= '9' || 'A' <= c <= 'Z' || 'a' <= c <= 'z' || c == '_' || c == '-'
  }

  lemma {:induction false} WordIsSkipped(s: Text, i: nat, j: nat)
    requires i <= j <= |s| && (forall k :: i <= k < j ==> WordChar(s[k])) && (j < |s| ==> !WordChar(s[j]))
    ensures SkipUnquoted(s, i) == j
    decreases j - i
  {
    if i < j {
      WordIsSkipped(s, i + 1, j);
    }
  }

  /** An unquoted word is a string, unless it is the start of a textual operator or too long. */
  lemma LexWord(s: Text, i: nat, j: nat)
    requires i < j <= |s| && forall k :: i <= k < j ==> WordChar(s[k])
    requires j < |s| ==> !WordChar(s[j]) && s[j] != '=' && s[j] != '!'
    ensures Lex(s, i) == if j - i <= 2147483647 then Ok(Lexeme(i, Str(s[i..j]), j)) else Fail(TokenTooLong)
  {
    WordIsSkipped(s, i + 1, j);
  }

  /** Any other character is a token of its own that no production takes. */
  lemma LexUnknown(s: Text, i: nat)
    requires i < |s| && !WordChar(s[i]) && s[i] != ' ' && s[i] != '\t' && s[i] != '\n'
    requires s[i] != '!' && s[i] != '"' && s[i] != '/' && s[i] != '&' && s[i] != '(' && s[i] != ')' && s[i] != '<'
    requires s[i] != '=' && s[i] != '>' && s[i] != '\\' && s[i] != '|'
    ensures Lex(s, i) == Ok(Lexeme(i, Unknown, i + 1))
  {
  }

  lemma ReadThree(s: Text, a: Token, b: Token, d: Token, c: Lexeme, c1: Lexeme, c2: Lexeme, c3: Lexeme)
    requires Current(s, c) && c.tok == a && Next(s, c) == Some(c1) && c1.tok == b
    requires Next(s, c1) == Some(c2) && c2.tok == d && Next(s, c2) == Some(c3)
    ensures ReadTokens(s, [a] + [b, d], c) == Some(c3)
  {
    ReadSplit(s, [a], [b, d], c);
    ReadOne(s, a, c);
    ReadTwo(s, b, d, c1);
    ReadOne(s, b, c1);
    ReadOne(s, d, c2);
  }

  predicate WordFrom(s: Text, i: nat, j: nat)
  {
    i < j <= |s| && j - i <= INT_MAX && forall k :: i <= k < j ==> WordChar(s[k])
  }

  predicate BlankFrom(s: Text, i: nat, j: nat)
  {
    i <= j <= |s| && forall k :: i <= k < j ==> s[k] == ' ' || s[k] == '\t' || s[k] == '\n'
  }

  /** The usual way to write a comparison with a value, as in `auid >= 500`: a word, the
      operator and another word, with blanks between them. */
  lemma UnquotedIsParsed(env: Env, s: Text, a: nat, b: nat, op: Token, c: nat, d: nat, v: Value)
    requires WordFrom(s, 0, a) && BlankFrom(s, a, b) && a < b && IsValueOp(op)
    requires OccursAt(s, b, TokenText(op)) && c == b + |TokenText(op)|
    requires BlankFrom(s, c, d) && WordFrom(s, d, |s|) && Denotes(env, Named(s[..a]), s[d..], v)
    ensures ExprParse(env, s) == Ok(ValueCompare(Named(s[..a]), op, v))
  {
    var name, x, end := s[..a], s[d..], Lexeme(|s|, Eof, |s|);
    var c0, c1, c2 := Lexeme(0, Str(name), a), Lexeme(b, op, c), Lexeme(d, Str(x), |s|);
    assert s[0..a] == name && s[d..|s|] == x;
    LexWord(s, 0, a);
    BlanksAreSkipped(s, a, b);
    LexToken(s, b, op, c);
    BlanksAreSkipped(s, c, d);
    LexWord(s, d, |s|);
    ReadThree(s, Str(name), op, Str(x), c0, c1, c2, end);
    ValueRead(env, s, Named(name), op, x, v, c0);
    DerivedIsParsed(env, s, ByValue(Named(name), op, x, v));
  }
}
