/** Search expressions: the recursive-descent parser and the grammar it implements. */
module ExprGrammar {
  import opened Common
  import opened ExprLexer

  datatype FieldId = Timestamp | RecordType | TimestampEx

  /** A named field, or one of the escaped virtual fields. */
  datatype Field = Named(name: string) | Virtual(id: FieldId)

  datatype Stamp = Stamp(sec: int, milli: nat, serial: nat)

  datatype Value = AStamp(stamp: Stamp) | AType(t: int) | ANumber(n: nat)

  datatype Expr =
    | NotE(e: Expr)
    | AndE(l: Expr, r: Expr)
    | OrE(l: Expr, r: Expr)
    | TextCompare(field: Field, op: Token, text: string)
    | ValueCompare(field: Field, op: Token, value: Value)
    | RegexpMatch(pattern: string)

  /** What the parser asks of the rest of the program and of the C library. */
  datatype Env = Env(
    numeric: string -> bool,
    recordType: string -> int,
    stamp: string -> Option<Stamp>,
    number: string -> Option<nat>,
    regexp: string -> bool)

  type Parsed = Result<(Expr, Lexeme)>

  /** A token of `s` that the parser may be looking at. */
  predicate Current(s: Text, c: Lexeme)
  {
    && c.start <= c.next <= |s|
    && (c.tok == Eof <==> c.start == |s|)
    && (c.start < |s| ==> c.start < c.next)
  }

  /** A successful parse stops at a later token. */
  predicate Advances(s: Text, c: Lexeme, r: Parsed)
  {
    r.Ok? ==> Current(s, r.value.1) && c.start < r.value.1.start
  }

  predicate IsTextOp(t: Token)
  {
    t == RawEq || t == RawNe || t == InterpretedEq || t == InterpretedNe
  }

  predicate IsValueOp(t: Token)
  {
    t == ValueEq || t == ValueNe || t == ValueLt || t == ValueLe || t == ValueGt || t == ValueGe
  }

  function EscapedField(name: string): Option<FieldId>
  {
    if name == "timestamp" then Some(Timestamp)
    else if name == "record_type" then Some(RecordType)
    else if name == "timestamp_ex" then Some(TimestampEx)
    else None
  }

  /** Where a time stamp that starts at `i` ends. */
  function StampEnd(s: Text, i: nat): (j: nat)
    requires i <= |s|
    ensures i <= j <= |s|
    ensures forall k :: i <= k < j ==> s[k] == 't' || s[k] == 's' || s[k] == ':' || s[k] == '.' || '0' <= s[k] <= '9'
    ensures j < |s| ==> s[j] != 't' && s[j] != 's' && s[j] != ':' && s[j] != '.' && !('0' <= s[j] <= '9')
    decreases |s| - i
  {
    if i < |s| && s[i] in "ts:0123456789." then StampEnd(s, i + 1) else i
  }

  // --------------------------------------------------------------- comparisons

  /** Finishes a production: the token after it becomes the current one. */
  function Then(s: Text, e: Expr, next: nat): Parsed
    requires next <= |s|
  {
    match Lex(s, next)
    case Fail(err) => Fail(err)
    case Ok(c) => Ok((e, c))
  }

  /** comparison-expression: field-escape "regexp" regexp-value, after "regexp". */
  function ParseRegexp(env: Env, s: Text, name: Lexeme): (r: Parsed)
    requires Current(s, name)
    ensures r.Ok? ==> Current(s, r.value.1) && name.next <= r.value.1.start
  {
    match Lex(s, name.next)
    case Fail(err) => Fail(err)
    case Ok(c) =>
      if !c.tok.Str? && !c.tok.Regexp? then Fail(RegexpExpected)
      else if !env.regexp(c.tok.v) then Fail(BadRegexp)
      else Then(s, RegexpMatch(c.tok.v), c.next)
  }

  /** The value of a value comparison, and where it ends. */
  function ParseValue(env: Env, s: Text, field: Field, c: Lexeme): (r: Result<(Value, nat)>)
    requires Current(s, c) && c.tok.Str?
    ensures r.Ok? ==> c.start <= r.value.1 <= |s|
  {
    match field
    case Named(f) =>
      if !env.numeric(f) then Fail(NoValueComparison)
      else if env.number(c.tok.v).None? then Fail(BadValue)
      else Ok((ANumber(env.number(c.tok.v).value), c.next))
    case Virtual(RecordType) =>
      if env.recordType(c.tok.v) < 0 then Fail(BadValue) else Ok((AType(env.recordType(c.tok.v)), c.next))
    case Virtual(_) =>
      if env.stamp(s[c.start..]).None? then Fail(BadValue)
      else Ok((AStamp(env.stamp(s[c.start..]).value), StampEnd(s, c.start)))
  }

  /** Does the text `x` stand for the value `v` of this field? */
  predicate Denotes(env: Env, f: Field, x: string, v: Value)
  {
    match f
    case Named(n) => env.numeric(n) && v.ANumber? && env.number(x) == Some(v.n)
    case Virtual(id) => id.RecordType? && v.AType? && v.t >= 0 && env.recordType(x) == v.t
  }

  predicate StampChar(c: char)
  {
    c == 't' || c == 's' || c == ':' || c == '.' || '0' <= c <= '9'
  }

  /** A value is what its text stands for, and it ends with its token; but a time stamp is
      read from the text itself, and ends where the characters of time stamps do. */
  lemma ValueParsedIff(env: Env, s: Text, f: Field, c: Lexeme, v: Value, next: nat)
    requires Current(s, c) && c.tok.Str?
    ensures ParseValue(env, s, f, c) == Ok((v, next)) <==>
            || (next == c.next && Denotes(env, f, c.tok.v, v))
            || (&& f.Virtual? && !f.id.RecordType? && v.AStamp? && env.stamp(s[c.start..]) == Some(v.stamp)
                && c.start <= next <= |s| && (forall k :: c.start <= k < next ==> StampChar(s[k]))
                && (next < |s| ==> !StampChar(s[next])))
  {
    if f.Virtual? && !f.id.RecordType? && c.start <= next <= |s| {
      var j := StampEnd(s, c.start);
      assert j < next ==> !StampChar(s[j]);
      assert next < j ==> StampChar(s[next]);
    }
  }

  /** The value of a comparison with this field, the current token being its operator. */
  function ParseOpValue(env: Env, s: Text, field: Field, op: Lexeme): (r: Parsed)
    requires Current(s, op)
    ensures r.Ok? ==> Current(s, r.value.1) && op.start <= r.value.1.start
  {
    if !IsTextOp(op.tok) && !IsValueOp(op.tok) then Fail(OperatorExpected)
    else
      match Lex(s, op.next)
      case Fail(err) => Fail(err)
      case Ok(c) =>
        if !c.tok.Str? then Fail(ValueExpected)
        else if IsTextOp(op.tok) then Then(s, TextCompare(field, op.tok, c.tok.v), c.next)
        else
          match ParseValue(env, s, field, c)
          case Fail(err) => Fail(err)
          case Ok((v, next)) => Then(s, ValueCompare(field, op.tok, v), next)
  }

  /** A comparison whose field ends at `pos`. */
  function ParseAfterField(env: Env, s: Text, field: Field, pos: nat): (r: Parsed)
    requires pos <= |s|
    ensures r.Ok? ==> Current(s, r.value.1) && pos <= r.value.1.start
  {
    match Lex(s, pos)
    case Fail(err) => Fail(err)
    case Ok(op) => ParseOpValue(env, s, field, op)
  }

  function ParseComparison(env: Env, s: Text, c: Lexeme): (r: Parsed)
    requires Current(s, c) && (c.tok.FieldEscape? || c.tok.Str?)
    ensures Advances(s, c, r)
  {
    if c.tok.Str? then ParseAfterField(env, s, Named(c.tok.v), c.next)
    else
      match Lex(s, c.next)
      case Fail(err) => Fail(err)
      case Ok(name) =>
        if !name.tok.Str? then Fail(FieldNameExpected)
        else if name.tok.v == "regexp" then ParseRegexp(env, s, name)
        else
          match EscapedField(name.tok.v)
          case None => Fail(UnknownField)
          case Some(id) => ParseAfterField(env, s, Virtual(id), name.next)
  }

  // ------------------------------------------------------------ recursive descent

  function ParsePrimary(env: Env, s: Text, c: Lexeme): (r: Parsed)
    requires Current(s, c)
    ensures Advances(s, c, r)
    decreases |s| - c.start, 0
  {
    if c.tok.Not? then
      match Lex(s, c.next)
      case Fail(err) => Fail(err)
      case Ok(c1) =>
        match ParsePrimary(env, s, c1)
        case Fail(err) => Fail(err)
        case Ok((e, c2)) => Ok((NotE(e), c2))
    else if c.tok.LeftParen? then
      match Lex(s, c.next)
      case Fail(err) => Fail(err)
      case Ok(c1) =>
        match ParseOr(env, s, c1)
        case Fail(err) => Fail(err)
        case Ok((e, c2)) => if !c2.tok.RightParen? then Fail(RightParenExpected) else Then(s, e, c2.next)
    else if c.tok.FieldEscape? || c.tok.Str? then ParseComparison(env, s, c)
    else Fail(UnexpectedToken)
  }

  function AndLoop(env: Env, s: Text, e: Expr, c: Lexeme): (r: Parsed)
    requires Current(s, c)
    ensures r.Ok? ==> Current(s, r.value.1) && c.start <= r.value.1.start
    decreases |s| - c.start, 1
  {
    if !c.tok.And? then Ok((e, c)) else
    match Lex(s, c.next)
    case Fail(err) => Fail(err)
    case Ok(c1) =>
      match ParsePrimary(env, s, c1)
      case Fail(err) => Fail(err)
      case Ok((e2, c2)) => AndLoop(env, s, AndE(e, e2), c2)
  }

  function ParseAnd(env: Env, s: Text, c: Lexeme): (r: Parsed)
    requires Current(s, c)
    ensures Advances(s, c, r)
    decreases |s| - c.start, 2
  {
    match ParsePrimary(env, s, c)
    case Fail(err) => Fail(err)
    case Ok((e, c1)) => AndLoop(env, s, e, c1)
  }

  function OrLoop(env: Env, s: Text, e: Expr, c: Lexeme): (r: Parsed)
    requires Current(s, c)
    ensures r.Ok? ==> Current(s, r.value.1) && c.start <= r.value.1.start
    decreases |s| - c.start, 3
  {
    if !c.tok.Or? then Ok((e, c)) else
    match Lex(s, c.next)
    case Fail(err) => Fail(err)
    case Ok(c1) =>
      match ParseAnd(env, s, c1)
      case Fail(err) => Fail(err)
      case Ok((e2, c2)) => OrLoop(env, s, OrE(e, e2), c2)
  }

  function ParseOr(env: Env, s: Text, c: Lexeme): (r: Parsed)
    requires Current(s, c)
    ensures Advances(s, c, r)
    decreases |s| - c.start, 4
  {
    match ParseAnd(env, s, c)
    case Fail(err) => Fail(err)
    case Ok((e, c1)) => OrLoop(env, s, e, c1)
  }

  /** Parses a whole text. */
  function ExprParse(env: Env, s: Text): Result<Expr>
  {
    match Lex(s, 0)
    case Fail(err) => Fail(err)
    case Ok(c) =>
      if c.tok.Eof? then Fail(EmptyExpression) else
      match ParseOr(env, s, c)
      case Fail(err) => Fail(err)
      case Ok((e, c1)) => if c1.tok.Eof? then Ok(e) else Fail(TrailingToken)
  }

  // ------------------------------------------------------------------ the grammar

  /** Derivation trees. The last three are the forms of comparison-expression. */
  datatype Tree =
    | ByOr(l: Tree, r: Tree)
    | ByAnd(l: Tree, r: Tree)
    | ByNot(t: Tree)
    | ByParen(t: Tree)
    | ByText(field: Field, op: Token, text: string)
    | ByValue(field: Field, op: Token, text: string, value: Value)
    | ByRegexp(pattern: string, slashed: bool)

  /** Which nonterminal a tree derives from; every primary is an and-expression and
      every and-expression an or-expression. */
  predicate IsPrimary(t: Tree) { !t.ByOr? && !t.ByAnd? }

  predicate IsAnd(t: Tree) { !t.ByOr? }

  /** The productions of the grammar. */
  predicate Grammatical(t: Tree)
  {
    match t
    case ByOr(l, r) => Grammatical(l) && Grammatical(r) && IsAnd(r)
    case ByAnd(l, r) => Grammatical(l) && Grammatical(r) && IsAnd(l) && IsPrimary(r)
    case ByNot(t1) => Grammatical(t1) && IsPrimary(t1)
    case ByParen(t1) => Grammatical(t1)
    case ByText(_, op, _) => IsTextOp(op)
    case ByValue(_, op, _, _) => IsValueOp(op)
    case ByRegexp(_, _) => true
  }

  function Meaning(t: Tree): Expr
  {
    match t
    case ByOr(l, r) => OrE(Meaning(l), Meaning(r))
    case ByAnd(l, r) => AndE(Meaning(l), Meaning(r))
    case ByNot(t1) => NotE(Meaning(t1))
    case ByParen(t1) => Meaning(t1)
    case ByText(f, op, x) => TextCompare(f, op, x)
    case ByValue(f, op, _, v) => ValueCompare(f, op, v)
    case ByRegexp(p, _) => RegexpMatch(p)
  }

  /** The token after `c`. */
  function Next(s: Text, c: Lexeme): (r: Option<Lexeme>)
    requires Current(s, c)
    ensures r.Some? ==> Current(s, r.value) && c.start <= r.value.start && (c.start < |s| ==> c.start < r.value.start)
  {
    match Lex(s, c.next)
    case Fail(_) => None
    case Ok(c1) => Some(c1)
  }

  function FieldName(id: FieldId): (n: string)
    ensures '\0' !in n && |n| <= 12
  {
    match id
    case Timestamp => "timestamp"
    case RecordType => "record_type"
    case TimestampEx => "timestamp_ex"
  }

  lemma FieldNameInverse(name: string, id: FieldId)
    ensures EscapedField(name) == Some(id) <==> FieldName(id) == name
    ensures FieldName(id) != "regexp"
    ensures EscapedField("timestamp") == Some(Timestamp) && EscapedField("record_type") == Some(RecordType)
    ensures EscapedField("timestamp_ex") == Some(TimestampEx)
  {
    var names := ("timestamp", "record_type", "timestamp_ex", "regexp");
    assert |names.0| == 9 && |names.1| == 11 && |names.2| == 12 && |names.3| == 6;
  }

  /** field: string, or field-escape string. */
  function Spelled(f: Field): seq<Token>
  {
    match f
    case Named(n) => [Str(n)]
    case Virtual(id) => [FieldEscape, Str(FieldName(id))]
  }

  /** Reads exactly these tokens; the result is the token after them. */
  function ReadTokens(s: Text, toks: seq<Token>, c: Lexeme): (r: Option<Lexeme>)
    requires Current(s, c)
    ensures r.Some? ==> Current(s, r.value)
    ensures r.Some? ==> c.start <= r.value.start
    decreases |toks|
  {
    if toks == [] then Some(c)
    else if c.tok != toks[0] then None
    else
      var c1 := Next(s, c);
      if c1.None? then None else ReadTokens(s, toks[1..], c1.value)
  }

  /** Reads the tokens that the tree spells out, from the current one on; the result
      is the token after them. */
  function Read(env: Env, s: Text, t: Tree, c: Lexeme): (r: Option<Lexeme>)
    requires Current(s, c)
    ensures r.Some? ==> Current(s, r.value)
  {
    match t
    case ByOr(l, r) =>
      var c1 := Read(env, s, l, c);
      if c1.None? || !c1.value.tok.Or? then None else
      var c2 := Next(s, c1.value);
      if c2.None? then None else Read(env, s, r, c2.value)
    case ByAnd(l, r) =>
      var c1 := Read(env, s, l, c);
      if c1.None? || !c1.value.tok.And? then None else
      var c2 := Next(s, c1.value);
      if c2.None? then None else Read(env, s, r, c2.value)
    case ByNot(t1) =>
      if !c.tok.Not? then None else
      var c1 := Next(s, c);
      if c1.None? then None else Read(env, s, t1, c1.value)
    case ByParen(t1) =>
      if !c.tok.LeftParen? then None else
      var c1 := Next(s, c);
      if c1.None? then None else
      var c2 := Read(env, s, t1, c1.value);
      if c2.None? || !c2.value.tok.RightParen? then None else Next(s, c2.value)
    case ByText(f, op, x) => ReadTokens(s, Spelled(f) + [op, Str(x)], c)
    case ByValue(f, op, x, v) =>
      var c1 := ReadTokens(s, Spelled(f) + [op], c);
      if c1.None? || c1.value.tok != Str(x) then None else
      var r := ParseValue(env, s, f, c1.value);
      if r.Fail? || r.value.0 != v || Lex(s, r.value.1).Fail? then None else Some(Lex(s, r.value.1).value)
    case ByRegexp(p, slashed) =>
      if !env.regexp(p) then None else
      ReadTokens(s, [FieldEscape, Str("regexp"), if slashed then Regexp(p) else Str(p)], c)
  }

  /** The tree derives the whole text. */
  predicate Derives(env: Env, s: Text, t: Tree)
  {
    && Grammatical(t)
    && Lex(s, 0).Ok?
    && var c := Read(env, s, t, Lex(s, 0).value);
       c.Some? && c.value.tok.Eof?
  }

  // ----------------------------------------------------------- comparisons as tokens

  lemma ReadOne(s: Text, a: Token, c: Lexeme)
    requires Current(s, c)
    ensures ReadTokens(s, [a], c) == if c.tok == a then Next(s, c) else None
  {
    if c.tok == a && Next(s, c).Some? {
      assert ReadTokens(s, [a][1..], Next(s, c).value) == Next(s, c);
    }
  }

  lemma {:induction false} ReadSplit(s: Text, a: seq<Token>, b: seq<Token>, c: Lexeme)
    requires Current(s, c)
    ensures ReadTokens(s, a + b, c) ==
            var m := ReadTokens(s, a, c); if m.None? then None else ReadTokens(s, b, m.value)
  {
    if a == [] {
      assert a + b == b;
    } else {
      assert (a + b)[1..] == a[1..] + b;
      if Next(s, c).Some? {
        ReadSplit(s, a[1..], b, Next(s, c).value);
      }
    }
  }

  lemma ReadTwo(s: Text, a: Token, b: Token, c: Lexeme)
    requires Current(s, c)
    ensures ReadTokens(s, [a, b], c) ==
            var m := ReadTokens(s, [a], c); if m.None? then None else ReadTokens(s, [b], m.value)
  {
    ReadSplit(s, [a], [b], c);
    assert [a] + [b] == [a, b];
  }

  /** Once its field has been read, the parser is at the operator. */
  lemma FieldRead(env: Env, s: Text, f: Field, c: Lexeme)
    requires Current(s, c) && ReadTokens(s, Spelled(f), c).Some?
    ensures c.tok.FieldEscape? || c.tok.Str?
    ensures ParseComparison(env, s, c) == ParseOpValue(env, s, f, ReadTokens(s, Spelled(f), c).value)
  {
    if f.Named? {
      ReadOne(s, Str(f.name), c);
    } else {
      var name := FieldName(f.id);
      FieldNameInverse(name, f.id);
      ReadTwo(s, FieldEscape, Str(name), c);
      ReadOne(s, FieldEscape, c);
      ReadOne(s, Str(name), Next(s, c).value);
    }
  }

  lemma TextComplete(env: Env, s: Text, t: Tree, c: Lexeme)
    requires Current(s, c) && Grammatical(t) && t.ByText? && Read(env, s, t, c).Some?
    ensures ParsePrimary(env, s, c) == Ok((Meaning(t), Read(env, s, t, c).value))
  {
    ReadSplit(s, Spelled(t.field), [t.op, Str(t.text)], c);
    FieldRead(env, s, t.field, c);
    var op := ReadTokens(s, Spelled(t.field), c).value;
    ReadTwo(s, t.op, Str(t.text), op);
    ReadOne(s, t.op, op);
    ReadOne(s, Str(t.text), Next(s, op).value);
  }

  lemma ValueComplete(env: Env, s: Text, t: Tree, c: Lexeme)
    requires Current(s, c) && Grammatical(t) && t.ByValue? && Read(env, s, t, c).Some?
    ensures ParsePrimary(env, s, c) == Ok((Meaning(t), Read(env, s, t, c).value))
  {
    ReadSplit(s, Spelled(t.field), [t.op], c);
    FieldRead(env, s, t.field, c);
    ReadOne(s, t.op, ReadTokens(s, Spelled(t.field), c).value);
  }

  lemma RegexpRead(s: Text, v: Token, c: Lexeme)
    requires Current(s, c)
    ensures var toks := [FieldEscape, Str("regexp"), v];
            ReadTokens(s, toks, c) ==
            if c.tok != FieldEscape || Next(s, c).None? || Next(s, c).value.tok != Str("regexp") then None else
            var c1 := Next(s, Next(s, c).value);
            if c1.None? || c1.value.tok != v then None else Next(s, c1.value)
  {
    ReadSplit(s, [FieldEscape], [Str("regexp"), v], c);
    assert [FieldEscape] + [Str("regexp"), v] == [FieldEscape, Str("regexp"), v];
    ReadOne(s, FieldEscape, c);
    if c.tok == FieldEscape && Next(s, c).Some? {
      var c1 := Next(s, c).value;
      ReadTwo(s, Str("regexp"), v, c1);
      ReadOne(s, Str("regexp"), c1);
      if c1.tok == Str("regexp") && Next(s, c1).Some? {
        ReadOne(s, v, Next(s, c1).value);
      }
    }
  }

  lemma RegexpComplete(env: Env, s: Text, t: Tree, c: Lexeme)
    requires Current(s, c) && Grammatical(t) && t.ByRegexp? && Read(env, s, t, c).Some?
    ensures ParsePrimary(env, s, c) == Ok((Meaning(t), Read(env, s, t, c).value))
  {
    RegexpRead(s, if t.slashed then Regexp(t.pattern) else Str(t.pattern), c);
  }

  /** The field a comparison starts with, if it is not a regexp. */
  lemma FieldSound(env: Env, s: Text, c: Lexeme) returns (f: Field)
    requires Current(s, c) && (c.tok.FieldEscape? || c.tok.Str?) && ParseComparison(env, s, c).Ok?
    requires c.tok.FieldEscape? ==> Next(s, c).value.tok != Str("regexp")
    ensures ReadTokens(s, Spelled(f), c).Some?
  {
    if c.tok.Str? {
      f := Named(c.tok.v);
      ReadOne(s, c.tok, c);
    } else {
      var name := Next(s, c).value;
      f := Virtual(EscapedField(name.tok.v).value);
      FieldNameInverse(name.tok.v, f.id);
      assert Spelled(f) == [FieldEscape, name.tok];
      ReadTwo(s, FieldEscape, name.tok, c);
      ReadOne(s, FieldEscape, c);
      ReadOne(s, name.tok, name);
    }
  }

  /** The tree reads from `c` exactly what the parser parsed there. */
  ghost predicate Explains(env: Env, s: Text, c: Lexeme, t: Tree, r: Parsed)
    requires Current(s, c)
  {
    Grammatical(t) && Read(env, s, t, c).Some? && r == Ok((Meaning(t), Read(env, s, t, c).value))
  }

  lemma RegexpSound(env: Env, s: Text, c: Lexeme) returns (t: Tree)
    requires Current(s, c) && c.tok.FieldEscape? && ParseComparison(env, s, c).Ok?
    requires Next(s, c).value.tok == Str("regexp")
    ensures IsPrimary(t) && Explains(env, s, c, t, ParseComparison(env, s, c))
  {
    var v := Next(s, Next(s, c).value).value.tok;
    t := ByRegexp(v.v, v.Regexp?);
    RegexpRead(s, v, c);
  }

  lemma TextSound(env: Env, s: Text, c: Lexeme, f: Field) returns (t: Tree)
    requires Current(s, c) && ReadTokens(s, Spelled(f), c).Some? && IsTextOp(ReadTokens(s, Spelled(f), c).value.tok)
    requires ParseOpValue(env, s, f, ReadTokens(s, Spelled(f), c).value).Ok?
    ensures IsPrimary(t) && Explains(env, s, c, t, ParseOpValue(env, s, f, ReadTokens(s, Spelled(f), c).value))
  {
    var op := ReadTokens(s, Spelled(f), c).value;
    var v := Next(s, op).value;
    t := ByText(f, op.tok, v.tok.v);
    ReadSplit(s, Spelled(f), [op.tok, v.tok], c);
    ReadTwo(s, op.tok, v.tok, op);
    ReadOne(s, op.tok, op);
    ReadOne(s, v.tok, v);
  }

  lemma ValueSound(env: Env, s: Text, c: Lexeme, f: Field) returns (t: Tree)
    requires Current(s, c) && ReadTokens(s, Spelled(f), c).Some? && !IsTextOp(ReadTokens(s, Spelled(f), c).value.tok)
    requires ParseOpValue(env, s, f, ReadTokens(s, Spelled(f), c).value).Ok?
    ensures IsPrimary(t) && Explains(env, s, c, t, ParseOpValue(env, s, f, ReadTokens(s, Spelled(f), c).value))
  {
    var op := ReadTokens(s, Spelled(f), c).value;
    var v := Next(s, op).value;
    t := ByValue(f, op.tok, v.tok.v, ParseValue(env, s, f, v).value.0);
    ReadSplit(s, Spelled(f), [op.tok], c);
    ReadOne(s, op.tok, op);
  }

  lemma ComparisonSound(env: Env, s: Text, c: Lexeme) returns (t: Tree)
    requires Current(s, c) && (c.tok.FieldEscape? || c.tok.Str?) && ParseComparison(env, s, c).Ok?
    ensures IsPrimary(t) && Explains(env, s, c, t, ParseComparison(env, s, c))
  {
    if c.tok.FieldEscape? && Next(s, c).value.tok == Str("regexp") {
      t := RegexpSound(env, s, c);
    } else {
      var f := FieldSound(env, s, c);
      FieldRead(env, s, f, c);
      if IsTextOp(ReadTokens(s, Spelled(f), c).value.tok) {
        t := TextSound(env, s, c, f);
      } else {
        t := ValueSound(env, s, c, f);
      }
    }
  }

  // ---------------------------------------------------------------------- soundness

  lemma PrimarySound(env: Env, s: Text, c: Lexeme) returns (t: Tree)
    requires Current(s, c) && ParsePrimary(env, s, c).Ok?
    ensures IsPrimary(t) && Explains(env, s, c, t, ParsePrimary(env, s, c))
    decreases |s| - c.start, 0
  {
    if c.tok.Not? {
      var t1 := PrimarySound(env, s, Lex(s, c.next).value);
      t := ByNot(t1);
    } else if c.tok.LeftParen? {
      var t1 := OrSound(env, s, Lex(s, c.next).value);
      t := ByParen(t1);
    } else {
      t := ComparisonSound(env, s, c);
    }
  }

  lemma AndLoopSound(env: Env, s: Text, c0: Lexeme, t0: Tree, c: Lexeme) returns (t: Tree)
    requires Current(s, c0) && Current(s, c)
    requires Grammatical(t0) && IsAnd(t0) && Read(env, s, t0, c0) == Some(c)
    requires AndLoop(env, s, Meaning(t0), c).Ok?
    ensures IsAnd(t) && Explains(env, s, c0, t, AndLoop(env, s, Meaning(t0), c))
    decreases |s| - c.start, 1
  {
    if !c.tok.And? {
      t := t0;
    } else {
      var c1 := Lex(s, c.next).value;
      var t1 := PrimarySound(env, s, c1);
      t := AndLoopSound(env, s, c0, ByAnd(t0, t1), ParsePrimary(env, s, c1).value.1);
    }
  }

  lemma AndSound(env: Env, s: Text, c: Lexeme) returns (t: Tree)
    requires Current(s, c) && ParseAnd(env, s, c).Ok?
    ensures IsAnd(t) && Explains(env, s, c, t, ParseAnd(env, s, c))
    decreases |s| - c.start, 2
  {
    var t1 := PrimarySound(env, s, c);
    t := AndLoopSound(env, s, c, t1, ParsePrimary(env, s, c).value.1);
  }

  lemma OrLoopSound(env: Env, s: Text, c0: Lexeme, t0: Tree, c: Lexeme) returns (t: Tree)
    requires Current(s, c0) && Current(s, c)
    requires Grammatical(t0) && Read(env, s, t0, c0) == Some(c)
    requires OrLoop(env, s, Meaning(t0), c).Ok?
    ensures Explains(env, s, c0, t, OrLoop(env, s, Meaning(t0), c))
    decreases |s| - c.start, 3
  {
    if !c.tok.Or? {
      t := t0;
    } else {
      var c1 := Lex(s, c.next).value;
      var t1 := AndSound(env, s, c1);
      t := OrLoopSound(env, s, c0, ByOr(t0, t1), ParseAnd(env, s, c1).value.1);
    }
  }

  lemma OrSound(env: Env, s: Text, c: Lexeme) returns (t: Tree)
    requires Current(s, c) && ParseOr(env, s, c).Ok?
    ensures Explains(env, s, c, t, ParseOr(env, s, c))
    decreases |s| - c.start, 4
  {
    var t1 := AndSound(env, s, c);
    t := OrLoopSound(env, s, c, t1, ParseAnd(env, s, c).value.1);
  }

  // ------------------------------------------------------------------- completeness

  lemma {:induction false} PrimaryComplete(env: Env, s: Text, t: Tree, c: Lexeme)
    requires Current(s, c) && Grammatical(t) && IsPrimary(t) && Read(env, s, t, c).Some?
    ensures ParsePrimary(env, s, c) == Ok((Meaning(t), Read(env, s, t, c).value))
    decreases t, 0
  {
    match t
    case ByNot(t1) => PrimaryComplete(env, s, t1, Next(s, c).value);
    case ByParen(t1) => OrComplete(env, s, t1, Next(s, c).value);
    case ByText(_, _, _) => TextComplete(env, s, t, c);
    case ByValue(_, _, _, _) => ValueComplete(env, s, t, c);
    case ByRegexp(_, _) => RegexpComplete(env, s, t, c);
  }

  /** Having read an and-expression, the parser is in its loop with that tree's meaning. */
  lemma {:induction false} AndComplete(env: Env, s: Text, t: Tree, c: Lexeme)
    requires Current(s, c) && Grammatical(t) && IsAnd(t) && Read(env, s, t, c).Some?
    ensures ParseAnd(env, s, c) == AndLoop(env, s, Meaning(t), Read(env, s, t, c).value)
    decreases t, 1
  {
    if t.ByAnd? {
      AndComplete(env, s, t.l, c);
      var c1 := Read(env, s, t.l, c).value;
      PrimaryComplete(env, s, t.r, Next(s, c1).value);
    } else {
      PrimaryComplete(env, s, t, c);
    }
  }

  lemma {:induction false} OrComplete(env: Env, s: Text, t: Tree, c: Lexeme)
    requires Current(s, c) && Grammatical(t) && Read(env, s, t, c).Some?
    requires !Read(env, s, t, c).value.tok.And?
    ensures ParseOr(env, s, c) == OrLoop(env, s, Meaning(t), Read(env, s, t, c).value)
    decreases t, 2
  {
    if t.ByOr? {
      OrComplete(env, s, t.l, c);
      var c1 := Read(env, s, t.l, c).value;
      AndComplete(env, s, t.r, Next(s, c1).value);
    } else {
      AndComplete(env, s, t, c);
    }
  }

  /** The parser accepts exactly the texts that the grammar derives, and returns
      the meaning of the derivation. */
  lemma ParserImplementsGrammar(env: Env, s: Text, e: Expr)
    ensures ExprParse(env, s) == Ok(e) <==> exists t :: Derives(env, s, t) && Meaning(t) == e
  {
    if ExprParse(env, s) == Ok(e) {
      var t := OrSound(env, s, Lex(s, 0).value);
      assert Derives(env, s, t) && Meaning(t) == e;
    }
    forall t | Derives(env, s, t) && Meaning(t) == e
      ensures ExprParse(env, s) == Ok(e)
    {
      DerivedIsParsed(env, s, t);
    }
  }

  lemma DerivedIsParsed(env: Env, s: Text, t: Tree)
    requires Derives(env, s, t)
    ensures ExprParse(env, s) == Ok(Meaning(t))
  {
    OrComplete(env, s, t, Lex(s, 0).value);
    assert ParseOr(env, s, Lex(s, 0).value).Ok?;
  }

  /** The grammar is unambiguous: a text has at most one meaning. */
  lemma Unambiguous(env: Env, s: Text, t: Tree, u: Tree)
    requires Derives(env, s, t) && Derives(env, s, u)
    ensures Meaning(t) == Meaning(u)
  {
    DerivedIsParsed(env, s, t);
    DerivedIsParsed(env, s, u);
  }
}
