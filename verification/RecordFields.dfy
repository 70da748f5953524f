/** Splitting an audit record into its named fields, and what becomes of a field that was
    written with the encoder. */
module RecordFields {
  import opened Common
  import opened Splitting
  import opened ValueCodec

  const INTERP_SEPARATOR: Byte := 0x1D as char

  const KEY: seq<Byte> := ['k', 'e', 'y']

  datatype Field = Field(name: seq<Byte>, val: seq<Byte>)

  function TrimLast(s: seq<Byte>, c: Byte): seq<Byte>
  {
    if s != [] && s[|s| - 1] == c then s[..|s| - 1] else s
  }

  /** The value without trailing punctuation. */
  function Trimmed(val: seq<Byte>): seq<Byte>
  {
    var v := TrimLast(TrimLast(TrimLast(val, ':'), ','), '\'');
    if v == "(none)" || v == "(null)" then v else TrimLast(v, ')')
  }

  /** The encoding of one part of a key, with its own test for special bytes. */
  function Escape(v: seq<Byte>): seq<Byte>
  {
    if exists i :: 0 <= i < |v| && (v[i] == '"' || v[i] as int < 0x21 || v[i] as int > 0x7E)
    then Hex(v) else ['"'] + v + ['"']
  }

  lemma EscapeIsEncode(v: seq<Byte>)
    ensures Escape(v) == Encode(v)
  {
    assert forall c: Byte :: Special(c) <==> c == '"' || c as int < 0x21 || c as int > 0x7E;
  }

  /** One field for each part of a combined key. */
  function VirtualKeys(parts: seq<seq<Byte>>): (fs: seq<Field>)
  {
    seq(|parts|, i requires 0 <= i < |parts| => Field(KEY, Escape(parts[i])))
  }

  /** What is stored for a name and its trimmed value. */
  function Stored(name: seq<Byte>, val: seq<Byte>): seq<Field>
  {
    if name == KEY && !(['('] <= val) && !(['"'] <= val) then
      var key := Unescaped(val);
      if key.None? then [Field(name, val)] else VirtualKeys(Pieces(key.value, KEY_SEPARATOR))
    else [Field(name, val)]
  }

  /** The name of a field without its opening parenthesis. */
  function Label(name: seq<Byte>): seq<Byte>
  {
    if name != [] && name[0] == '(' then name[1..] else name
  }

  function SplitField(t: seq<Byte>): seq<Field>
    requires '=' in t
  {
    var i := IndexOf(t, '=');
    Stored(Label(t[..i]), Trimmed(t[i + 1..]))
  }

  predicate StartsWithMsg(t: seq<Byte>)
  {
    |t| >= 4 && t[0] == 'm' && t[1] == 's' && t[2] == 'g' && t[3] == '='
  }

  /** The fields of one space-separated token. */
  function TokenFields(t: seq<Byte>): seq<Field>
  {
    if '=' !in t then []
    else if StartsWithMsg(t) && |t| > 4 && t[4] == 'a' then []
    else if StartsWithMsg(t) && |t| > 4 && t[4] == '\'' then
      if '=' in t[5..] then SplitField(t[5..]) else []
    else SplitField(t)
  }

  function AllFields(tokens: seq<seq<Byte>>): seq<Field>
  {
    if tokens == [] then [] else TokenFields(tokens[0]) + AllFields(tokens[1..])
  }

  /** The part of a record that holds fields; interpretations follow a separator. */
  function Body(text: seq<Byte>): seq<Byte>
  {
    text[..IndexOf(text, INTERP_SEPARATOR)]
  }

  function Fields(text: seq<Byte>): seq<Field>
  {
    AllFields(Pieces(Body(text), ' '))
  }

  /** Splits a record up, token by token. A record without any token is an error. */
  method ParseUpRecord(text: seq<Byte>) returns (nv: Option<seq<Field>>)
    requires '\0' !in text
    ensures nv.None? <==> Pieces(Body(text), ' ') == []
    ensures nv.Some? ==> nv.value == Fields(text)
  {
    var splitter := new Splitter(Body(text));
    ToComeMeans(Body(text), splitter.left);
    var token := splitter.Next();
    if token.None? {
      return None;
    }
    var fields := CollectFields(splitter, token.value);
    nv := Some(fields);
  }

  method CollectFields(splitter: Splitter, first: seq<Byte>) returns (fields: seq<Field>)
    requires splitter.Valid()
    modifies splitter, splitter.buf
    ensures fields == AllFields([first] + old(splitter.left))
  {
    ghost var todo := [first] + splitter.left;
    var token := Some(first);
    fields := [];
    while token.Some?
      invariant splitter.Valid() && (token.Some? <==> todo != [])
      invariant token.Some? ==> todo == [token.value] + splitter.left
      invariant fields + AllFields(todo) == AllFields([first] + old(splitter.left))
      decreases |todo|
    {
      OneMore(fields, todo);
      fields := fields + TokenFields(token.value);
      todo := todo[1..];
      token := splitter.Next();
    }
  }

  lemma OneMore(fields: seq<Field>, tokens: seq<seq<Byte>>)
    requires tokens != []
    ensures fields + AllFields(tokens) == fields + TokenFields(tokens[0]) + AllFields(tokens[1..])
  {
  }

  // ---------------------------------------------------------------- round trips

  lemma {:induction false} AllFieldsOfSum(a: seq<seq<Byte>>, b: seq<seq<Byte>>)
    ensures AllFields(a + b) == AllFields(a) + AllFields(b)
  {
    if a == [] {
      assert a + b == b;
    } else {
      assert (a + b)[1..] == a[1..] + b;
      AllFieldsOfSum(a[1..], b);
    }
  }

  /** Fields before and after a space do not influence each other. */
  lemma FieldsOfSum(a: seq<Byte>, b: seq<Byte>)
    requires INTERP_SEPARATOR !in a
    ensures Fields(a + [' '] + b) == Fields(a) + Fields(b)
  {
    BodyOfSum(a, b);
    PiecesOfSum(a, ' ', Body(b));
    AllFieldsOfSum(Pieces(a, ' '), Pieces(Body(b), ' '));
  }

  lemma BodyOfSum(a: seq<Byte>, b: seq<Byte>)
    requires INTERP_SEPARATOR !in a
    ensures Body(a) == a && Body(a + [' '] + b) == a + [' '] + Body(b)
  {
    var t := a + [' '] + b;
    var i := IndexOf(b, INTERP_SEPARATOR);
    var c := a + [' '] + b[..i];
    if i < |b| {
      assert t == c + [INTERP_SEPARATOR] + b[i + 1..];
      IndexOfFirst(c, INTERP_SEPARATOR, b[i + 1..]);
      assert t[..|c|] == c;
    } else {
      assert INTERP_SEPARATOR !in t && c == t;
    }
  }

  /** A field name that can be told from its value and from other fields. */
  predicate Plain(name: seq<Byte>)
  {
    '=' !in name && ' ' !in name && INTERP_SEPARATOR !in name && '\0' !in name
  }

  /** Encoded values have no spaces or separators and end in a digit or a quote. */
  lemma EncodedIsPlain(v: seq<Byte>)
    ensures ' ' !in Encode(v) && INTERP_SEPARATOR !in Encode(v)
    ensures Encode(v) != [] && Trimmed(Encode(v)) == Encode(v)
    ensures Encode(v)[0] == '"' || IsHex(Encode(v)[0])
    ensures Encode(v)[0] == '"' <==> !NeedsEncoding(v)
    ensures Encode(v)[0] != 'a' && Encode(v)[0] != '\''
  {
    HexIsHex(v);
    if NeedsEncoding(v) {
      assert Hex(v)[..2] == HexOf(v[0]);
    } else {
      assert forall i :: 0 <= i < |v| ==> !Special(v[i]);
    }
  }

  /** The text shown for each field, with its name. */
  function Shown(fs: seq<Field>): (r: seq<(seq<Byte>, seq<Byte>)>)
    ensures |r| == |fs|
  {
    seq(|fs|, i requires 0 <= i < |fs| => (fs[i].name, PrintEscaped(fs[i].val)))
  }

  /** What a reader should be shown for the value `v` written under a name: one field,
      or one for each part of a combined key. */
  function FieldReading(field: seq<Byte>, v: seq<Byte>): (r: seq<(seq<Byte>, seq<Byte>)>)
  {
    if field == KEY && NeedsEncoding(v) then
      var parts := Pieces(CString(v), KEY_SEPARATOR);
      seq(|parts|, i requires 0 <= i < |parts| => (KEY, parts[i]))
    else [(field, Reading(v))]
  }

  /** A token with a plain name is stored under it, unless the value looks like the
      stamp or the quoted message of a record. */
  lemma TokenOfField(name: seq<Byte>, val: seq<Byte>)
    requires Plain(name) && val != [] && val[0] != 'a' && val[0] != '\''
    ensures TokenFields(name + ['='] + val) == Stored(Label(name), Trimmed(val))
  {
    var t := name + ['='] + val;
    IndexOfFirst(name, '=', val);
    assert t[..|name|] == name && t[|name| + 1..] == val && t[|name|] == '=';
    if StartsWithMsg(t) {
      assert t[3] == '=' && t[..|name|] == name;
      assert |name| == 3;
      assert t[4] == val[0];
    }
  }

  lemma KeyPartShown(v: seq<Byte>, i: nat)
    requires i < |Pieces(CString(v), KEY_SEPARATOR)|
    ensures var part := Pieces(CString(v), KEY_SEPARATOR)[i]; PrintEscaped(Escape(part)) == part
  {
    var part := Pieces(CString(v), KEY_SEPARATOR)[i];
    PieceIsPlain(CString(v), KEY_SEPARATOR, i);
    EscapeIsEncode(part);
    PrintEncoded(part);
    ReadingIffNoNul(part);
  }

  lemma KeyShown(v: seq<Byte>)
    ensures var parts := Pieces(CString(v), KEY_SEPARATOR);
            Shown(VirtualKeys(parts)) == seq(|parts|, i requires 0 <= i < |parts| => (KEY, parts[i]))
  {
    var parts := Pieces(CString(v), KEY_SEPARATOR);
    forall i | 0 <= i < |parts|
      ensures Shown(VirtualKeys(parts))[i] == (KEY, parts[i])
    {
      KeyPartShown(v, i);
    }
  }

  lemma StoredShown(field: seq<Byte>, v: seq<Byte>)
    ensures Shown(Stored(field, Encode(v))) == FieldReading(field, v)
  {
    EncodedIsPlain(v);
    if field == KEY && NeedsEncoding(v) {
      UnescapedHex(v);
      KeyShown(v);
    } else {
      PrintEncoded(v);
    }
  }

  lemma ShownOfSum(a: seq<Field>, b: seq<Field>)
    ensures Shown(a + b) == Shown(a) + Shown(b)
  {
  }

  lemma SurvivesBetween(before: seq<Byte>, t: seq<Byte>, after: seq<Byte>)
    requires INTERP_SEPARATOR !in before && INTERP_SEPARATOR !in t
    ensures Shown(Fields(before + [' '] + (t + [' '] + after)))
            == Shown(Fields(before)) + Shown(Fields(t)) + Shown(Fields(after))
  {
    FieldsOfSum(before, t + [' '] + after);
    FieldsOfSum(t, after);
    ShownOfSum(Fields(before), Fields(t) + Fields(after));
    ShownOfSum(Fields(t), Fields(after));
  }

  /** A field written with the encoder survives anywhere in any record: it is read as
      the value given, and the fields around it are what they would be without it. */
  lemma FieldSurvives(before: seq<Byte>, name: seq<Byte>, v: seq<Byte>, after: seq<Byte>)
    requires INTERP_SEPARATOR !in before && Plain(name)
    ensures Shown(Fields(before + [' '] + (name + ['='] + Encode(v) + [' '] + after)))
            == Shown(Fields(before)) + FieldReading(Label(name), v) + Shown(Fields(after))
  {
    EncodedIsPlain(v);
    SurvivesBetween(before, name + ['='] + Encode(v), after);
    FieldOfToken(name, v);
  }

  lemma FieldsOfToken(t: seq<Byte>)
    requires t != [] && ' ' !in t && INTERP_SEPARATOR !in t
    ensures Fields(t) == TokenFields(t)
  {
    BodyOfSum(t, []);
    PieceOfPlain(t, ' ');
    assert AllFields([t]) == TokenFields(t) + AllFields([]);
  }

  lemma FieldOfToken(name: seq<Byte>, v: seq<Byte>)
    requires Plain(name)
    ensures Shown(Fields(name + ['='] + Encode(v))) == FieldReading(Label(name), v)
  {
    EncodedIsPlain(v);
    FieldsOfToken(name + ['='] + Encode(v));
    TokenOfField(name, Encode(v));
    StoredShown(Label(name), v);
  }

  // ------------------------------------------------------ what is read in other tokens

  function Maybe(there: bool, c: Byte): seq<Byte>
  {
    if there then [c] else []
  }

  /** A value and punctuation after it: a parenthesis, a quote, a comma and a colon, in this
      order, each or not. */
  function Punctuated(v: seq<Byte>, paren: bool, quote: bool, comma: bool, colon: bool): seq<Byte>
  {
    v + Maybe(paren, ')') + Maybe(quote, '\'') + Maybe(comma, ',') + Maybe(colon, ':')
  }

  predicate EndsIn(s: seq<Byte>, c: Byte)
  {
    s != [] && s[|s| - 1] == c
  }

  lemma TrimOff(s: seq<Byte>, there: bool, c: Byte)
    requires !EndsIn(s, c)
    ensures TrimLast(s + Maybe(there, c), c) == s
  {
    assert s + [] == s;
  }

  lemma EndsAfter(s: seq<Byte>, there: bool, c: Byte, d: Byte)
    ensures EndsIn(s + Maybe(there, c), d) <==> if there then c == d else EndsIn(s, d)
  {
    assert s + [] == s;
  }

  predicate KeepsParen(v: seq<Byte>)
  {
    v == "(none)" || v == "(null)"
  }

  /** A value that reading leaves alone: one of the two texts that keep their parenthesis,
      or one that ends in no punctuation. */
  predicate Core(v: seq<Byte>, paren: bool)
  {
    && v != [] && !EndsIn(v, ':') && !EndsIn(v, ',') && !EndsIn(v, '\'')
    && if EndsIn(v, ')') then KeepsParen(v) && !paren else !KeepsParen(v + Maybe(paren, ')'))
  }

  /** Punctuation after such a value is removed. */
  lemma PunctuationIsTrimmed(v: seq<Byte>, paren: bool, quote: bool, comma: bool, colon: bool)
    requires Core(v, paren)
    ensures Trimmed(Punctuated(v, paren, quote, comma, colon)) == v
  {
    var v1 := v + Maybe(paren, ')');
    var v2 := v1 + Maybe(quote, '\'');
    var v3 := v2 + Maybe(comma, ',');
    EndsAfter(v, paren, ')', ':');
    EndsAfter(v1, quote, '\'', ':');
    EndsAfter(v2, comma, ',', ':');
    TrimOff(v3, colon, ':');
    EndsAfter(v, paren, ')', ',');
    EndsAfter(v1, quote, '\'', ',');
    TrimOff(v2, comma, ',');
    EndsAfter(v, paren, ')', '\'');
    TrimOff(v1, quote, '\'');
    LastParen(v, paren);
  }

  lemma LastParen(v: seq<Byte>, paren: bool)
    requires Core(v, paren)
    ensures var v1 := v + Maybe(paren, ')'); (if KeepsParen(v1) then v1 else TrimLast(v1, ')')) == v
  {
    assert v + [] == v;
    if !EndsIn(v, ')') {
      TrimOff(v, paren, ')');
    }
  }

  /** Can it be part of a token? */
  predicate InToken(s: seq<Byte>)
  {
    ' ' !in s && INTERP_SEPARATOR !in s
  }

  lemma PunctuatedInToken(v: seq<Byte>, paren: bool, quote: bool, comma: bool, colon: bool)
    requires InToken(v)
    ensures InToken(Punctuated(v, paren, quote, comma, colon))
  {
  }

  lemma SplitFieldIs(name: seq<Byte>, val: seq<Byte>)
    requires Plain(name)
    ensures '=' in name + ['='] + val && SplitField(name + ['='] + val) == Stored(Label(name), Trimmed(val))
  {
    var t := name + ['='] + val;
    IndexOfFirst(name, '=', val);
    assert t[..|name|] == name && t[|name| + 1..] == val && t[|name|] == '=';
  }

  const MSG: seq<Byte> := ['m', 's', 'g']

  lemma MsgOnly(name: seq<Byte>, val: seq<Byte>)
    requires Plain(name)
    ensures StartsWithMsg(name + ['='] + val) ==> name == MSG
  {
    var t := name + ['='] + val;
    assert t[|name|] == '=' && t[..|name|] == name;
    if |name| == 3 {
      assert name == [t[0], t[1], t[2]];
    } else if |name| > 3 {
      assert t[3] == name[3];
    } else {
      assert |name| == 0 || |name| == 1 || |name| == 2;
    }
  }

  lemma JoinInToken(name: seq<Byte>, val: seq<Byte>)
    requires Plain(name) && InToken(val)
    ensures InToken(name + ['='] + val)
  {
  }

  lemma TokenFieldsIs(name: seq<Byte>, val: seq<Byte>)
    requires Plain(name) && name != MSG
    ensures TokenFields(name + ['='] + val) == Stored(Label(name), Trimmed(val))
  {
    SplitFieldIs(name, val);
    MsgOnly(name, val);
  }

  lemma TokenIsRead(name: seq<Byte>, val: seq<Byte>)
    requires Plain(name) && name != MSG && InToken(val)
    ensures Fields(name + ['='] + val) == Stored(Label(name), Trimmed(val))
  {
    TokenFieldsIs(name, val);
    JoinInToken(name, val);
    FieldsOfToken(name + ['='] + val);
  }

  /** The first token of a quoted message: `msg='` and what follows it. */
  predicate StartsMessage(t: seq<Byte>)
  {
    |t| >= 5 && t[0] == 'm' && t[1] == 's' && t[2] == 'g' && t[3] == '=' && t[4] == '\''
  }

  lemma MessageFieldsIs(t: seq<Byte>)
    requires StartsMessage(t) && '=' in t[5..]
    ensures TokenFields(t) == SplitField(t[5..])
  {
    assert t[3] in t;
  }

  lemma MessageInToken(t: seq<Byte>)
    requires StartsMessage(t) && InToken(t[5..])
    ensures InToken(t)
  {
    forall k | 0 <= k < |t|
      ensures t[k] != ' ' && t[k] != INTERP_SEPARATOR
    {
      if k >= 5 {
        assert t[5..][k - 5] == t[k];
        assert t[k] in t[5..];
      }
    }
  }

  lemma MessageIsRead(t: seq<Byte>, name: seq<Byte>, val: seq<Byte>)
    requires Plain(name) && InToken(val) && StartsMessage(t) && t[5..] == name + ['='] + val
    ensures Fields(t) == Stored(Label(name), Trimmed(val))
  {
    SplitFieldIs(name, val);
    MessageFieldsIs(t);
    JoinInToken(name, val);
    MessageInToken(t);
    FieldsOfToken(t);
  }

  /** A field is read without the punctuation after its value, and without a parenthesis
      before its name. */
  lemma FieldIsRead(name: seq<Byte>, v: seq<Byte>, paren: bool, quote: bool, comma: bool, colon: bool)
    requires Ordinary(name) && InToken(v) && Core(v, paren)
    ensures var val := Punctuated(v, paren, quote, comma, colon);
            && (name != MSG ==> Fields(name + ['='] + val) == [Field(name, v)])
            && Fields(['('] + name + ['='] + val) == [Field(name, v)]
  {
    var val, open := Punctuated(v, paren, quote, comma, colon), ['('] + name;
    PunctuationIsTrimmed(v, paren, quote, comma, colon);
    PunctuatedInToken(v, paren, quote, comma, colon);
    if name != MSG {
      TokenIsRead(name, val);
    }
    assert open[1..] == name && open[0] == '(';
    TokenIsRead(open, val);
  }

  /** So is the first field of a quoted message. */
  lemma MessageFieldIsRead(t: seq<Byte>, name: seq<Byte>, v: seq<Byte>, paren: bool, quote: bool, comma: bool,
                           colon: bool)
    requires Ordinary(name) && InToken(v) && Core(v, paren) && StartsMessage(t)
    requires t[5..] == name + ['='] + Punctuated(v, paren, quote, comma, colon)
    ensures Fields(t) == [Field(name, v)]
  {
    PunctuationIsTrimmed(v, paren, quote, comma, colon);
    PunctuatedInToken(v, paren, quote, comma, colon);
    MessageIsRead(t, name, Punctuated(v, paren, quote, comma, colon));
  }

  /** The stamp of a record and tokens without an equals sign are no fields. */
  lemma NoFieldIsRead(t: seq<Byte>)
    requires t != [] && InToken(t) && ('=' !in t || ['m', 's', 'g', '=', 'a'] <= t)
    ensures Fields(t) == []
  {
    FieldsOfToken(t);
    if ['m', 's', 'g', '=', 'a'] <= t {
      assert t[0] == 'm' && t[1] == 's' && t[2] == 'g' && t[3] == '=' && t[4] == 'a';
    }
  }

  /** What follows the interpretation separator is not read. */
  lemma InterpretationsAreIgnored(a: seq<Byte>, b: seq<Byte>)
    requires 0x1D as char !in a
    ensures Fields(a + [0x1D as char] + b) == Fields(a)
  {
    IndexOfFirst(a, INTERP_SEPARATOR, b);
    assert (a + [INTERP_SEPARATOR] + b)[..|a|] == a;
    BodyOfSum(a, []);
  }

  /** A key that is a text in parentheses or quotes, or that is no encoding, is kept as it is. */
  lemma PlainKeyIsKept(val: seq<Byte>)
    requires InToken(val) && Core(val, false)
    requires val[0] == '(' || val[0] == '"' || |val| == 1 || !IsHex(val[0]) || !IsHex(val[1])
    ensures Fields(KEY + ['='] + val) == [Field(KEY, val)]
  {
    PunctuationIsTrimmed(val, false, false, false, false);
    assert Punctuated(val, false, false, false, false) == val;
    TokenIsRead(KEY, val);
    if val[0] != '(' && val[0] != '"' {
      UnescapedTooShort(val);
    }
  }

  // ------------------------------------------------------------- whole records

  /** A record written field by field. */
  function Written(fs: seq<(seq<Byte>, seq<Byte>)>): seq<Byte>
  {
    if fs == [] then []
    else fs[0].0 + ['='] + Encode(fs[0].1) + [' '] + Written(fs[1..])
  }

  function Readings(fs: seq<(seq<Byte>, seq<Byte>)>): seq<(seq<Byte>, seq<Byte>)>
  {
    if fs == [] then [] else FieldReading(Label(fs[0].0), fs[0].1) + Readings(fs[1..])
  }

  lemma {:induction false} RecordReading(fs: seq<(seq<Byte>, seq<Byte>)>)
    requires forall i :: 0 <= i < |fs| ==> Plain(fs[i].0)
    ensures Shown(Fields(Written(fs))) == Readings(fs)
  {
    if fs != [] {
      var t := fs[0].0 + ['='] + Encode(fs[0].1);
      EncodedIsPlain(fs[0].1);
      FieldsOfSum(t, Written(fs[1..]));
      FieldOfToken(fs[0].0, fs[0].1);
      ShownOfSum(Fields(t), Fields(Written(fs[1..])));
      RecordReading(fs[1..]);
    }
  }

  /** Names that are stored as they are written. */
  predicate Ordinary(name: seq<Byte>)
  {
    Plain(name) && !(['('] <= name) && name != KEY
  }

  /** A record of ordinary fields with NUL-free values is read back as it was written. */
  lemma {:induction false} RecordRoundTrip(fs: seq<(seq<Byte>, seq<Byte>)>)
    requires forall i :: 0 <= i < |fs| ==> Ordinary(fs[i].0) && '\0' !in fs[i].1
    ensures Shown(Fields(Written(fs))) == fs
  {
    RecordReading(fs);
    ReadingsAreValues(fs);
  }

  lemma {:induction false} ReadingsAreValues(fs: seq<(seq<Byte>, seq<Byte>)>)
    requires forall i :: 0 <= i < |fs| ==> Ordinary(fs[i].0) && '\0' !in fs[i].1
    ensures Readings(fs) == fs
  {
    if fs != [] {
      ReadingIffNoNul(fs[0].1);
      ReadingsAreValues(fs[1..]);
      assert fs == [fs[0]] + fs[1..];
    }
  }

  /** The value a caller of the library means: text up to its NUL when the length is 0,
      and otherwise as many bytes as it says. */
  function Meant(s: seq<Byte>, vlen: nat): seq<Byte>
    requires vlen <= |s|
  {
    if vlen == 0 then CString(s) else s[..vlen]
  }

  /** The library call writes the field with the value meant if and only if that value has
      to be encoded or is the whole text; "?" stands for none. */
  lemma EncodeFieldWrites(name: seq<Byte>, v: Option<seq<Byte>>, vlen: nat)
    requires v.Some? ==> vlen <= |v.value|
    ensures v.None? ==> EncodeField(name, v, vlen) == name + ['='] + Encode(['?'])
    ensures v.Some? ==>
              var u := Meant(v.value, vlen);
              EncodeField(name, v, vlen) == name + ['='] + Encode(u)
              <==> NeedsEncoding(u) || CString(v.value) == u
  {
    match v
    case None =>
      assert !Special('?');
      assert !NeedsEncoding(['?']);
    case Some(s) =>
      var u := Meant(s, vlen);
      if !NeedsEncoding(u) {
        DropHead(name + ['='] + ['"'], CString(s), u);
        assert EncodeField(name, v, vlen) == name + ['='] + ['"'] + CString(s) + ['"'];
        assert name + ['='] + Encode(u) == name + ['='] + ['"'] + u + ['"'];
      }
  }

  lemma DropHead(h: seq<Byte>, a: seq<Byte>, b: seq<Byte>)
    ensures h + a + ['"'] == h + b + ['"'] <==> a == b
  {
    if h + a + ['"'] == h + b + ['"'] {
      assert a == (h + a + ['"'])[|h|..|h| + |a|];
      assert b == (h + b + ['"'])[|h|..|h| + |b|];
    }
  }

  /** It always does for a length of 0 and for the length of the text. */
  lemma WholeTextIsWritten(name: seq<Byte>, s: seq<Byte>, vlen: nat)
    requires vlen == 0 || vlen == |s|
    ensures EncodeField(name, Some(s), vlen) == name + ['='] + Encode(Meant(s, vlen))
  {
    EncodeFieldWrites(name, Some(s), vlen);
    if vlen == |s| && !NeedsEncoding(s) {
      assert forall i :: 0 <= i < |s| ==> s[i] != '\0';
    }
    assert s[..|s|] == s;
  }

  /** A length of one for two letters is ignored: both are written. */
  lemma ShortLengthIsIgnored(name: seq<Byte>)
    ensures EncodeField(name, Some(['a', 'b']), 1) == name + ['='] + Encode(['a', 'b'])
    ensures EncodeField(name, Some(['a', 'b']), 1) != name + ['='] + Encode(Meant(['a', 'b'], 1))
  {
    var s: seq<Byte> := ['a', 'b'];
    assert Meant(s, 1) == ['a'] && CString(s) == s;
    assert !Special('a') && !Special('b');
    assert !NeedsEncoding(s) && !NeedsEncoding(['a']);
    EncodeFieldWrites(name, Some(s), 1);
  }
}
