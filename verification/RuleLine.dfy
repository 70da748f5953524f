/** Reading one line of a rules file into the argument vector of a rule. Spaces and
    backslashes inside an argument are escaped with a backslash in the file, marked by
    doubled control bytes while the line is split, and put back afterwards. */
module RuleLine {
  import opened Common
  import opened Splitting

  const SPACE_MARK: Byte := 0x07 as char
  const BACKSLASH_MARK: Byte := 0x04 as char

  predicate IsMark(c: Byte): (r: bool)
    ensures r <==> c as int == 7 || c as int == 4
  {
    c == SPACE_MARK || c == BACKSLASH_MARK
  }

  // ----------------------------------------------------------------- marking

  /** What two bytes become of which the first is an escaping backslash. */
  function MarkedPair(c: Byte): (r: seq<Byte>)
    ensures |r| == 2
  {
    if c == ' ' then [SPACE_MARK, SPACE_MARK]
    else if c == '\\' then [BACKSLASH_MARK, BACKSLASH_MARK]
    else ['\\', c]
  }

  function Preprocessed(s: seq<Byte>): (r: seq<Byte>)
    ensures |r| == |s|
  {
    if |s| < 2 then s
    else if s[0] == '\\' then MarkedPair(s[1]) + Preprocessed(s[2..])
    else [s[0]] + Preprocessed(s[1..])
  }

  lemma PreprocessedPair(done: seq<Byte>, todo: seq<Byte>)
    requires |todo| >= 2 && todo[0] == '\\'
    ensures done + Preprocessed(todo) == done + MarkedPair(todo[1]) + Preprocessed(todo[2..])
  {
    Associate(done, MarkedPair(todo[1]), Preprocessed(todo[2..]));
  }

  lemma PreprocessedPlain(done: seq<Byte>, todo: seq<Byte>)
    requires todo != [] && todo[0] != '\\'
    ensures done + Preprocessed(todo) == done + [todo[0]] + Preprocessed(todo[1..])
  {
    Associate(done, [todo[0]], Preprocessed(todo[1..]));
  }

  /** `done` is what the first `k` bytes of `s` became. */
  ghost predicate Partly(done: seq<Byte>, s: seq<Byte>, k: nat)
  {
    forall j {:trigger s[..j]} :: j == k <= |s| ==> done + Preprocessed(s[j..]) == Preprocessed(s)
  }

  lemma PartlyStep(done: seq<Byte>, s: seq<Byte>, k: nat)
    requires k < |s| && Partly(done, s, k)
    ensures s[k] != '\\' ==> Partly(done + [s[k]], s, k + 1)
    ensures s[k] == '\\' && k + 1 < |s| ==> Partly(done + MarkedPair(s[k + 1]), s, k + 2)
  {
    assert s[..k] <= s;
    if s[k] != '\\' {
      PreprocessedPlain(done, s[k..]);
      assert s[k..][1..] == s[k + 1..];
    } else if k + 1 < |s| {
      PreprocessedPair(done, s[k..]);
      assert s[k..][2..] == s[k + 2..];
    }
  }

  lemma PartlyEnds(done: seq<Byte>, s: seq<Byte>, k: nat)
    requires Partly(done, s, k) && |s| - 1 <= k <= |s|
    ensures done + s[k..] == Preprocessed(s)
  {
    assert s[..k] <= s;
  }

  /** Marks the byte at `i`, which follows a backslash. */
  method MarkEscaped(buf: array<Byte>, i: nat)
    requires 0 < i < buf.Length && buf[i - 1] == '\\'
    modifies buf
    ensures forall j :: i < j < buf.Length ==> buf[j] == old(buf[j])
    ensures buf[..i + 1] == old(buf[..i - 1]) + MarkedPair(old(buf[i]))
  {
    if buf[i] == ' ' {
      buf[i] := SPACE_MARK;
      buf[i - 1] := SPACE_MARK;
    } else if buf[i] == '\\' {
      buf[i] := BACKSLASH_MARK;
      buf[i - 1] := BACKSLASH_MARK;
    }
  }

  /** Marks the escaped bytes of the line in place. */
  method Preprocess(buf: array<Byte>, len: nat)
    requires len < buf.Length && buf[len] == '\0' && '\0' !in buf[..len]
    modifies buf
    ensures buf[..len] == Preprocessed(old(buf[..len])) && buf[len] == '\0'
  {
    ghost var s, k := buf[..len], 0;
    var i, escaped := 0, false;
    assert buf[..0] == [] && s[0..] == s;
    while buf[i] != '\0'
      invariant k <= i <= len && k == (if escaped then i - 1 else i)
      invariant escaped ==> s[k] == '\\'
      invariant buf[len] == '\0' && forall j :: k <= j < len ==> buf[j] == s[j] != '\0'
      invariant Partly(buf[..k], s, k)
      decreases len - i
    {
      if buf[i] == '\\' && !escaped {
        escaped := true;
      } else {
        PartlyStep(buf[..k], s, k);
        assert buf[..k + 1] == buf[..k] + [buf[k]];
        if escaped {
          MarkEscaped(buf, i);
          escaped := false;
        }
        k := i + 1;
      }
      i := i + 1;
    }
    PartlyEnds(buf[..k], s, k);
    assert buf[..len] == buf[..k] + s[k..];
  }

  // ----------------------------------------------------------------- unmarking

  /** Does a byte follow every mark that unmarking reaches? Exactly then does it stay inside
      the text. */
  predicate Paired(s: seq<Byte>)
  {
    if s == [] then true
    else if IsMark(s[0]) then |s| >= 2 && Paired(s[2..])
    else Paired(s[1..])
  }

  /** Where unmarking, which steps over two bytes at every mark, first finds itself at or
      after the end of the text. */
  function Stop(s: seq<Byte>): (n: nat)
    ensures |s| <= n <= |s| + 1
  {
    if s == [] then 0
    else if !IsMark(s[0]) then 1 + Stop(s[1..])
    else if |s| == 1 then 2
    else 2 + Stop(s[2..])
  }

  /** It finds the terminator if and only if no mark that it reaches is the last byte;
      otherwise it has just stepped over it. */
  lemma {:induction false} StopsAtEndIffPaired(s: seq<Byte>)
    ensures Stop(s) == |s| <==> Paired(s)
  {
    if |s| >= 2 {
      StopsAtEndIffPaired(s[1..]);
      StopsAtEndIffPaired(s[2..]);
    }
  }

  function Postprocessed(s: seq<Byte>): (r: seq<Byte>)
    requires Paired(s)
    ensures |r| <= |s|
  {
    if s == [] then []
    else if s[0] == SPACE_MARK then [' '] + Postprocessed(s[2..])
    else if s[0] == BACKSLASH_MARK then ['\\'] + Postprocessed(s[2..])
    else [s[0]] + Postprocessed(s[1..])
  }

  function Unmark(c: Byte): (r: Byte)
    ensures c as int == 7 ==> r == ' '
    ensures c as int == 4 ==> r == '\\'
    ensures c as int != 7 && c as int != 4 ==> r == c
  {
    if c == SPACE_MARK then ' ' else if c == BACKSLASH_MARK then '\\' else c
  }

  /** What unmarking a token gives; nothing is said of what is read past its end. */
  function Unmarked(token: seq<Byte>): Option<seq<Byte>>
  {
    if Paired(token) then Some(Postprocessed(token)) else None
  }

  /** `done` is what the first `i` bytes of `s` became, and what is left decides whether
      unmarking stays inside. */
  ghost predicate PartlyBack(done: seq<Byte>, s: seq<Byte>, i: nat)
  {
    forall j {:trigger s[..j]} :: j == i <= |s| ==>
      && Stop(s) == i + Stop(s[j..])
      && (Paired(s) ==> Paired(s[j..]) && done + Postprocessed(s[j..]) == Postprocessed(s))
  }

  lemma PartlyBackStep(done: seq<Byte>, s: seq<Byte>, i: nat)
    requires i < |s| && PartlyBack(done, s, i)
    ensures var n := if IsMark(s[i]) then i + 2 else i + 1;
            if n <= |s| then PartlyBack(done + [Unmark(s[i])], s, n) else n == Stop(s) && !Paired(s)
  {
    assert s[..i] <= s;
    var n := if IsMark(s[i]) then 2 else 1;
    if i + n <= |s| {
      assert s[i..][n..] == s[i + n..];
      if Paired(s) {
        Associate(done, [Unmark(s[i])], Postprocessed(s[i + n..]));
      }
    }
  }

  lemma PartlyBackEnds(done: seq<Byte>, s: seq<Byte>)
    ensures PartlyBack([], s, 0)
    ensures PartlyBack(done, s, |s|) ==> Unmarked(s) == Some(done)
  {
    assert s[0..] == s && s[|s|..] == [] && done + [] == done;
    assert s[..|s|] <= s;
    StopsAtEndIffPaired(s);
  }

  /** Puts the marked bytes back, in place, as long as it stays inside the text. */
  method Postprocess(buf: array<Byte>, len: nat) returns (inside: bool, n: nat)
    requires len < buf.Length && buf[len] == '\0' && '\0' !in buf[..len]
    modifies buf
    ensures n <= len && (inside <==> Stop(old(buf[..len])) == len)
    ensures Unmarked(old(buf[..len])) == if inside then Some(buf[..n]) else None
    ensures inside ==> buf[n] == '\0'
  {
    var str := buf[..len];
    var i := 0;
    n := 0;
    PartlyBackEnds([], str);
    assert buf[..0] == [];
    while i < |str|
      invariant n <= i <= len + 1 && n <= len
      invariant if i <= len then PartlyBack(buf[..n], str, i) else i == Stop(str) && !Paired(str)
    {
      ghost var done := buf[..n];
      PartlyBackStep(done, str, i);
      if str[i] == SPACE_MARK {
        buf[n] := ' ';
        i := i + 2;
      } else if str[i] == BACKSLASH_MARK {
        buf[n] := '\\';
        i := i + 2;
      } else {
        buf[n] := str[i];
        i := i + 1;
      }
      n := n + 1;
      assert buf[..n] == done + [buf[n - 1]];
    }
    inside := i == len;
    if inside {
      PartlyBackEnds(buf[..n], str);
      StopsAtEndIffPaired(str);
      buf[n] := '\0';
    }
  }

  // ---------------------------------------------------------- lines and arguments

  /** Overrun: unmarking a token went past its end. */
  datatype Line = Blank | Comment | Rule(fields: seq<seq<Byte>>) | Overrun

  const PROGRAM: seq<Byte> := ['a', 'u', 'd', 'i', 't', 'c', 't', 'l']

  /** How many tokens the argument vector of a line has room for. */
  function Room(line: seq<Byte>): (n: nat)
    ensures n > 0
  {
    |line| / 3 + 1
  }

  function Min(a: nat, b: nat): nat
  {
    if a < b then a else b
  }

  /** What becomes of the tokens after the first that there is room for. */
  function Kept(line: seq<Byte>, tokens: seq<seq<Byte>>): (r: seq<Option<seq<Byte>>>)
    requires tokens != []
    ensures |r| == Min(|tokens|, Room(line)) - 1
  {
    seq(Min(|tokens|, Room(line)) - 1, i requires 0 <= i < |tokens| - 1 => Unmarked(tokens[i + 1]))
  }

  predicate AllSome(s: seq<Option<seq<Byte>>>)
  {
    forall i :: 0 <= i < |s| ==> s[i].Some?
  }

  function Values(s: seq<Option<seq<Byte>>>): (r: seq<seq<Byte>>)
    requires AllSome(s)
    ensures |r| == |s| && forall i :: 0 <= i < |s| ==> s[i] == Some(r[i])
  {
    seq(|s|, i requires 0 <= i < |s| => s[i].value)
  }

  /** What a line is read as, given its tokens. */
  function LineOf(line: seq<Byte>, tokens: seq<seq<Byte>>): Line
  {
    if tokens == [] then Blank
    else if ['#'] <= tokens[0] then Comment
    else if AllSome(Kept(line, tokens)) then Rule([PROGRAM, tokens[0]] + Values(Kept(line, tokens)))
    else Overrun
  }

  /** A line is overrun if and only if it is a rule and some token after the first that
      there is room for ends in a mark that unmarking reaches. */
  lemma OverrunIff(line: seq<Byte>, tokens: seq<seq<Byte>>)
    ensures LineOf(line, tokens).Overrun? <==>
            && tokens != [] && !(['#'] <= tokens[0])
            && exists i :: 1 <= i < Min(|tokens|, Room(line)) && Stop(tokens[i]) == |tokens[i]| + 1
  {
    if tokens != [] {
      forall i | 1 <= i < Min(|tokens|, Room(line))
        ensures Kept(line, tokens)[i - 1].None? <==> Stop(tokens[i]) == |tokens[i]| + 1
      {
        StopsAtEndIffPaired(tokens[i]);
      }
      if !AllSome(Kept(line, tokens)) {
        var j :| 0 <= j < |Kept(line, tokens)| && Kept(line, tokens)[j].None?;
        assert Stop(tokens[j + 1]) == |tokens[j + 1]| + 1;
      }
    }
  }

  predicate MarkFree(s: seq<Byte>)
  {
    forall i :: 0 <= i < |s| ==> !IsMark(s[i])
  }

  lemma {:induction false} PreprocessedIsAligned(s: seq<Byte>)
    requires MarkFree(s)
    ensures Aligned(Preprocessed(s))
  {
    if |s| >= 2 {
      if s[0] == '\\' {
        PreprocessedIsAligned(s[2..]);
        assert Preprocessed(s)[2..] == Preprocessed(s[2..]);
        assert Preprocessed(s)[1..] == [MarkedPair(s[1])[1]] + Preprocessed(s[2..]);
      } else {
        PreprocessedIsAligned(s[1..]);
        assert Preprocessed(s)[1..] == Preprocessed(s[1..]);
      }
    }
  }

  /** Every mark that unmarking reaches is followed by its twin. */
  predicate Aligned(s: seq<Byte>)
  {
    if s == [] then true
    else if IsMark(s[0]) then |s| >= 2 && s[1] == s[0] && Aligned(s[2..])
    else Aligned(s[1..])
  }

  /** The bytes that unmarking steps over without showing them: those after a mark that are
      not its twin. */
  function Lost(s: seq<Byte>): (r: seq<Byte>)
    requires Paired(s)
  {
    if s == [] then []
    else if !IsMark(s[0]) then Lost(s[1..])
    else (if s[1] == s[0] then [] else [s[1]]) + Lost(s[2..])
  }

  lemma {:induction false} LosesNothingIffAligned(s: seq<Byte>)
    ensures Paired(s) && Lost(s) == [] <==> Aligned(s)
  {
    if s != [] && !IsMark(s[0]) {
      LosesNothingIffAligned(s[1..]);
    } else if |s| >= 2 {
      LosesNothingIffAligned(s[2..]);
    }
  }

  /** A byte after a mark that is not its twin is lost, and unmarking does not notice. */
  lemma StrayMarkLosesByte(m: Byte, c: Byte, s: seq<Byte>)
    requires IsMark(m) && c != m && Paired(s)
    ensures var token := [m, c] + s;
            && Paired(token) && Stop(token) == |token|
            && Unmarked(token) == Some([Unmark(m)] + Postprocessed(s)) && Lost(token) == [c] + Lost(s)
  {
    var token := [m, c] + s;
    assert token[2..] == s;
    StopsAtEndIffPaired(token);
  }

  lemma {:induction false} AlignedSplit(a: seq<Byte>, b: seq<Byte>)
    requires Aligned(a + [' '] + b)
    ensures Aligned(a) && Aligned(b)
    decreases |a|
  {
    var s := a + [' '] + b;
    if a == [] {
      assert s[1..] == b;
    } else if IsMark(a[0]) {
      assert s[0] == a[0] && s[1] == a[0];
      assert |a| >= 2 && a[2..] + [' '] + b == s[2..];
      AlignedSplit(a[2..], b);
    } else {
      assert a[1..] + [' '] + b == s[1..];
      AlignedSplit(a[1..], b);
    }
  }

  predicate AllAligned(tokens: seq<seq<Byte>>)
  {
    forall i :: 0 <= i < |tokens| ==> Aligned(tokens[i])
  }

  lemma AllAlignedOfSum(a: seq<seq<Byte>>, b: seq<seq<Byte>>)
    requires AllAligned(a) && AllAligned(b)
    ensures AllAligned(a + b)
  {
  }

  lemma {:induction false} PiecesOfAligned(s: seq<Byte>)
    requires Aligned(s)
    ensures AllAligned(Pieces(s, ' '))
    decreases |s|
  {
    var i := IndexOf(s, ' ');
    if i == |s| {
      PieceOfPlain(s, ' ');
    } else {
      var a, b := s[..i], s[i + 1..];
      assert s == a + [' '] + b;
      AlignedSplit(a, b);
      PiecesOfAligned(b);
      PiecesStayAligned(a, b);
    }
  }

  lemma PiecesStayAligned(a: seq<Byte>, b: seq<Byte>)
    requires ' ' !in a && Aligned(a) && AllAligned(Pieces(b, ' '))
    ensures AllAligned(Pieces(a + [' '] + b, ' '))
  {
    PiecesAt(a, ' ', b);
    AllAlignedOfSum(if a == [] then [] else [a], Pieces(b, ' '));
  }

  lemma {:induction false} PreprocessedSpaces(s: seq<Byte>)
    requires AllAre(s, ' ')
    ensures Preprocessed(s) == s
  {
    if |s| >= 2 {
      PreprocessedSpaces(s[1..]);
      assert s == [s[0]] + s[1..];
    }
  }

  lemma {:induction false} PreprocessedKeepsWord(s: seq<Byte>, i: nat)
    requires i < |s| && s[i] != ' '
    ensures !AllAre(Preprocessed(s), ' ')
  {
    var p := Preprocessed(s);
    if |s| >= 2 && s[0] == '\\' {
      assert p[0] == MarkedPair(s[1])[0] != ' ';
    } else if i == 0 {
      assert p[0] != ' ';
    } else {
      PreprocessedKeepsWord(s[1..], i - 1);
      assert p[1..] == Preprocessed(s[1..]);
    }
  }

  lemma {:induction false} NoPiecesIffSeparators(s: seq<Byte>, d: Byte)
    ensures Pieces(s, d) == [] <==> AllAre(s, d)
    decreases |s|
  {
    var i := IndexOf(s, d);
    if i < |s| {
      NoPiecesIffSeparators(s[i + 1..], d);
      assert i == 0 ==> s == [d] + s[1..];
      assert i > 0 ==> s[0] in s[..i];
    }
  }

  /** A line has no tokens exactly when it is blank, so the reader, which skips blank
      lines first, always finds one. */
  lemma BlankIffNoTokens(line: seq<Byte>, tokens: seq<seq<Byte>>)
    requires TokensAre(line, tokens)
    ensures tokens == [] <==> AllAre(line, ' ')
  {
    TokensAreMeans(line, tokens);
    NoPiecesIffSeparators(Preprocessed(line), ' ');
    if AllAre(line, ' ') {
      PreprocessedSpaces(line);
    } else {
      var i :| 0 <= i < |line| && line[i] != ' ';
      PreprocessedKeepsWord(line, i);
    }
  }

  // ------------------------------------------------------------- reading a line

  /** `tokens` are the tokens of `line`, in a form that is only unfolded on demand. */
  ghost predicate TokensAre(line: seq<Byte>, tokens: seq<seq<Byte>>)
  {
    forall k: nat {:trigger Whole(line, k)} :: k == |line| ==> tokens == Pieces(Preprocessed(Whole(line, k)), ' ')
  }

  lemma TokensAreMeans(line: seq<Byte>, tokens: seq<seq<Byte>>)
    ensures TokensAre(line, tokens) <==> tokens == Pieces(Preprocessed(line), ' ')
  {
    assert Whole(line, |line|) == line;
  }

  /** A line without mark bytes is never overrun and loses no byte: marking leaves only
      doubled marks, and no space falls between the two. */
  lemma MarkFreeIsInside(line: seq<Byte>, tokens: seq<seq<Byte>>)
    requires MarkFree(line) && TokensAre(line, tokens)
    ensures !LineOf(line, tokens).Overrun?
    ensures forall i :: 0 <= i < |tokens| ==> Paired(tokens[i]) && Lost(tokens[i]) == []
  {
    TokensAreMeans(line, tokens);
    PreprocessedIsAligned(line);
    PiecesOfAligned(Preprocessed(line));
    AlignedIsInside(line, tokens);
  }

  lemma AlignedIsInside(line: seq<Byte>, tokens: seq<seq<Byte>>)
    requires AllAligned(tokens)
    ensures !LineOf(line, tokens).Overrun?
    ensures forall i :: 0 <= i < |tokens| ==> Paired(tokens[i]) && Lost(tokens[i]) == []
  {
    forall i | 0 <= i < |tokens|
      ensures Paired(tokens[i]) && Lost(tokens[i]) == []
    {
      LosesNothingIffAligned(tokens[i]);
    }
  }

  /** A single mark byte as an argument makes unmarking step over the terminator. */
  lemma LoneMarkOverruns()
    ensures var line, tokens := ['a', ' ', SPACE_MARK], [['a'], [SPACE_MARK]];
            TokensAre(line, tokens) && Stop(tokens[1]) == 2 && LineOf(line, tokens) == Overrun
  {
    var line: seq<Byte>, tokens: seq<seq<Byte>> := ['a', ' ', SPACE_MARK], [['a'], [SPACE_MARK]];
    PrependPlain(SPACE_MARK, []);
    PrependPlain(' ', [SPACE_MARK]);
    PrependPlain('a', [' ', SPACE_MARK]);
    assert Preprocessed(line) == ['a'] + [' '] + [SPACE_MARK];
    PiecesAt(['a'], ' ', [SPACE_MARK]);
    PieceOfPlain([SPACE_MARK], ' ');
    TokensAreMeans(line, tokens);
    assert Kept(line, tokens)[0] == Unmarked([SPACE_MARK]) == None;
  }

  lemma {:induction false} PreprocessedNoNul(s: seq<Byte>)
    requires '\0' !in s
    ensures '\0' !in Preprocessed(s)
  {
    if |s| >= 2 {
      if s[0] == '\\' {
        PreprocessedNoNul(s[2..]);
        assert s[1] in s;
      } else {
        PreprocessedNoNul(s[1..]);
      }
    }
  }

  method MarkLine(line: seq<Byte>) returns (r: seq<Byte>)
    requires '\0' !in line
    ensures r == Preprocessed(line) && '\0' !in r
  {
    var buf := new Byte[|line| + 1](i requires 0 <= i <= |line| => if i < |line| then line[i] else '\0');
    assert buf[..|line|] == line;
    Preprocess(buf, |line|);
    PreprocessedNoNul(line);
    r := buf[..|line|];
  }

  /** `r` is what unmarking `token` gives, in a form that is only unfolded on demand. */
  ghost predicate UnmarksTo(token: seq<Byte>, r: Option<seq<Byte>>)
  {
    forall k: nat {:trigger Whole(token, k)} :: k == |token| ==> '\0' !in token && Unmarked(Whole(token, k)) == r
  }

  lemma UnmarksToMeans(token: seq<Byte>, r: Option<seq<Byte>>)
    ensures UnmarksTo(token, r) <==> '\0' !in token && Unmarked(token) == r
  {
    assert Whole(token, |token|) == token;
  }

  method UnmarkToken(token: seq<Byte>, ghost want: Option<seq<Byte>>) returns (r: Option<seq<Byte>>)
    requires UnmarksTo(token, want)
    ensures r == want
  {
    UnmarksToMeans(token, want);
    var buf := new Byte[|token| + 1](i requires 0 <= i <= |token| => if i < |token| then token[i] else '\0');
    assert buf[..|token|] == token;
    var inside, n := Postprocess(buf, |token|);
    r := if inside then Some(buf[..n]) else None;
  }

  /** Takes the `n`th of all tokens. */
  method TakeToken(splitter: Splitter, ghost all: seq<seq<Byte>>, ghost n: nat)
    returns (token: Option<seq<Byte>>)
    requires splitter.Valid() && n <= |all| && splitter.left == all[n..]
    modifies splitter, splitter.buf
    ensures splitter.Valid() && (token.Some? <==> n < |all|)
    ensures n < |all| ==> token.value == all[n] && splitter.left == all[n + 1..]
  {
    token := splitter.Next();
  }

  /** Stores one token, unmarked. */
  method StoreField(fields: array<Option<seq<Byte>>>, i: nat, token: seq<Byte>, ghost want: Option<seq<Byte>>)
    returns (inside: bool)
    requires i < fields.Length && UnmarksTo(token, want)
    modifies fields
    ensures inside <==> want.Some?
    ensures inside ==> fields[i] == want
    ensures forall j :: 0 <= j < fields.Length && j != i ==> fields[j] == old(fields[j])
  {
    var field := UnmarkToken(token, want);
    inside := field.Some?;
    if inside {
      fields[i] := field;
    }
  }

  /** Stores the remaining tokens, unmarked, from the third entry on, as long as an entry
      is left for the terminator. */
  method FillFields(splitter: Splitter, fields: array<Option<seq<Byte>>>, ghost want: seq<Option<seq<Byte>>>)
    returns (inside: bool, i: nat)
    requires splitter.Valid() && fields.Length >= 3 && 2 <= |want| <= |splitter.left| + 2
    requires |want| == Min(|splitter.left| + 2, fields.Length - 1)
    requires forall j :: 0 <= j < 2 ==> fields[j] == want[j] && want[j].Some?
    requires forall j :: 0 <= j < |want| - 2 ==> UnmarksTo(splitter.left[j], want[j + 2])
    modifies splitter, splitter.buf, fields
    ensures inside <==> AllSome(want)
    ensures inside ==> i == |want| && fields[i] == None && fields[..i] == want
  {
    ghost var all := splitter.left;
    i := 2;
    var token := TakeToken(splitter, all, 0);
    while token.Some? && i < fields.Length - 1
      invariant splitter.Valid() && 2 <= i <= |want| && (token.Some? <==> i - 2 < |all|)
      invariant i - 2 < |all| ==> token.value == all[i - 2] && splitter.left == all[i - 1..]
      invariant forall j :: 0 <= j < i ==> fields[j] == want[j] && want[j].Some?
      decreases fields.Length - i
    {
      assert UnmarksTo(all[i - 2], want[i - 2 + 2]);
      inside := StoreField(fields, i, token.value, want[i]);
      if !inside {
        return false, i;
      }
      i := i + 1;
      token := TakeToken(splitter, all, i - 2);
    }
    fields[i] := None;
    inside := true;
  }

  /** The argument vector, of `nf` entries: the program's name, the first token as it is,
      the other tokens, and a terminator. */
  method CollectFields(splitter: Splitter, first: seq<Byte>, nf: nat, ghost want: seq<Option<seq<Byte>>>)
    returns (r: Option<seq<seq<Byte>>>)
    requires splitter.Valid() && nf >= 3 && |want| == Min(|splitter.left|, nf - 3)
    requires forall j :: 0 <= j < |want| ==> UnmarksTo(splitter.left[j], want[j])
    modifies splitter, splitter.buf
    ensures r == if AllSome(want) then Some([PROGRAM, first] + Values(want)) else None
  {
    var fields := new Option<seq<Byte>>[nf](_ => None);
    fields[0], fields[1] := Some(PROGRAM), Some(first);
    HeadedValues(first, want);
    var inside, i := FillFields(splitter, fields, Headed(first, want));
    r := if inside then Some(Values(fields[..i])) else None;
  }

  function Headed(first: seq<Byte>, want: seq<Option<seq<Byte>>>): (r: seq<Option<seq<Byte>>>)
    ensures |r| == |want| + 2 && r[0] == Some(PROGRAM) && r[1] == Some(first)
    ensures forall j :: 0 <= j < |want| ==> r[j + 2] == want[j]
  {
    [Some(PROGRAM), Some(first)] + want
  }

  lemma HeadedValues(first: seq<Byte>, want: seq<Option<seq<Byte>>>)
    ensures AllSome(Headed(first, want)) <==> AllSome(want)
    ensures AllSome(want) ==> Values(Headed(first, want)) == [PROGRAM, first] + Values(want)
  {
    forall j | 0 <= j < |want|
      ensures want[j] == Headed(first, want)[j + 2]
    {
    }
  }

  lemma TokenHasNoNul(line: seq<Byte>, tokens: seq<seq<Byte>>, j: nat)
    requires '\0' !in line && TokensAre(line, tokens) && j < |tokens|
    ensures '\0' !in tokens[j]
  {
    TokensAreMeans(line, tokens);
    PreprocessedNoNul(line);
    PieceIsPlain(Preprocessed(line), ' ', j);
  }

  lemma TokenIsNotEmpty(line: seq<Byte>, tokens: seq<seq<Byte>>, j: nat)
    requires TokensAre(line, tokens) && j < |tokens|
    ensures tokens[j] != []
  {
    TokensAreMeans(line, tokens);
    PieceIsPlain(Preprocessed(line), ' ', j);
  }

  lemma KeptTokens(line: seq<Byte>, tokens: seq<seq<Byte>>)
    requires '\0' !in line && TokensAre(line, tokens) && tokens != []
    ensures forall j :: 0 <= j < |Kept(line, tokens)| ==> UnmarksTo(tokens[1..][j], Kept(line, tokens)[j])
  {
    forall j | 0 <= j < |Kept(line, tokens)|
      ensures UnmarksTo(tokens[1..][j], Kept(line, tokens)[j])
    {
      TokenHasNoNul(line, tokens, j + 1);
      UnmarksToMeans(tokens[j + 1], Kept(line, tokens)[j]);
    }
  }

  method StartLine(line: seq<Byte>, ghost tokens: seq<seq<Byte>>) returns (splitter: Splitter)
    requires '\0' !in line && TokensAre(line, tokens)
    ensures fresh(splitter) && fresh(splitter.buf) && splitter.Valid() && splitter.left == tokens
  {
    var text := MarkLine(line);
    TokensAreMeans(line, tokens);
    splitter := new Splitter(text);
    ToComeMeans(text, splitter.left);
  }

  method IsBlank(line: seq<Byte>) returns (b: bool)
    ensures b == AllAre(line, ' ')
  {
    var idx := 0;
    while idx < |line| && line[idx] == ' '
      invariant idx <= |line| && forall k :: 0 <= k < idx ==> line[k] == ' '
    {
      idx := idx + 1;
    }
    b := idx == |line|;
  }

  method ReadLine(line: seq<Byte>, ghost tokens: seq<seq<Byte>>) returns (r: Line)
    requires '\0' !in line && TokensAre(line, tokens)
    ensures r == LineOf(line, tokens)
  {
    var nf := |line| / 3 + 3;
    BlankIffNoTokens(line, tokens);
    var blank := IsBlank(line);
    if blank {
      return Blank;
    }
    KeptTokens(line, tokens);
    TokenIsNotEmpty(line, tokens, 0);
    var splitter := StartLine(line, tokens);
    var token := splitter.Next();
    if token.value[0] == '#' {
      return Comment;
    }
    var fields := CollectFields(splitter, token.value, nf, Kept(line, tokens));
    r := if fields.Some? then Rule(fields.value) else Overrun;
  }

  // ----------------------------------------------------------------- round trip

  /** An argument as it is written in a rules file. */
  function Escaped(arg: seq<Byte>): seq<Byte>
  {
    if arg == [] then []
    else (if arg[0] == ' ' || arg[0] == '\\' then ['\\', arg[0]] else [arg[0]]) + Escaped(arg[1..])
  }

  function Marked(arg: seq<Byte>): seq<Byte>
  {
    if arg == [] then []
    else (if arg[0] == ' ' || arg[0] == '\\' then MarkedPair(arg[0]) else [arg[0]]) + Marked(arg[1..])
  }

  /** A line of arguments. */
  function Written(args: seq<seq<Byte>>): seq<Byte>
    requires args != []
  {
    if |args| == 1 then Escaped(args[0]) else Escaped(args[0]) + [' '] + Written(args[1..])
  }

  predicate Argument(arg: seq<Byte>)
  {
    arg != [] && MarkFree(arg)
  }

  lemma PrependPair(c: Byte, t: seq<Byte>)
    ensures Preprocessed(['\\', c] + t) == MarkedPair(c) + Preprocessed(t)
  {
    assert (['\\', c] + t)[2..] == t;
  }

  /** A backslash before any other byte stays. */
  lemma OtherEscapesStay(c: Byte, t: seq<Byte>)
    requires c != ' ' && c != '\\'
    ensures Preprocessed(['\\', c] + t) == ['\\', c] + Preprocessed(t)
  {
    PrependPair(c, t);
  }

  lemma PrependPlain(c: Byte, t: seq<Byte>)
    requires c != '\\'
    ensures Preprocessed([c] + t) == [c] + Preprocessed(t)
  {
    assert ([c] + t)[1..] == t;
  }

  lemma {:induction false} PreprocessedArgument(arg: seq<Byte>, rest: seq<Byte>)
    ensures Preprocessed(Escaped(arg) + rest) == Marked(arg) + Preprocessed(rest)
  {
    if arg == [] {
      assert Escaped(arg) + rest == rest && Marked(arg) + Preprocessed(rest) == Preprocessed(rest);
    } else {
      var c, t := arg[0], Escaped(arg[1..]) + rest;
      PreprocessedArgument(arg[1..], rest);
      if c == ' ' || c == '\\' {
        assert Escaped(arg) + rest == ['\\', c] + t;
        PrependPair(c, t);
        Associate(MarkedPair(c), Marked(arg[1..]), Preprocessed(rest));
      } else {
        assert Escaped(arg) + rest == [c] + t;
        PrependPlain(c, t);
        Associate([c], Marked(arg[1..]), Preprocessed(rest));
      }
    }
  }

  lemma {:induction false} MarkedIsWord(arg: seq<Byte>)
    requires MarkFree(arg)
    ensures ' ' !in Marked(arg) && |Marked(arg)| == |Escaped(arg)| >= |arg|
    ensures Paired(Marked(arg)) && Postprocessed(Marked(arg)) == arg
  {
    if arg != [] {
      MarkedIsWord(arg[1..]);
      var m := Marked(arg);
      if arg[0] == ' ' || arg[0] == '\\' {
        assert m[2..] == Marked(arg[1..]);
      } else {
        assert m[1..] == Marked(arg[1..]);
      }
    }
  }

  function AllMarked(args: seq<seq<Byte>>): (r: seq<seq<Byte>>)
    ensures |r| == |args|
  {
    seq(|args|, i requires 0 <= i < |args| => Marked(args[i]))
  }

  lemma PreprocessedBefore(arg: seq<Byte>, line: seq<Byte>)
    ensures Preprocessed(Escaped(arg) + [' '] + line) == Marked(arg) + [' '] + Preprocessed(line)
  {
    assert Escaped(arg) + [' '] + line == Escaped(arg) + ([' '] + line);
    PreprocessedArgument(arg, [' '] + line);
    PrependPlain(' ', line);
    Associate(Marked(arg), [' '], Preprocessed(line));
  }

  /** Writing an argument before a line writes its token before the others. */
  lemma TokenBefore(arg: seq<Byte>, line: seq<Byte>, tokens: seq<seq<Byte>>)
    requires Argument(arg) && TokensAre(line, tokens)
    ensures TokensAre(Escaped(arg) + [' '] + line, [Marked(arg)] + tokens)
  {
    TokensAreMeans(line, tokens);
    MarkedIsWord(arg);
    PiecesAt(Marked(arg), ' ', Preprocessed(line));
    PreprocessedBefore(arg, line);
    TokensAreMeans(Escaped(arg) + [' '] + line, [Marked(arg)] + tokens);
  }

  lemma TokenAlone(arg: seq<Byte>)
    requires Argument(arg)
    ensures TokensAre(Escaped(arg), [Marked(arg)])
  {
    PreprocessedArgument(arg, []);
    assert Escaped(arg) + [] == Escaped(arg) && Marked(arg) + [] == Marked(arg);
    MarkedIsWord(arg);
    PieceOfPlain(Marked(arg), ' ');
    TokensAreMeans(Escaped(arg), [Marked(arg)]);
  }

  /** The tokens of a written line are its arguments, marked. */
  lemma {:induction false} TokensOfWritten(args: seq<seq<Byte>>)
    requires args != [] && forall i :: 0 <= i < |args| ==> Argument(args[i])
    ensures TokensAre(Written(args), AllMarked(args))
  {
    if |args| == 1 {
      TokenAlone(args[0]);
      assert AllMarked(args) == [Marked(args[0])];
    } else {
      TokensOfWritten(args[1..]);
      TokenBefore(args[0], Written(args[1..]), AllMarked(args[1..]));
      assert AllMarked(args) == [Marked(args[0])] + AllMarked(args[1..]);
    }
  }

  lemma KeptOfMarked(line: seq<Byte>, args: seq<seq<Byte>>)
    requires args != [] && forall i :: 0 <= i < |args| ==> Argument(args[i])
    ensures var kept := Kept(line, AllMarked(args));
            AllSome(kept) && Values(kept) == args[1..Min(|args|, Room(line))]
  {
    var kept := Kept(line, AllMarked(args));
    forall i | 0 <= i < |kept|
      ensures kept[i] == Some(args[i + 1])
    {
      MarkedIsWord(args[i + 1]);
    }
  }

  /** What a written line is read as: every argument after the first comes back, as many
      as there is room for. */
  lemma RuleLineRoundTrip(args: seq<seq<Byte>>)
    requires args != [] && forall i :: 0 <= i < |args| ==> Argument(args[i])
    ensures var line, tokens := Written(args), AllMarked(args);
            && TokensAre(line, tokens)
            && LineOf(line, tokens) ==
               if ['#'] <= args[0] then Comment
               else Rule([PROGRAM, Marked(args[0])] + args[1..Min(|args|, Room(line))])
  {
    TokensOfWritten(args);
    KeptOfMarked(Written(args), args);
    FirstByte(args[0]);
  }

  lemma FirstByte(arg: seq<Byte>)
    requires Argument(arg)
    ensures Marked(arg) != [] && (Marked(arg)[0] == '#' <==> ['#'] <= arg)
  {
  }

  /** The first argument is not unmarked: it comes back exactly when it needs no marks. */
  lemma {:induction false} FirstArgument(arg: seq<Byte>)
    requires MarkFree(arg)
    ensures Marked(arg) == arg <==> ' ' !in arg && '\\' !in arg
  {
    if arg != [] {
      FirstArgument(arg[1..]);
      if arg[0] == ' ' || arg[0] == '\\' {
        assert Marked(arg)[0] != arg[0];
      } else {
        assert Marked(arg)[1..] == Marked(arg[1..]);
        assert arg == [arg[0]] + arg[1..];
      }
    }
  }

  /** There is room for all tokens of at least two bytes. */
  lemma {:induction false} LongTokensFit(args: seq<seq<Byte>>)
    requires args != [] && forall i :: 0 <= i < |args| ==> |Escaped(args[i])| >= 2
    ensures |Written(args)| >= 3 * |args| - 1
    ensures |args| <= Room(Written(args))
  {
    if |args| > 1 {
      LongTokensFit(args[1..]);
    }
  }

  /** Arguments are lost exactly when there are more than a third of the line's length
      and one. */
  lemma NothingLostIffRoom(args: seq<seq<Byte>>)
    requires args != [] && !(['#'] <= args[0])
    requires forall i :: 0 <= i < |args| ==> Argument(args[i])
    ensures var line, tokens := Written(args), AllMarked(args);
            && TokensAre(line, tokens)
            && (LineOf(line, tokens) == Rule([PROGRAM, Marked(args[0])] + args[1..])
                <==> |args| <= |line| / 3 + 1)
  {
    RuleLineRoundTrip(args);
    var head, n := [PROGRAM, Marked(args[0])], Min(|args|, Room(Written(args)));
    assert |head + args[1..n]| == n + 1 && |head + args[1..]| == |args| + 1;
  }

  /** Short arguments do not all fit: of three single letters the last is lost. */
  lemma ShortArgumentIsLost()
    ensures var args: seq<seq<Byte>> := [['a'], ['b'], ['c']];
            && TokensAre(Written(args), AllMarked(args))
            && LineOf(Written(args), AllMarked(args)) == Rule([PROGRAM, ['a'], ['b']])
  {
    var args: seq<seq<Byte>> := [['a'], ['b'], ['c']];
    assert |Escaped(args[0])| == |Escaped(args[1])| == |Escaped(args[2])| == 1;
    assert |Written(args)| == 5 by {
      assert args[1..][1..] == [['c']];
      assert |Written([['c']])| == 1;
    }
    RuleLineRoundTrip(args);
    assert Marked(['a']) == ['a'];
    assert args[1..2] == [['b']];
  }
}
