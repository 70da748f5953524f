/** Escaping interpreted values for use in shell commands. */
module ShellEscape {
  import opened Common
  import opened Splitting

  datatype Mode = Shell | ShellQuote

  predicate InShellSet(c: Byte)
  {
    c == '"' || c == '\'' || c == '`' || c == '$' || c == '\\' || c == '!' || c == '(' || c == ')'
    || c == '|' || c == ' '
  }

  predicate InSet(m: Mode, c: Byte)
  {
    || InShellSet(c)
    || (m == ShellQuote
        && (c == ';' || c == '#' || c == '&' || c == '*' || c == '?' || c == '[' || c == ']'
            || c == '<' || c == '>' || c == '{' || c == '}'))
  }

  function OctalDigit(n: int): Byte
    requires 0 <= n < 8
  {
    (n + '0' as int) as char
  }

  /** The escaped form of one byte. */
  function EscapedByte(m: Mode, c: Byte): (r: seq<Byte>)
    ensures 1 <= |r| <= 4
  {
    var n := c as int;
    if n < 32 then ['\\', OctalDigit(n / 64), OctalDigit(n / 8 % 8), OctalDigit(n % 8)]
    else if InSet(m, c) then ['\\', c]
    else [c]
  }

  /** A control byte becomes its three octal digits, and a byte that means something to the
      shell gets a backslash; any other stays as it is. */
  lemma ByteForms(m: Mode, c: Byte)
    ensures var n := c as int;
            EscapedByte(m, c) ==
            if n < 32 then ['\\', '0', (48 + n / 8) as char, (48 + n % 8) as char]
            else if c in "\"'`$\\!()| " || (m == ShellQuote && c in ";#&*?[]<>{}") then ['\\', c]
            else [c]
  {
    ShellSetIs(c);
    QuoteSetIs(c);
  }

  lemma ShellSetIs(c: Byte)
    ensures InShellSet(c) <==> c in "\"'`$\\!()| "
  {
    var set10 := "\"'`$\\!()| ";
    assert set10[0] == '"' && set10[1] == '\'' && set10[2] == '`' && set10[3] == '$' && set10[4] == '\\';
    assert set10[5] == '!' && set10[6] == '(' && set10[7] == ')' && set10[8] == '|' && set10[9] == ' ';
  }

  lemma QuoteSetIs(c: Byte)
    ensures InSet(ShellQuote, c) <==> InShellSet(c) || c in ";#&*?[]<>{}"
  {
    var more := ";#&*?[]<>{}";
    assert more[0] == ';' && more[1] == '#' && more[2] == '&' && more[3] == '*' && more[4] == '?' && more[5] == '[';
    assert more[6] == ']' && more[7] == '<' && more[8] == '>' && more[9] == '{' && more[10] == '}';
  }

  function Escaped(m: Mode, s: seq<Byte>): seq<Byte>
  {
    if s == [] then [] else EscapedByte(m, s[0]) + Escaped(m, s[1..])
  }

  /** Is the byte counted as one to escape? In shell mode bytes are compared as signed
      characters, so that those above 127 are counted too. */
  predicate Counted(m: Mode, c: Byte)
  {
    (if m == Shell && c as int >= 128 then c as int - 256 else c as int) < 32 || InSet(m, c)
  }

  lemma CountedIff(m: Mode, c: Byte)
    ensures Counted(m, c) <==> EscapedByte(m, c) != [c] || (m == Shell && c as int >= 128)
  {
  }

  function Count(m: Mode, s: seq<Byte>): nat
  {
    if s == [] then 0 else (if Counted(m, s[0]) then 1 else 0) + Count(m, s[1..])
  }

  // ------------------------------------------------------------------- decoding

  predicate IsOctal(c: Byte)
  {
    '0' <= c <= '7'
  }

  function OctalByte(a: Byte, b: Byte, c: Byte): Byte
    requires IsOctal(a) && IsOctal(b) && IsOctal(c)
  {
    ((64 * (a as int - 48) + 8 * (b as int - 48) + c as int - 48) % 256) as char
  }

  /** Undoes the escaping: a backslash stands before three octal digits or before the byte
      it protects. */
  function Decoded(s: seq<Byte>): seq<Byte>
  {
    if s == [] then []
    else if s[0] != '\\' then [s[0]] + Decoded(s[1..])
    else if |s| >= 4 && IsOctal(s[1]) && IsOctal(s[2]) && IsOctal(s[3]) then
      [OctalByte(s[1], s[2], s[3])] + Decoded(s[4..])
    else if |s| >= 2 then [s[1]] + Decoded(s[2..])
    else s
  }

  lemma DecodedByte(m: Mode, c: Byte, rest: seq<Byte>)
    ensures Decoded(EscapedByte(m, c) + rest) == [c] + Decoded(rest)
  {
    if c as int < 32 {
      DecodedOctal(m, c, rest);
    } else if InSet(m, c) {
      assert (['\\', c] + rest)[2..] == rest && !IsOctal(c);
    } else {
      assert ([c] + rest)[1..] == rest;
    }
  }

  lemma DecodedOctal(m: Mode, c: Byte, rest: seq<Byte>)
    requires c as int < 32
    ensures Decoded(EscapedByte(m, c) + rest) == [c] + Decoded(rest)
  {
    var e := EscapedByte(m, c);
    assert (e + rest)[..4] == e && (e + rest)[4..] == rest;
    assert OctalByte(e[1], e[2], e[3]) == c;
  }

  /** Nothing is lost by escaping, in either mode. */
  lemma {:induction false} EscapedIsDecodable(m: Mode, s: seq<Byte>)
    ensures Decoded(Escaped(m, s)) == s
  {
    if s != [] {
      DecodedByte(m, s[0], Escaped(m, s[1..]));
      EscapedIsDecodable(m, s[1..]);
    }
  }

  /** So different texts have different escaped forms. */
  lemma EscapedIsInjective(m: Mode, s: seq<Byte>, t: seq<Byte>)
    requires Escaped(m, s) == Escaped(m, t)
    ensures s == t
  {
    EscapedIsDecodable(m, s);
    EscapedIsDecodable(m, t);
  }

  /** The space set aside from the count is enough. */
  lemma {:induction false} CountBoundsLength(m: Mode, s: seq<Byte>)
    ensures |s| <= |Escaped(m, s)| <= |s| + 3 * Count(m, s)
  {
    if s != [] {
      CountBoundsLength(m, s[1..]);
    }
  }

  /** When nothing is counted, escaping changes nothing. */
  lemma {:induction false} NothingCounted(m: Mode, s: seq<Byte>)
    ensures Count(m, s) == 0 ==> Escaped(m, s) == s
    ensures Escaped(m, s) == s ==> m == Shell || Count(m, s) == 0
  {
    if s != [] {
      NothingCounted(m, s[1..]);
      CountBoundsLength(m, s[1..]);
      assert s == [s[0]] + s[1..];
      if Escaped(m, s) == s {
        assert |EscapedByte(m, s[0])| == 1;
        assert Escaped(m, s)[1..] == Escaped(m, s[1..]);
      }
    }
  }

  // ------------------------------------------------------------------- the loops

  method Need(m: Mode, s: seq<Byte>) returns (cnt: nat)
    ensures cnt == Count(m, s)
  {
    cnt := 0;
    var i := 0;
    while i < |s|
      invariant i <= |s| && cnt + Count(m, s[i..]) == Count(m, s)
    {
      var n := if m == Shell && s[i] as int >= 128 then s[i] as int - 256 else s[i] as int;
      if n < 32 {
        cnt := cnt + 1;
      } else if InSet(m, s[i]) {
        cnt := cnt + 1;
      }
      assert s[i..][1..] == s[i + 1..];
      i := i + 1;
    }
  }

  /** Writes the escaped form of one byte at `j`. */
  method PutEscaped(m: Mode, c: Byte, dest: array<Byte>, j: nat) returns (k: nat)
    requires j + |EscapedByte(m, c)| <= dest.Length
    modifies dest
    ensures k == j + |EscapedByte(m, c)| && dest[..k] == old(dest[..j]) + EscapedByte(m, c)
  {
    k := j;
    if c as int < 32 {
      dest[k] := '\\';
      dest[k + 1] := OctalDigit(c as int / 64);
      dest[k + 2] := OctalDigit(c as int / 8 % 8);
      dest[k + 3] := OctalDigit(c as int % 8);
      k := k + 4;
    } else if InSet(m, c) {
      dest[k] := '\\';
      dest[k + 1] := c;
      k := k + 2;
    } else {
      dest[k] := c;
      k := k + 1;
    }
  }

  /** `done` is the escaped form of the first `i` bytes of `s`, and it fits. */
  ghost predicate Partly(m: Mode, done: seq<Byte>, s: seq<Byte>, i: nat)
  {
    forall k {:trigger s[..k]} :: k == i <= |s| ==> done + Escaped(m, s[k..]) == Escaped(m, s)
  }

  lemma PartlyStep(m: Mode, done: seq<Byte>, s: seq<Byte>, i: nat)
    requires i < |s| && Partly(m, done, s, i)
    ensures Partly(m, done + EscapedByte(m, s[i]), s, i + 1)
    ensures |done| + |EscapedByte(m, s[i])| <= |Escaped(m, s)|
  {
    assert s[..i] <= s;
    assert s[i..][1..] == s[i + 1..];
    Associate(done, EscapedByte(m, s[i]), Escaped(m, s[i + 1..]));
  }

  lemma PartlyEnds(m: Mode, done: seq<Byte>, s: seq<Byte>)
    ensures Partly(m, [], s, 0)
    ensures Partly(m, done, s, |s|) ==> done == Escaped(m, s)
  {
    assert s[0..] == s && s[..|s|] == s;
  }

  /** Writes the escaped text and a terminator. */
  method Escape(m: Mode, s: seq<Byte>, dest: array<Byte>) returns (n: nat)
    requires dest.Length >= |s| + 1 + 3 * Count(m, s)
    modifies dest
    ensures n < dest.Length && dest[..n] == Escaped(m, s) && dest[n] == '\0'
  {
    CountBoundsLength(m, s);
    PartlyEnds(m, [], s);
    n := 0;
    assert dest[..0] == [];
    for i := 0 to |s|
      invariant n <= dest.Length && Partly(m, dest[..n], s, i)
    {
      PartlyStep(m, dest[..n], s, i);
      n := PutEscaped(m, s[i], dest, n);
    }
    PartlyEnds(m, dest[..n], s);
    dest[n] := '\0';
  }

  /** The text that is handed out: escaped only if something was counted. */
  method Interpretation(m: Mode, s: seq<Byte>) returns (r: seq<Byte>)
    ensures r == Escaped(m, s)
  {
    var cnt := Need(m, s);
    if cnt == 0 {
      NothingCounted(m, s);
      return s;
    }
    var dest := new Byte[|s| + 1 + 3 * cnt](_ => ' ');
    var n := Escape(m, s, dest);
    r := dest[..n];
  }
}
