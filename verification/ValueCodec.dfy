/** Encoding field values that would break a record, and decoding them again. */
module ValueCodec {
  import opened Common
  import opened Splitting

  // ------------------------------------------------------------------- encoding

  /** A byte as the signed char the original compares. */
  function Signed(c: Byte): (n: int)
    ensures -128 <= n < 128 && (n - c as int) % 256 == 0
  {
    if c as int < 128 then c as int else c as int - 256
  }

  predicate Special(c: Byte)
  {
    c == '"' || Signed(c) < 0x21 || c as int == 0x7F
  }

  predicate NeedsEncoding(v: seq<Byte>)
  {
    exists i :: 0 <= i < |v| && Special(v[i])
  }

  function Digit(n: int): (c: Byte)
    requires 0 <= n < 16
    ensures IsHex(c) && Nibble(c) == n
  {
    if n < 10 then (n + '0' as int) as char else (n - 10 + 'A' as int) as char
  }

  function HexOf(c: Byte): (h: seq<Byte>)
    ensures |h| == 2 && IsHex(h[0]) && IsHex(h[1]) && Pair(h[0], h[1]) == c
  {
    [Digit(c as int / 16), Digit(c as int % 16)]
  }

  /** Two digits for each byte. */
  function Hex(v: seq<Byte>): (h: seq<Byte>)
    ensures |h| == 2 * |v|
  {
    if v == [] then [] else HexOf(v[0]) + Hex(v[1..])
  }

  /** The value part of a field. */
  function Encode(v: seq<Byte>): seq<Byte>
  {
    if NeedsEncoding(v) then Hex(v) else ['"'] + v + ['"']
  }

  /** The field `name` with value `v`: `v` is `vlen` bytes, or it ends at its first NUL
      when `vlen` is 0. The unencoded form is copied up to the NUL in any case. */
  function EncodeField(name: seq<Byte>, v: Option<seq<Byte>>, vlen: nat): seq<Byte>
    requires v.Some? ==> vlen <= |v.value|
  {
    match v
    case None => name + ['='] + ['"', '?', '"']
    case Some(s) =>
      var u := if vlen == 0 then CString(s) else s[..vlen];
      name + ['='] + if NeedsEncoding(u) then Hex(u) else ['"'] + CString(s) + ['"']
  }

  method ValueNeedsEncoding(v: seq<Byte>) returns (b: bool)
    ensures b == NeedsEncoding(v)
  {
    for i := 0 to |v|
      invariant forall j :: 0 <= j < i ==> !Special(v[j])
    {
      if v[i] == '"' || Signed(v[i]) < 0x21 || v[i] as int == 0x7F {
        return true;
      }
    }
    return false;
  }

  /** Writes the digits of `v` and a terminator. */
  method EncodeValue(final: array<Byte>, v: seq<Byte>)
    requires final.Length >= 2 * |v| + 1
    modifies final
    ensures final[..2 * |v|] == Hex(v) && final[2 * |v|] == '\0'
    ensures final[2 * |v| + 1..] == old(final[2 * |v| + 1..])
  {
    var ptr := 0;
    for i := 0 to |v|
      invariant ptr == 2 * i
      invariant final[..ptr] + Hex(v[i..]) == Hex(v)
      invariant final[2 * |v| + 1..] == old(final[2 * |v| + 1..])
    {
      ghost var done := final[..ptr];
      var h := HexOf(v[i]);
      final[ptr] := h[0];
      final[ptr + 1] := h[1];
      ptr := ptr + 2;
      assert final[..ptr] == done + h;
      Associate(done, h, Hex(v[i + 1..]));
      assert v[i..][1..] == v[i + 1..];
    }
    final[ptr] := '\0';
  }

  // ------------------------------------------------------------------- decoding

  predicate IsHex(c: Byte)
  {
    '0' <= c <= '9' || 'A' <= c <= 'F' || 'a' <= c <= 'f'
  }

  /** The value of a digit; anything else, the terminator too, counts as 0. */
  function Nibble(c: Byte): (n: int)
    ensures 0 <= n < 16
  {
    if '0' <= c <= '9' then c as int - '0' as int
    else if 'A' <= c <= 'F' then c as int - 'A' as int + 10
    else if 'a' <= c <= 'f' then c as int - 'a' as int + 10
    else 0
  }

  function Pair(hi: Byte, lo: Byte): Byte
  {
    (16 * Nibble(hi) + Nibble(lo)) as char
  }

  /** The bytes that pairs of digits stand for. A last single digit is a high one. */
  function Decoded(h: seq<Byte>): (v: seq<Byte>)
    ensures |v| == (|h| + 1) / 2
  {
    if h == [] then []
    else if |h| == 1 then [Pair(h[0], '\0')]
    else [Pair(h[0], h[1])] + Decoded(h[2..])
  }

  function HexLength(s: seq<Byte>): (n: nat)
    ensures n <= |s| && (forall i :: 0 <= i < n ==> IsHex(s[i]))
    ensures n < |s| ==> !IsHex(s[n])
  {
    if s == [] || !IsHex(s[0]) then 0 else 1 + HexLength(s[1..])
  }

  function Unescaped(s: seq<Byte>): (r: Option<seq<Byte>>)
  {
    var close := IndexOf(s, ')');
    var n := HexLength(s);
    if s != [] && s[0] == '(' then
      if close == |s| then None else Some(s[..close + 1])
    else if n < 2 then None
    else Some(CString(Decoded(s[..n])))
  }

  /** The text shown for a field's value. */
  function PrintEscaped(val: seq<Byte>): (r: seq<Byte>)
  {
    if val != [] && val[0] == '"' then
      var close := IndexOf(val[1..], '"');
      if 1 + close == |val| then [' '] else val[1..][..close]
    else
      var r := Unescaped(if |val| >= 2 && val[0] == '0' && val[1] == '0' then val[2..] else val);
      if r.Some? then r.value else val
  }

  /** The digits from `i` on. */
  function From(h: seq<Byte>, i: nat): seq<Byte>
  {
    if i < |h| then h[i..] else []
  }

  /** `done` is what the first `i` digits stand for. (Stated of the whole, so that decoding
      stays folded.) */
  ghost predicate DecodedSoFar(done: seq<Byte>, h: seq<Byte>, i: nat)
  {
    forall k: nat {:trigger Whole(h, k)} :: k == |h| ==> done + Decoded(From(Whole(h, k), i)) == Decoded(Whole(h, k))
  }

  lemma DecodedSoFarMeans(done: seq<Byte>, h: seq<Byte>, i: nat)
    ensures DecodedSoFar(done, h, i) <==> done + Decoded(From(h, i)) == Decoded(h)
  {
    assert Whole(h, |h|) == h;
  }

  lemma NoneDecoded(h: seq<Byte>)
    ensures DecodedSoFar([], h, 0)
  {
    DecodedSoFarMeans([], h, 0);
    assert From(h, 0) == h && [] + Decoded(h) == Decoded(h);
  }

  lemma AllDecoded(done: seq<Byte>, h: seq<Byte>, i: nat)
    requires DecodedSoFar(done, h, i) && i >= |h|
    ensures done == Decoded(h)
  {
    DecodedSoFarMeans(done, h, i);
    assert done + [] == done;
  }

  lemma OnePairDecoded(done: seq<Byte>, h: seq<Byte>, i: nat)
    requires DecodedSoFar(done, h, i) && i < |h|
    ensures DecodedSoFar(done + [Pair(h[i], if i + 1 < |h| then h[i + 1] else '\0')], h, i + 2)
  {
    var c := Pair(h[i], if i + 1 < |h| then h[i + 1] else '\0');
    DecodedSoFarMeans(done, h, i);
    assert i + 2 <= |h| ==> From(h, i)[2..] == h[i + 2..];
    Associate(done, [c], Decoded(From(h, i + 2)));
    DecodedSoFarMeans(done + [c], h, i + 2);
  }

  /** Decodes the first `len` bytes where they stand, and clears to half of `total`. */
  method DecodeInPlace(str: array<Byte>, len: nat, total: nat)
    requires len <= total < str.Length && str[len] == '\0'
    modifies str
    ensures str[..(len + 1) / 2] == Decoded(old(str[..len])) && str[(len + 1) / 2] == '\0'
  {
    ghost var h := str[..len];
    var i, at := 0, 0;
    NoneDecoded(h);
    while i < len
      invariant i == 2 * at && at <= (len + 1) / 2
      invariant i <= len ==> Remaining(str[..], h, i)
      invariant DecodedSoFar(str[..at], h, i)
    {
      DecodePair(str, i, at, h);
      i, at := i + 2, at + 1;
    }
    AllDecoded(str[..at], h, i);
    Clear(str, at, total / 2 - (at - 1));
  }

  /** The digits from `i` on are still there, and the terminator. */
  predicate Remaining(str: seq<Byte>, h: seq<Byte>, i: nat)
  {
    |h| < |str| && str[|h|] == '\0' && forall k :: i <= k < |h| ==> str[k] == h[k]
  }

  /** One step: the pair at `i` becomes the byte at `at`, which is not after it. */
  method DecodePair(str: array<Byte>, i: nat, at: nat, ghost h: seq<Byte>)
    requires Remaining(str[..], h, i) && at <= i < |h| && DecodedSoFar(str[..at], h, i)
    modifies str
    ensures i + 2 <= |h| ==> Remaining(str[..], h, i + 2)
    ensures DecodedSoFar(str[..at + 1], h, i + 2)
  {
    OnePairDecoded(str[..at], h, i);
    ghost var done := str[..at];
    str[at] := Pair(str[i], str[i + 1]);
    assert str[..at + 1] == done + [str[at]];
  }

  /** Terminates the text at `at` and clears `n` bytes from there. */
  method Clear(str: array<Byte>, at: nat, n: int)
    requires at < str.Length && at + n <= str.Length
    modifies str
    ensures str[..at] == old(str[..at]) && str[at] == '\0'
  {
    str[at] := '\0';
    forall k | at <= k < at + n {
      str[k] := '\0';
    }
  }

  method Unescape(buf: seq<Byte>) returns (r: Option<seq<Byte>>)
    requires '\0' !in buf
    ensures r == Unescaped(buf)
  {
    var n := 0;
    if buf != [] && buf[0] == '(' {
      n := IndexOf(buf, ')');
      return if n == |buf| then None else Some(buf[..n + 1]);
    }
    while n < |buf| && IsHex(buf[n])
      invariant n <= |buf| && forall i :: 0 <= i < n ==> IsHex(buf[i])
    {
      n := n + 1;
    }
    assert n == HexLength(buf);
    if n < 2 {
      return None;
    }
    var str := new Byte[|buf| + 1](i requires 0 <= i <= |buf| => if i < n then buf[i] else '\0');
    assert str[..n] == buf[..n];
    DecodeInPlace(str, n, |buf|);
    var size := (n + 1) / 2;
    assert str[..size] == Decoded(buf[..n]);
    r := Some(CString(str[..size]));
  }

  // ----------------------------------------------------------------- round trips

  lemma {:induction false} DecodedHex(v: seq<Byte>)
    ensures Decoded(Hex(v)) == v
  {
    if v != [] {
      assert Hex(v)[2..] == Hex(v[1..]);
      DecodedHex(v[1..]);
    }
  }

  lemma {:induction false} HexIsHex(v: seq<Byte>)
    ensures forall k :: 0 <= k < |Hex(v)| ==> IsHex(Hex(v)[k])
  {
    if v != [] {
      HexIsHex(v[1..]);
    }
  }

  lemma UnescapedHex(v: seq<Byte>)
    ensures Unescaped(Hex(v)) == if v == [] then None else Some(CString(v))
  {
    var h := Hex(v);
    var n := HexLength(h);
    HexIsHex(v);
    assert h[..n] == h;
    DecodedHex(v);
  }

  /** What becomes of a value: it ends at a NUL, but a first NUL is dropped, and shown
      as digits when it is all there is. */
  function Reading(v: seq<Byte>): seq<Byte>
  {
    if v == ['\0'] then ['0', '0']
    else if v != [] && v[0] == '\0' then CString(v[1..])
    else CString(v)
  }

  lemma PrintEncoded(v: seq<Byte>)
    ensures PrintEscaped(Encode(v)) == Reading(v)
  {
    if !NeedsEncoding(v) {
      PrintQuoted(v);
    } else if v[0] == '\0' {
      PrintAbstract(v);
    } else {
      UnescapedHex(v);
      FirstDigits(v);
    }
  }

  lemma PrintQuoted(v: seq<Byte>)
    requires !NeedsEncoding(v)
    ensures PrintEscaped(['"'] + v + ['"']) == v && '\0' !in v
  {
    assert forall i :: 0 <= i < |v| ==> v[i] != '"' && v[i] != '\0';
    assert (['"'] + v + ['"'])[1..] == v + ['"'] + [];
    IndexOfFirst(v, '"', []);
  }

  lemma PrintAbstract(v: seq<Byte>)
    requires v != [] && v[0] == '\0'
    ensures PrintEscaped(Hex(v)) == if |v| == 1 then ['0', '0'] else CString(v[1..])
  {
    assert HexOf(v[0]) == ['0', '0'];
    assert Hex(v)[2..] == Hex(v[1..]);
    UnescapedHex(v[1..]);
  }

  lemma FirstDigits(v: seq<Byte>)
    requires v != [] && v[0] != '\0'
    ensures !(Hex(v)[0] == '0' && Hex(v)[1] == '0')
  {
    assert Hex(v)[..2] == HexOf(v[0]);
  }

  /** Exactly the values without NULs come back unchanged. */
  lemma ReadingIffNoNul(v: seq<Byte>)
    ensures Reading(v) == v <==> '\0' !in v
  {
    if v != [] && v[0] == '\0' {
      assert v[0] in v;
    }
  }

  // --------------------------------------------------------------- the forms in bytes

  /** Exactly the values with a quote, or with a byte outside the printing characters above
      the space, are encoded. */
  lemma NeedsEncodingIff(v: seq<Byte>)
    ensures NeedsEncoding(v) <==> exists i :: 0 <= i < |v| && (v[i] == '"' || !('!' <= v[i] <= '~'))
  {
    assert forall c: Byte :: Special(c) <==> c == '"' || !('!' <= c <= '~');
  }

  /** An encoded byte is its upper and then its lower digit, in upper case. */
  lemma {:induction false} HexDigits(v: seq<Byte>, i: nat)
    requires i < |v|
    ensures Hex(v)[2 * i] == "0123456789ABCDEF"[v[i] as int / 16]
    ensures Hex(v)[2 * i + 1] == "0123456789ABCDEF"[v[i] as int % 16]
  {
    if i == 0 {
      DigitIs(v[0] as int / 16);
      DigitIs(v[0] as int % 16);
    } else {
      HexDigits(v[1..], i - 1);
      assert Hex(v)[2..] == Hex(v[1..]);
    }
  }

  lemma DigitIs(n: int)
    requires 0 <= n < 16
    ensures Digit(n) == "0123456789ABCDEF"[n]
  {
    var digits := "0123456789ABCDEF";
    assert n < 10 ==> digits[n] as int == 48 + n;
    assert n >= 10 ==> digits[n] as int == 65 + n - 10;
  }

  /** Decoding takes digits in either case. */
  lemma NibbleIs(n: int)
    requires 0 <= n < 16
    ensures IsHex("0123456789ABCDEF"[n]) && Nibble("0123456789ABCDEF"[n]) == n
    ensures IsHex("0123456789abcdef"[n]) && Nibble("0123456789abcdef"[n]) == n
  {
    DigitIs(n);
    var digits := "0123456789abcdef";
    assert n < 10 ==> digits[n] as int == 48 + n;
    assert n >= 10 ==> digits[n] as int == 97 + n - 10;
  }

  /** It takes nothing else for a digit, and counts it as 0. */
  lemma IsHexIff(c: Byte)
    ensures IsHex(c) <==> c in "0123456789ABCDEFabcdef"
    ensures !IsHex(c) ==> Nibble(c) == 0
  {
    var n := c as int;
    if 48 <= n <= 57 {
      assert "0123456789ABCDEFabcdef"[n - 48] == c;
    } else if 65 <= n <= 70 {
      assert "0123456789ABCDEFabcdef"[n - 55] == c;
    } else if 97 <= n <= 102 {
      assert "0123456789ABCDEFabcdef"[n - 81] == c;
    }
  }

  lemma DecodedMore(c: Byte, h: seq<Byte>)
    ensures Decoded(HexOf(c) + h) == [c] + Decoded(h)
  {
    assert (HexOf(c) + h)[2..] == h;
  }

  /** A single last digit is the upper one of a byte. */
  lemma {:induction false} DecodedOdd(v: seq<Byte>, d: Byte)
    ensures Decoded(Hex(v) + [d]) == v + [(16 * Nibble(d)) as char]
  {
    if v == [] {
      assert Hex(v) + [d] == [d];
    } else {
      Associate(HexOf(v[0]), Hex(v[1..]), [d]);
      DecodedMore(v[0], Hex(v[1..]) + [d]);
      DecodedOdd(v[1..], d);
      Associate([v[0]], v[1..], [(16 * Nibble(d)) as char]);
      assert [v[0]] + v[1..] == v;
    }
  }

  lemma {:induction false} HexLengthIs(h: seq<Byte>, rest: seq<Byte>)
    requires (forall k :: 0 <= k < |h| ==> IsHex(h[k])) && (rest != [] ==> !IsHex(rest[0]))
    ensures HexLength(h + rest) == |h|
  {
    if h != [] {
      assert (h + rest)[1..] == h[1..] + rest;
      HexLengthIs(h[1..], rest);
    }
  }

  /** Digits are decoded up to the first byte that is none. */
  lemma UnescapedStopsAtNonDigit(v: seq<Byte>, rest: seq<Byte>)
    requires v != [] && (rest != [] ==> !IsHex(rest[0]))
    ensures Unescaped(Hex(v) + rest) == Some(CString(v))
  {
    HexIsHex(v);
    HexLengthIs(Hex(v), rest);
    assert (Hex(v) + rest)[..|Hex(v)|] == Hex(v);
    DecodedHex(v);
  }

  /** A text in parentheses is kept with them and cut after the closing one; without one,
      and with fewer than two digits, there is no result. */
  lemma UnescapedOtherwise(s: seq<Byte>, rest: seq<Byte>)
    requires ')' !in s
    ensures Unescaped(['('] + s) == None && Unescaped(['('] + s + [')'] + rest) == Some(['('] + s + [')'])
  {
    IndexOfFirst(['('] + s, ')', rest);
    assert (['('] + s + [')'] + rest)[..|s| + 2] == ['('] + s + [')'];
  }

  lemma UnescapedTooShort(s: seq<Byte>)
    requires s == [] || (s[0] != '(' && (!IsHex(s[0]) || |s| == 1 || !IsHex(s[1])))
    ensures Unescaped(s) == None
  {
    if |s| > 1 {
      assert s[1..][0] == s[1];
    }
  }

  /** A quoted value without its closing quote is shown as a space, and one that cannot be
      decoded as it is. */
  lemma PrintedOtherwise(s: seq<Byte>)
    ensures '"' !in s ==> PrintEscaped(['"'] + s) == [' ']
    ensures s == [] || (s[0] != '"' && s[0] != '(' && !IsHex(s[0])) ==> PrintEscaped(s) == s
  {
    assert (['"'] + s)[1..] == s;
    if s == [] || (s[0] != '"' && s[0] != '(' && !IsHex(s[0])) {
      UnescapedTooShort(s);
    }
  }
}
