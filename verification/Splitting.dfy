/** Splitting a NUL-terminated text into the non-empty pieces between separators, one
    piece per call, writing terminators into the text on the way. */
module Splitting {
  import opened Common

  /** A byte, written as the character it stands for. */
  type Byte = c: char | c as int < 0x100 witness ' '

  /** Separates the parts of a combined key. */
  const KEY_SEPARATOR: Byte := 0x01 as char

  /** The text a reader sees that stops at the first NUL. */
  function CString(s: seq<Byte>): (r: seq<Byte>)
    ensures '\0' !in r && r <= s
    ensures r == s <==> '\0' !in s
  {
    s[..IndexOf(s, '\0')]
  }

  /** The non-empty pieces of `s` between separators `d`. */
  function Pieces(s: seq<Byte>, d: Byte): (r: seq<seq<Byte>>)
    decreases |s|
  {
    var i := IndexOf(s, d);
    if s == [] then []
    else if i == |s| then [s]
    else (if i == 0 then [] else [s[..i]]) + Pieces(s[i + 1..], d)
  }

  lemma PiecesAt(a: seq<Byte>, d: Byte, b: seq<Byte>)
    requires d !in a
    ensures Pieces(a + [d] + b, d) == (if a == [] then [] else [a]) + Pieces(b, d)
  {
    var s := a + [d] + b;
    IndexOfFirst(a, d, b);
    assert s[..|a|] == a && s[|a| + 1..] == b;
  }

  /** A separator splits the work: with the two facts below it, this law determines
      the pieces of every text. */
  lemma {:induction false} PiecesOfSum(a: seq<Byte>, d: Byte, b: seq<Byte>)
    ensures Pieces(a + [d] + b, d) == Pieces(a, d) + Pieces(b, d)
    decreases |a|
  {
    var i := IndexOf(a, d);
    if i == |a| {
      PiecesAt(a, d, b);
    } else {
      var x, y := a[..i], a[i + 1..];
      assert a == x + [d] + y && a + [d] + b == x + [d] + (y + [d] + b);
      PiecesAt(x, d, y);
      PiecesAt(x, d, y + [d] + b);
      PiecesOfSum(y, d, b);
      Associate(if x == [] then [] else [x], Pieces(y, d), Pieces(b, d));
    }
  }

  /** The pieces are non-empty, have no separator and consist of bytes of `s`. */
  predicate PlainPieces(r: seq<seq<Byte>>, d: Byte, s: seq<Byte>)
  {
    forall k :: 0 <= k < |r| ==> r[k] != [] && d !in r[k] && forall c :: c in r[k] ==> c in s
  }

  lemma PlainPiecesOfSum(a: seq<seq<Byte>>, b: seq<seq<Byte>>, d: Byte, x: seq<Byte>, y: seq<Byte>)
    requires PlainPieces(a, d, x) && PlainPieces(b, d, y)
    ensures PlainPieces(a + b, d, x + [d] + y)
  {
  }

  lemma {:induction false} PiecesArePlain(s: seq<Byte>, d: Byte)
    ensures PlainPieces(Pieces(s, d), d, s)
    decreases |s|
  {
    var i := IndexOf(s, d);
    if i == |s| {
      PieceOfPlain(s, d);
    } else {
      var a, b := s[..i], s[i + 1..];
      assert s == a + [d] + b;
      PiecesAt(a, d, b);
      PiecesArePlain(b, d);
      PlainPiecesOfSum(if a == [] then [] else [a], Pieces(b, d), d, a, b);
    }
  }

  lemma PieceIsPlain(s: seq<Byte>, d: Byte, k: nat)
    requires k < |Pieces(s, d)|
    ensures Pieces(s, d)[k] != [] && d !in Pieces(s, d)[k]
    ensures forall c :: c in Pieces(s, d)[k] ==> c in s
  {
    PiecesArePlain(s, d);
  }

  lemma PieceOfPlain(a: seq<Byte>, d: Byte)
    requires d !in a
    ensures Pieces(a, d) == if a == [] then [] else [a]
  {
  }

  predicate AllAre(s: seq<Byte>, d: Byte)
  {
    forall j :: 0 <= j < |s| ==> s[j] == d
  }

  /** One call: `s` starts with separators, then `piece`, then a separator and `rest`;
      or it ends with the piece, or it has none. */
  ghost predicate SplitsOff(s: seq<Byte>, d: Byte, piece: Option<seq<Byte>>, rest: seq<Byte>)
  {
    exists k: nat {:trigger s[..k]} :: k <= |s| && AllAre(s[..k], d) &&
      match piece
      case None => k == |s| && rest == []
      case Some(p) => p != [] && d !in p &&
                      (s[k..] == p + [d] + rest || (s[k..] == p && rest == []))
  }

  lemma SeparatorFirst(s: seq<Byte>, d: Byte, k: nat)
    requires 0 < k <= |s| && AllAre(s[..k], d)
    ensures s == [d] + s[1..] && AllAre(s[1..][..k - 1], d) && s[1..][k - 1..] == s[k..]
  {
    assert s[0] == s[..k][0];
    assert s[1..][..k - 1] == s[..k][1..];
  }

  lemma SkipOne(t: seq<Byte>, d: Byte)
    ensures Pieces([d] + t, d) == Pieces(t, d)
  {
    PiecesAt([], d, t);
    assert [] + [d] + t == [d] + t;
  }

  lemma {:induction false} SkipSeparators(s: seq<Byte>, d: Byte, k: nat)
    requires k <= |s| && AllAre(s[..k], d)
    ensures Pieces(s, d) == Pieces(s[k..], d)
    decreases k
  {
    if k == 0 {
      assert s[k..] == s;
    } else {
      SeparatorFirst(s, d, k);
      SkipSeparators(s[1..], d, k - 1);
      SkipOne(s[1..], d);
    }
  }

  /** What one call splits off is the first piece, and it leaves the others. */
  lemma SplitsOffFirst(s: seq<Byte>, d: Byte, piece: Option<seq<Byte>>, rest: seq<Byte>)
    requires SplitsOff(s, d, piece, rest)
    ensures Pieces(s, d) == (if piece.Some? then [piece.value] else []) + Pieces(rest, d)
    ensures piece.None? ==> Pieces(rest, d) == []
  {
    var k: nat :| k <= |s| && AllAre(s[..k], d) &&
      match piece
      case None => k == |s| && rest == []
      case Some(p) => p != [] && d !in p &&
                      (s[k..] == p + [d] + rest || (s[k..] == p && rest == []));
    SkipSeparators(s, d, k);
    if piece.Some? {
      PiecesOfSum(piece.value, d, rest);
    }
  }

  /** `left` is the list of pieces of `s`, in a form that is only unfolded on demand. */
  ghost predicate ToCome(s: seq<Byte>, left: seq<seq<Byte>>)
  {
    forall k: nat {:trigger Whole(s, k)} :: k == |s| ==> left == Pieces(Whole(s, k), ' ')
  }

  lemma ToComeMeans(s: seq<Byte>, left: seq<seq<Byte>>)
    ensures ToCome(s, left) <==> left == Pieces(s, ' ')
  {
    assert Whole(s, |s|) == s;
  }

  lemma Halves<T>(s: seq<T>, whole: seq<T>, a: nat, b: nat, c: nat)
    requires a <= b <= c <= |whole| && s == whole[a..c]
    ensures s[..b - a] == whole[a..b] && s[b - a..] == whole[b..c]
  {
  }

  /** The splitter: the text being split, and the position of the terminator that ended
      the last piece. */
  class Splitter {
    const buf: array<Byte>
    const length: nat
    var saved: Option<nat>
    var first: bool
    ghost var left: seq<seq<Byte>>  // the pieces still to come

    ghost predicate Valid()
      reads this, buf
    {
      InBounds() && ToCome(Rest(), left)
    }

    ghost predicate InBounds()
      reads this`saved, this`first, buf
    {
      && length < buf.Length && buf[length] == '\0'
      && (saved.Some? ==> From() <= length && '\0' !in buf[From()..length])
    }

    /** Where the next call starts looking: at the text, or after the last terminator. */
    ghost function From(): nat
      reads this`saved, this`first
    {
      if saved.None? then length else if first then saved.value else saved.value + 1
    }

    /** What is left to split. */
    ghost function Rest(): seq<Byte>
      requires InBounds()
      reads this`saved, this`first, buf
    {
      if saved.None? then [] else buf[From()..length]
    }

    constructor (text: seq<Byte>)
      requires '\0' !in text
      ensures Valid() && ToCome(text, left) && fresh(buf)
    {
      buf := new Byte[|text| + 1](i requires 0 <= i <= |text| => if i < |text| then text[i] else '\0');
      length := |text|;
      saved := Some(0);
      first := true;
      left := Pieces(text, ' ');
      new;
      assert buf[0..length] == text;
      ToComeMeans(text, left);
    }

    /** The position of the next space, or of the terminator. */
    method Find(start: nat) returns (at: nat)
      requires start <= length < buf.Length && buf[length] == '\0' && '\0' !in buf[start..length]
      ensures start <= at <= length && ' ' !in buf[start..at]
      ensures buf[at] == ' ' || at == length
    {
      at := start;
      while buf[at] != '\0' && buf[at] != ' '
        invariant start <= at <= length && ' ' !in buf[start..at]
        decreases length - at
      {
        at := at + 1;
      }
      assert at < length ==> buf[at] in buf[start..length];
    }

    /** Skips spaces; then finds the end of the piece that follows. */
    method Skip(from: nat) returns (start: nat, at: nat)
      requires from <= length < buf.Length && buf[length] == '\0' && '\0' !in buf[from..length]
      ensures from <= start <= at <= length && (at == start ==> start == length)
      ensures AllAre(buf[from..start], ' ')
      ensures ' ' !in buf[start..at] && (buf[at] == ' ' || at == length)
    {
      start := from;
      at := Find(start);
      while buf[at] == ' ' && at == start
        invariant from <= start <= at <= length && '\0' !in buf[start..length]
        invariant AllAre(buf[from..start], ' ')
        invariant ' ' !in buf[start..at] && (buf[at] == ' ' || at == length)
        decreases length - start
      {
        start := start + 1;
        at := Find(start);
      }
    }

    /** The next piece. It is handed out as the text from where it starts to the
        terminator the call writes after it. */
    method Next() returns (piece: Option<seq<Byte>>)
      requires Valid()
      modifies this, buf
      ensures Valid()
      ensures piece.Some? <==> old(left) != []
      ensures piece.Some? ==> piece.value == old(left[0]) && left == old(left[1..])
      ensures piece.None? ==> left == []
    {
      ghost var s := Rest();
      ToComeMeans(s, left);
      piece := SplitOff();
      SplitsOffFirst(s, ' ', piece, Rest());
      left := Pieces(Rest(), ' ');
      ToComeMeans(Rest(), left);
    }

    method SplitOff() returns (piece: Option<seq<Byte>>)
      requires InBounds()
      modifies this`saved, this`first, buf
      ensures InBounds() && !first
      ensures SplitsOff(old(Rest()), ' ', piece, Rest())
    {
      ghost var s := Rest();
      if saved.None? {
        first := false;
        assert s[..0] == [];
        return None;
      }
      var from := if first then saved.value else saved.value + 1;
      var start, at := Skip(from);
      first := false;
      assert s == buf[from..length];
      Halves(s, buf[..], from, start, length);
      piece := if buf[start] == '\0' then None else Some(buf[start..at]);
      if at < length {
        Terminate(start, at);
      } else {
        saved := None;
      }
    }

    /** Ends the piece at `at`. */
    method Terminate(ghost start: nat, at: nat)
      requires start <= at < length < buf.Length && buf[length] == '\0' && buf[at] == ' '
      requires '\0' !in buf[start..length] && !first
      modifies this`saved, buf
      ensures InBounds() && saved.Some?
      ensures old(buf[start..length]) == old(buf[start..at]) + [' '] + Rest()
    {
      ghost var rest := buf[at + 1..length];
      assert buf[start..length] == buf[start..at] + [' '] + rest;
      buf[at] := '\0';
      saved := Some(at);
      assert buf[at + 1..length] == rest;
    }
  }
}
