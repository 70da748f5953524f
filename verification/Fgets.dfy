/** Line-oriented reading from a descriptor through one static buffer. */
module Fgets {
  import opened Common

  const BUF_SIZE: nat := 8192

  // --------------------------------------------------------------------- pieces

  /** The first newline that a search of C strings finds, or the length: a NUL hides what
      follows it. */
  function LineEnd(b: string): (k: nat)
    ensures k <= |b| && (k < |b| ==> b[k] == '\n')
  {
    if b == [] || b[0] == '\n' then 0 else if b[0] == '\0' then |b| else 1 + LineEnd(b[1..])
  }

  /** Is the next piece of at most `blen` - 1 bytes fixed by the bytes at hand? */
  predicate Determined(b: string, blen: nat)
    requires blen > 0
  {
    LineEnd(b) < |b| || |b| >= blen - 1
  }

  /** Up to and including the next newline found, or `blen` - 1 bytes, whichever is shorter. */
  function Piece(b: string, blen: nat): (p: string)
    requires blen > 0 && Determined(b, blen)
    ensures |p| <= |b| && |p| <= blen - 1 && p == b[..|p|]
  {
    var k := LineEnd(b);
    if k < |b| && k + 1 <= blen - 1 then b[..k + 1] else b[..blen - 1]
  }

  lemma {:induction false} LineEndStable(a: string, b: string)
    requires LineEnd(a) < |a|
    ensures LineEnd(a + b) == LineEnd(a)
  {
    if a[0] != '\n' {
      assert (a + b)[1..] == a[1..] + b;
      LineEndStable(a[1..], b);
    }
  }

  lemma {:induction false} LineEndLater(a: string, b: string)
    requires LineEnd(a) == |a|
    ensures LineEnd(a + b) >= |a|
  {
    if a != [] && a[0] != '\0' {
      assert (a + b)[1..] == a[1..] + b;
      LineEndLater(a[1..], b);
    }
  }

  lemma {:induction false} LineEndIs(w: string, k: nat)
    requires k <= |w| && forall j :: 0 <= j < k ==> w[j] != '\n' && w[j] != '\0'
    requires k < |w| ==> w[k] == '\n' || w[k] == '\0'
    ensures LineEnd(w) == if k < |w| && w[k] == '\n' then k else |w|
  {
    if k > 0 {
      LineEndIs(w[1..], k - 1);
    }
  }

  /** A newline in `b` that is not hidden by a NUL. */
  predicate NewlineAt(b: string, k: nat)
  {
    k < |b| && b[k] == '\n' && '\0' !in b[..k]
  }

  lemma {:induction false} LineEndIsFirst(b: string)
    ensures LineEnd(b) < |b| ==> NewlineAt(b, LineEnd(b))
    ensures forall k: nat :: k < LineEnd(b) ==> !NewlineAt(b, k)
  {
    if b != [] && b[0] != '\n' {
      if b[0] == '\0' {
        HiddenBy(b);
      } else {
        LineEndIsFirst(b[1..]);
        forall k: nat
          ensures NewlineAt(b, k) <==> k > 0 && NewlineAt(b[1..], k - 1)
        {
          SameNewline(b, k);
        }
      }
    }
  }

  lemma HiddenBy(b: string)
    requires b != [] && b[0] == '\0'
    ensures forall k: nat :: !NewlineAt(b, k)
  {
    forall k | 0 < k <= |b|
      ensures '\0' in b[..k]
    {
      assert b[..k][0] == '\0';
    }
  }

  lemma SameNewline(b: string, k: nat)
    requires b != [] && b[0] != '\n' && b[0] != '\0'
    ensures NewlineAt(b, k) <==> k > 0 && NewlineAt(b[1..], k - 1)
  {
    if 0 < k < |b| {
      assert b[..k] == [b[0]] + b[1..][..k - 1];
    }
  }

  /** What a piece of `b` is: it starts `b`, has at most `blen` - 1 bytes, and has a newline
      only at its end; and it has one there if it is shorter. */
  ghost predicate IsPiece(p: string, b: string, blen: nat)
  {
    && p <= b && |p| < blen && (blen > 1 ==> p != [])
    && (|p| < blen - 1 ==> p != [] && NewlineAt(b, |p| - 1))
    && (forall k: nat :: k + 1 < |p| ==> !NewlineAt(b, k))
  }

  ghost predicate HasLine(b: string)
  {
    exists k: nat :: NewlineAt(b, k)
  }

  /** Is there a whole line, or are there enough bytes? */
  ghost predicate Enough(b: string, blen: nat)
  {
    |b| >= blen - 1 || HasLine(b)
  }

  lemma DeterminedIffEnough(b: string, blen: nat)
    requires blen > 0
    ensures HasLine(b) <==> LineEnd(b) < |b|
    ensures Determined(b, blen) <==> Enough(b, blen)
  {
    LineEndIsFirst(b);
  }

  lemma PieceIsPiece(b: string, blen: nat)
    requires blen > 0 && Determined(b, blen)
    ensures IsPiece(Piece(b, blen), b, blen)
  {
    LineEndIsFirst(b);
  }

  /** There is only one piece of each size. */
  lemma PieceIsUnique(p: string, q: string, b: string, blen: nat)
    requires IsPiece(p, b, blen) && IsPiece(q, b, blen)
    ensures p == q
  {
    NoShorterPiece(p, q, b, blen);
    NoShorterPiece(q, p, b, blen);
  }

  lemma NoShorterPiece(p: string, q: string, b: string, blen: nat)
    requires IsPiece(p, b, blen) && IsPiece(q, b, blen)
    ensures |p| >= |q|
  {
    if p != [] {
      var k: nat := |p| - 1;
      assert k + 1 < |q| ==> !NewlineAt(b, k);
    }
  }

  /** Once determined, a piece does not depend on what is read later. */
  lemma PieceStable(a: string, b: string, blen: nat)
    requires blen > 0 && Determined(a, blen)
    ensures Determined(a + b, blen) && Piece(a + b, blen) == Piece(a, blen)
  {
    if LineEnd(a) < |a| {
      LineEndStable(a, b);
    } else {
      LineEndLater(a, b);
    }
  }

  // -------------------------------------------------------- pieces of a whole stream

  /** `outs` are the first pieces of `b`, cut with the given sizes. */
  predicate Cut(b: string, sizes: seq<nat>, outs: seq<string>)
    decreases |sizes|
  {
    |sizes| == |outs| &&
    (sizes == [] || (sizes[0] > 0 && Determined(b, sizes[0]) && outs[0] == Piece(b, sizes[0]) &&
                     Cut(b[|outs[0]|..], sizes[1..], outs[1..])))
  }

  function Concat(outs: seq<string>): string
  {
    if outs == [] then [] else outs[0] + Concat(outs[1..])
  }

  /** Each of them is a piece of what follows those before it. */
  lemma {:induction false} CutIsPieces(b: string, sizes: seq<nat>, outs: seq<string>, i: nat)
    requires Cut(b, sizes, outs) && i < |sizes|
    ensures |Concat(outs[..i])| <= |b| && IsPiece(outs[i], b[|Concat(outs[..i])|..], sizes[i])
    decreases |sizes|
  {
    if i == 0 {
      assert outs[..0] == [] && b[0..] == b;
      PieceIsPiece(b, sizes[0]);
    } else {
      var rest := b[|outs[0]|..];
      CutIsPieces(rest, sizes[1..], outs[1..], i - 1);
      assert outs[..i][1..] == outs[1..][..i - 1];
      assert rest[|Concat(outs[1..][..i - 1])|..] == b[|Concat(outs[..i])|..];
    }
  }

  /** Reading more does not change the pieces already cut. */
  lemma {:induction false} CutStable(b: string, more: string, sizes: seq<nat>, outs: seq<string>)
    requires Cut(b, sizes, outs)
    ensures Cut(b + more, sizes, outs)
    decreases |sizes|
  {
    if sizes != [] {
      PieceStable(b, more, sizes[0]);
      assert (b + more)[|outs[0]|..] == b[|outs[0]|..] + more;
      CutStable(b[|outs[0]|..], more, sizes[1..], outs[1..]);
    }
  }

  lemma {:induction false} CutUnique(b: string, sizes: seq<nat>, outs: seq<string>, outs': seq<string>)
    requires Cut(b, sizes, outs) && Cut(b, sizes, outs')
    ensures outs == outs'
    decreases |sizes|
  {
    if sizes != [] {
      CutUnique(b[|outs[0]|..], sizes[1..], outs[1..], outs'[1..]);
      assert outs == [outs[0]] + outs[1..] && outs' == [outs'[0]] + outs'[1..];
    }
  }

  /** The output of successful calls depends on the stream and the sizes asked for,
      not on how much each read delivered. */
  lemma OutputDependsOnStream(b: string, b': string, sizes: seq<nat>, outs: seq<string>, outs': seq<string>)
    requires b <= b' && Cut(b, sizes, outs) && Cut(b', sizes, outs')
    ensures outs == outs'
  {
    assert b' == b + b'[|b|..];
    CutStable(b, b'[|b|..], sizes, outs);
    CutUnique(b', sizes, outs, outs');
  }

  lemma {:induction false} ConcatOneMore(outs: seq<string>, p: string)
    ensures Concat(outs + [p]) == Concat(outs) + p
  {
    if outs == [] {
      assert outs + [p] == [p] && [p][1..] == [];
      assert p + [] == p;
    } else {
      assert (outs + [p])[1..] == outs[1..] + [p];
      ConcatOneMore(outs[1..], p);
      Associate(outs[0], Concat(outs[1..]), p);
    }
  }

  lemma DropFirst(x: string, y: string, z: string)
    ensures (x + y + z)[|x|..] == y + z
  {
  }

  lemma {:induction false} CutOneMore(b: string, rest: string, sizes: seq<nat>, outs: seq<string>, n: nat)
    requires Cut(b, sizes, outs) && b == Concat(outs) + rest && n > 0 && Determined(rest, n)
    ensures Cut(b, sizes + [n], outs + [Piece(rest, n)])
    decreases |sizes|
  {
    var p := Piece(rest, n);
    if sizes == [] {
      assert outs == [] && b == rest;
      assert sizes + [n] == [n] && outs + [p] == [p] && [p][1..] == [];
    } else {
      DropFirst(outs[0], Concat(outs[1..]), rest);
      CutOneMore(b[|outs[0]|..], rest, sizes[1..], outs[1..], n);
      assert (sizes + [n])[1..] == sizes[1..] + [n] && (outs + [p])[1..] == outs[1..] + [p];
    }
  }

  /** What was delivered, then what is buffered, is what was received; and what was delivered
      are the pieces of it. (Stated of the whole, so that it stays folded in the methods.) */
  ghost predicate Accounted(received: string, sizes: seq<nat>, outs: seq<string>, held: string)
  {
    forall k: nat {:trigger Whole(received, k)} :: k == |received| ==>
      Whole(received, k) == Concat(outs) + held && Cut(Whole(received, k), sizes, outs)
  }

  lemma AccountedMeans(received: string, sizes: seq<nat>, outs: seq<string>, held: string)
    ensures Accounted(received, sizes, outs, held) <==> received == Concat(outs) + held && Cut(received, sizes, outs)
  {
    assert Whole(received, |received|) == received;
  }

  /** Bytes that arrive are buffered. */
  lemma StoreBytes(received: string, sizes: seq<nat>, outs: seq<string>, held: string, bytes: string)
    requires Accounted(received, sizes, outs, held)
    ensures Accounted(received + bytes, sizes, outs, held + bytes)
  {
    AccountedMeans(received, sizes, outs, held);
    CutStable(received, bytes, sizes, outs);
    Associate(Concat(outs), held, bytes);
    AccountedMeans(received + bytes, sizes, outs, held + bytes);
  }

  /** Delivering a piece moves it from what is buffered to what is delivered. */
  lemma DeliverPiece(b: string, rest: string, sizes: seq<nat>, outs: seq<string>, n: nat, p: string)
    requires Accounted(b, sizes, outs, rest) && n > 0 && Determined(rest, n) && p == Piece(rest, n)
    ensures Accounted(b, sizes + [n], outs + [p], rest[|p|..])
  {
    AccountedMeans(b, sizes, outs, rest);
    CutOneMore(b, rest, sizes, outs, n);
    MovePiece(outs, rest, |p|);
    AccountedMeans(b, sizes + [n], outs + [p], rest[|p|..]);
  }

  lemma MovePiece(outs: seq<string>, rest: string, n: nat)
    requires n <= |rest|
    ensures Concat(outs) + rest == Concat(outs + [rest[..n]]) + rest[n..]
  {
    ConcatOneMore(outs, rest[..n]);
    Associate(Concat(outs), rest[..n], rest[n..]);
    assert rest == rest[..n] + rest[n..];
  }

  // ------------------------------------------------------------------- the reader

  /** What a read returned: an error, or bytes (none at end of file). */
  datatype Got = Failed | Data(bytes: string)

  class Reader {
    const buffer: array<char>
    var current: nat
    var eof: bool
    ghost var received: string
    ghost var sizes: seq<nat>
    ghost var outs: seq<string>

    ghost function Held(): string
      reads this`current, buffer
      requires current <= buffer.Length
    {
      buffer[..current]
    }

    ghost predicate Valid()
      reads this, buffer
    {
      && buffer.Length == 2 * BUF_SIZE + 1 && current <= 2 * BUF_SIZE
      && buffer[current] == '\0'
      && Accounted(received, sizes, outs, Held())
    }

    constructor ()
      ensures Valid() && fresh(buffer) && received == [] && outs == [] && Held() == [] && !eof
    {
      buffer := new char[2 * BUF_SIZE + 1](_ => '\0');
      current, eof := 0, false;
      received, sizes, outs := [], [], [];
      AccountedMeans([], [], [], []);
    }

    /** Searches the buffer up to a NUL, as strchr does. */
    method FindNewline() returns (k: nat)
      requires Valid()
      ensures k == LineEnd(Held())
    {
      k := 0;
      while buffer[k] != '\0' && buffer[k] != '\n'
        invariant k <= current
        invariant forall j :: 0 <= j < k ==> Held()[j] != '\n' && Held()[j] != '\0'
        decreases current - k
      {
        k := k + 1;
      }
      LineEndIs(Held(), k);
      if buffer[k] == '\0' {
        k := current;
      }
    }

    /** Could a call with this size deliver without reading? */
    method More(blen: nat) returns (r: bool)
      requires Valid() && blen > 0
      ensures r <==> Enough(Held(), blen)
      ensures r && blen > 1 ==> Held() != []
    {
      DeterminedIffEnough(Held(), blen);
      var k := FindNewline();
      return k < current || current >= blen - 1;
    }

    /** Stores the bytes of a read after those already buffered. */
    method Store(bytes: string)
      requires Valid() && |bytes| <= 2 * BUF_SIZE - current
      modifies this`current, this`eof, this`received, buffer
      ensures Valid() && received == old(received) + bytes && Held() == old(Held()) + bytes
      ensures eof == (old(eof) || bytes == [])
    {
      ghost var held := Held();
      if bytes == [] {
        eof := true;
        return;
      }
      var at := current;
      forall k | 0 <= k < |bytes| {
        buffer[at + k] := bytes[k];
      }
      buffer[at + |bytes|] := '\0';
      current := current + |bytes|;
      assert Held() == held + bytes;
      StoreBytes(received, sizes, outs, held, bytes);
      received := received + bytes;
    }

    /** Moves what follows the first `n` buffered bytes to the front. */
    method Shift(n: nat)
      requires buffer.Length == 2 * BUF_SIZE + 1 && n <= current <= 2 * BUF_SIZE
      modifies this`current, buffer
      ensures current == old(current) - n && Held() == old(Held())[n..] && buffer[current] == '\0'
    {
      ghost var held := Held();
      var remainder := current - n;
      if remainder > 0 {
        forall k | 0 <= k < remainder {
          buffer[k] := buffer[n + k];
        }
      }
      current := remainder;
      assert Held() == held[n..];
      buffer[current] := '\0';
      assert Held() == held[n..];
    }

    /** Copies out the first `n` buffered bytes and keeps the rest. */
    method Deliver(n: nat, ghost blen: nat) returns (out: string)
      requires Valid() && blen > 0 && Determined(Held(), blen) && n == |Piece(Held(), blen)|
      modifies this`current, this`sizes, this`outs, buffer
      ensures Valid() && IsPiece(out, old(Held()), blen) && Held() == old(Held())[|out|..]
      ensures outs == old(outs) + [out]
    {
      PieceIsPiece(Held(), blen);
      out := MoveOut(n, blen);
    }

    method MoveOut(n: nat, ghost blen: nat) returns (out: string)
      requires Valid() && blen > 0 && Determined(Held(), blen) && n == |Piece(Held(), blen)|
      modifies this`current, this`sizes, this`outs, buffer
      ensures Valid() && out == Piece(old(Held()), blen) && Held() == old(Held())[|out|..]
      ensures outs == old(outs) + [out]
    {
      out := CopyOut(n);
      DeliverPiece(received, Held(), sizes, outs, blen, out);
      Shift(n);
      sizes, outs := sizes + [blen], outs + [out];
    }

    method CopyOut(n: nat) returns (out: string)
      requires n <= current <= buffer.Length
      ensures out == Held()[..n] && |out| == n
    {
      out := buffer[..n];
    }

    /** Where the piece ends, judged from the bytes buffered before any read. */
    method EndOfBuffered(blen: nat) returns (lineEnd: Option<nat>)
      requires Valid() && blen > 0
      ensures lineEnd == EndMark(Held(), blen)
    {
      lineEnd := None;
      if current != 0 {
        var k := FindNewline();
        if k < current {
          lineEnd := Some(k);
        } else if current >= blen - 1 {
          lineEnd := Some(current - 1);
        }
      }
    }

    /** Delivers the piece if its end is known or there are enough bytes; nothing is said of
        what happens when more than the bytes there are would be copied. */
    method Complete(blen: nat, lineEnd: Option<nat>) returns (inside: bool, rc: int, out: string)
      requires Valid() && blen > 0
      requires lineEnd.Some? ==> lineEnd == EndMark(Held(), blen)
      requires lineEnd.None? ==> LineEnd(Held()) == |Held()|
      modifies this`current, this`sizes, this`outs, buffer
      ensures inside <==> !Overreads(old(Held()), blen)
      ensures inside ==>
                && Valid() && rc == (if Enough(old(Held()), blen) then 1 else 0)
                && (rc == 1 ==> IsPiece(out, old(Held()), blen) && outs == old(outs) + [out]
                                && Held() == old(Held())[|out|..])
                && (rc == 0 ==> outs == old(outs) && Held() == old(Held()))
    {
      DeterminedIffEnough(Held(), blen);
      out := "";
      var lineLen: Option<nat> := None;
      if lineEnd.Some? {
        lineLen := Some(if lineEnd.value + 1 > blen - 1 then blen - 1 else lineEnd.value + 1);
      } else if current == 2 * BUF_SIZE {
        lineLen := Some(blen - 1);
      } else if current >= blen - 1 {
        lineLen := Some(blen - 1);
      }
      if lineLen.None? {
        return true, 0, out;
      }
      inside, rc := lineLen.value <= current, 1;
      if inside {
        out := Deliver(lineLen.value, blen);
      }
    }

    /** Delivers the next piece. It reads at most once, and not at all when the bytes
        buffered already fix the piece. Nothing is delivered before it is fixed. */
    method Get(blen: nat, got: Got) returns (inside: bool, rc: int, out: string, didRead: bool)
      requires Valid() && blen > 0
      requires got.Data? ==> |got.bytes| <= 2 * BUF_SIZE - current
      modifies this, buffer
      ensures didRead <==> Reads(old(Held()), blen, old(eof))
      ensures didRead && got.Failed? ==>
                inside && Valid() && rc == -1 && Held() == old(Held()) && received == old(received) && outs == old(outs)
      ensures var news := if didRead && got.Data? then got.bytes else [];
              var held := old(Held()) + news;
              !(didRead && got.Failed?) ==>
                && (inside <==> !Overreads(held, blen))
                && (inside ==> Valid() && received == old(received) + news)
                && (inside ==> rc == if Enough(held, blen) then 1 else 0)
                && (inside && rc == 1 ==>
                      IsPiece(out, held, blen) && outs == old(outs) + [out] && Held() == held[|out|..])
                && (inside && rc == 0 ==> outs == old(outs) && Held() == held)
    {
      out, didRead := "", false;
      DeterminedIffEnough(Held(), blen);
      var lineEnd := EndOfBuffered(blen);
      if lineEnd.None? && current != 2 * BUF_SIZE && !eof {
        didRead := true;
        if got.Failed? {
          return true, -1, out, didRead;
        }
        Store(got.bytes);
        var k := FindNewline();
        lineEnd := if k < current then Some(k) else None;
      } else {
        assert Held() + [] == Held() && received + [] == received;
      }
      inside, rc, out := Complete(blen, lineEnd);
    }

    /** Asking whether there is more, and then for the next piece. After a yes the call
        completes without reading, unless a size of one meets an empty buffer. */
    method MoreThenGet(blen: nat, got: Got) returns (more: bool, inside: bool, rc: int, out: string, didRead: bool)
      requires Valid() && blen > 0
      requires got.Data? ==> |got.bytes| <= 2 * BUF_SIZE - current
      modifies this, buffer
      ensures more <==> Enough(old(Held()), blen)
      ensures more ==> inside && Valid() && (didRead <==> !old(eof) && blen == 1 && old(Held()) == [])
      ensures more && !didRead ==> rc == 1 && IsPiece(out, old(Held()), blen)
    {
      ghost var held := Held();
      assert held + [] == held;
      more := More(blen);
      inside, rc, out, didRead := Get(blen, got);
    }
  }

  /** A full buffer without a newline, and a size beyond it: then the original copies more
      bytes than it holds. */
  ghost predicate Overreads(held: string, blen: nat)
  {
    |held| == 16384 < blen - 1 && !HasLine(held)
  }

  /** Is there room, more to come, and need for more? */
  ghost predicate Reads(held: string, blen: nat, eof: bool)
  {
    !eof && |held| != 16384 && !(held != [] && Enough(held, blen))
  }

  /** The smallest size that can overread does so on a full buffer of bytes without a newline. */
  method LargeSizeOverreads() returns (inside: bool)
    ensures !inside
  {
    var r := new Reader();
    var bytes := seq(2 * BUF_SIZE, _ => 'x');
    LineEndIs(bytes, |bytes|);
    DeterminedIffEnough(bytes, 1);
    assert r.Held() + bytes == bytes;
    var rc, out, didRead;
    inside, rc, out, didRead := r.Get(16386, Data(bytes));
  }

  /** A new reader says there is more for a size of one, and then reads. */
  method EmptyBufferStillReads(got: Got) returns (more: bool, didRead: bool)
    requires got.Data? ==> |got.bytes| <= 2 * BUF_SIZE
    ensures more && didRead
  {
    var r := new Reader();
    var inside, rc, out;
    more, inside, rc, out, didRead := r.MoreThenGet(1, got);
  }

  /** The index of the last byte of the next piece, if there are bytes that fix it. */
  function EndMark(b: string, blen: nat): Option<nat>
    requires blen > 0
  {
    if b == [] || !Determined(b, blen) then None
    else if LineEnd(b) < |b| then Some(LineEnd(b))
    else Some(|b| - 1)
  }
}
