/** The input buffer of the log parser: a window that moves through an allocation,
    and the lines read from it. */
module DataBuf {
  import opened Common

  // ---------------------------------------------------------------------- lines

  /** The complete lines of a byte sequence, without their newlines. */
  function Lines(b: string): seq<string>
    decreases |b|
  {
    var k := IndexOf(b, '\n');
    if k == |b| then [] else [b[..k]] + Lines(b[k + 1..])
  }

  /** A line, its newline, and what follows. */
  function Line(l: string, rest: string): string
  {
    l + ("\n" + rest)
  }

  /** The lines, each followed by its newline. */
  function Unlines(ls: seq<string>): string
  {
    if ls == [] then [] else Line(ls[0], Unlines(ls[1..]))
  }

  predicate AllLines(ls: seq<string>)
  {
    forall k :: 0 <= k < |ls| ==> '\n' !in ls[k]
  }

  lemma LinesCons(l: string, rest: string)
    requires '\n' !in l
    ensures Lines(Line(l, rest)) == [l] + Lines(rest)
  {
    IndexOfFirst(l, '\n', rest);
    assert Line(l, rest) == l + ['\n'] + rest;
    assert Line(l, rest)[..|l|] == l && Line(l, rest)[|l| + 1..] == rest;
  }

  lemma LineThen(l: string, a: string, b: string)
    ensures Line(l, a) + b == Line(l, a + b)
  {
  }

  lemma Regroup<T>(a: seq<T>, b: seq<T>)
    requires a != []
    ensures [a[0]] + (a[1..] + b) == a + b
  {
  }

  /** Lines already taken, in front of the rest, are the first lines of the whole. */
  lemma {:induction false} LinesOfUnlines(ls: seq<string>, rest: string)
    requires AllLines(ls)
    ensures Lines(Unlines(ls) + rest) == ls + Lines(rest)
  {
    if ls == [] {
      assert Unlines(ls) + rest == rest && ls + Lines(rest) == Lines(rest);
    } else {
      LineThen(ls[0], Unlines(ls[1..]), rest);
      LinesCons(ls[0], Unlines(ls[1..]) + rest);
      LinesOfUnlines(ls[1..], rest);
      Regroup(ls, Lines(rest));
    }
  }

  lemma {:induction false} UnlinesOneMore(ls: seq<string>, l: string, rest: string)
    ensures Unlines(ls + [l]) + rest == Unlines(ls) + Line(l, rest)
  {
    if ls == [] {
      assert ls + [l] == [l] && [l][1..] == [];
      LineThen(l, [], rest);
      assert [] + rest == rest;
    } else {
      assert (ls + [l])[1..] == ls[1..] + [l];
      UnlinesOneMore(ls[1..], l, rest);
      LineThen(ls[0], Unlines(ls[1..] + [l]), rest);
      LineThen(ls[0], Unlines(ls[1..]), Line(l, rest));
    }
  }

  // ------------------------------------------------------------------ whole feeds

  /** What a user of a feed does: append a chunk, or try to read a line. */
  datatype Op = Give(chunk: string) | Take

  datatype Feed = Feed(window: string, taken: seq<string>)

  function TakeLine(f: Feed): Feed
  {
    var k := IndexOf(f.window, '\n');
    if k == |f.window| then f else Feed(f.window[k + 1..], f.taken + [f.window[..k]])
  }

  function After(ops: seq<Op>): Feed
  {
    if ops == [] then Feed([], []) else
    var f := After(ops[..|ops| - 1]);
    match ops[|ops| - 1]
    case Give(c) => Feed(f.window + c, f.taken)
    case Take => TakeLine(f)
  }

  /** All bytes appended in a run. */
  function Bytes(ops: seq<Op>): string
  {
    if ops == [] then [] else
    Bytes(ops[..|ops| - 1]) + if ops[|ops| - 1].Give? then ops[|ops| - 1].chunk else []
  }

  lemma {:induction false} NothingLost(ops: seq<Op>)
    ensures AllLines(After(ops).taken)
    ensures Unlines(After(ops).taken) + After(ops).window == Bytes(ops)
  {
    if ops != [] {
      var f := After(ops[..|ops| - 1]);
      NothingLost(ops[..|ops| - 1]);
      match ops[|ops| - 1]
      case Give(c) => Associate(Unlines(f.taken), f.window, c);
      case Take => TakeKeepsBytes(f);
    }
  }

  lemma TakeKeepsBytes(f: Feed)
    requires AllLines(f.taken)
    ensures AllLines(TakeLine(f).taken)
    ensures Unlines(TakeLine(f).taken) + TakeLine(f).window == Unlines(f.taken) + f.window
  {
    var k := IndexOf(f.window, '\n');
    if k < |f.window| {
      MoveLine(f.taken, f.window, k);
    }
  }

  lemma MoveLine(taken: seq<string>, w: string, k: nat)
    requires AllLines(taken) && k < |w| && w[k] == '\n' && '\n' !in w[..k]
    ensures AllLines(taken + [w[..k]])
    ensures Unlines(taken + [w[..k]]) + w[k + 1..] == Unlines(taken) + w
  {
    UnlinesOneMore(taken, w[..k], w[k + 1..]);
    assert w == Line(w[..k], w[k + 1..]);
  }

  /** The lines taken are the first lines of all bytes given, however these were
      chopped into chunks and however reading was interleaved with them. */
  lemma TakenAreFirstLines(ops: seq<Op>)
    ensures Lines(Bytes(ops)) == After(ops).taken + Lines(After(ops).window)
  {
    NothingLost(ops);
    LinesOfUnlines(After(ops).taken, After(ops).window);
  }

  /** Two runs over the same bytes, read until dry, take the same lines and leave
      the same incomplete line. */
  lemma ChunkingDoesNotMatter(a: seq<Op>, b: seq<Op>)
    requires Bytes(a) == Bytes(b)
    requires '\n' !in After(a).window && '\n' !in After(b).window
    ensures After(a) == After(b)
  {
    TakenAreFirstLines(a);
    TakenAreFirstLines(b);
    NothingLost(a);
    NothingLost(b);
    DryHasNoLines(After(a).window);
    DryHasNoLines(After(b).window);
    assert After(a).taken == After(a).taken + [] == After(b).taken + [] == After(b).taken;
    var n := |Unlines(After(a).taken)|;
    assert Bytes(a)[n..] == After(a).window && Bytes(b)[n..] == After(b).window;
  }

  lemma DryHasNoLines(w: string)
    requires '\n' !in w
    ensures Lines(w) == []
  {
    assert IndexOf(w, '\n') == |w|;
  }

  // ------------------------------------------------------------------- the buffer

  /** A history of operations after which the window is `window`, the lines `taken` have
      been read and the bytes `given` appended; only unfolded on demand. */
  ghost predicate Follows(ops: seq<Op>, window: string, taken: seq<string>, given: string)
  {
    forall k: nat {:trigger Whole(ops, k)} :: k == |ops| ==>
      After(Whole(ops, k)) == Feed(window, taken) && Bytes(Whole(ops, k)) == given
  }

  lemma FollowsMeans(ops: seq<Op>, window: string, taken: seq<string>, given: string)
    ensures Follows(ops, window, taken, given) <==> After(ops) == Feed(window, taken) && Bytes(ops) == given
  {
    assert Whole(ops, |ops|) == ops;
  }

  lemma FollowsGive(ops: seq<Op>, window: string, taken: seq<string>, given: string, c: string)
    requires Follows(ops, window, taken, given)
    ensures Follows(ops + [Give(c)], window + c, taken, given + c)
  {
    FollowsMeans(ops, window, taken, given);
    assert (ops + [Give(c)])[..|ops|] == ops;
    FollowsMeans(ops + [Give(c)], window + c, taken, given + c);
  }

  lemma FollowsTake(ops: seq<Op>, window: string, taken: seq<string>, given: string)
    requires Follows(ops, window, taken, given)
    ensures var f := TakeLine(Feed(window, taken)); Follows(ops + [Take], f.window, f.taken, given)
  {
    var f := TakeLine(Feed(window, taken));
    FollowsMeans(ops, window, taken, given);
    assert (ops + [Take])[..|ops|] == ops && given + [] == given;
    FollowsMeans(ops + [Take], f.window, f.taken, given);
  }

  /** How an append of `n` bytes rearranges the allocation: its new size, and the new
      offset of the window. */
  function Rearranged(preserveHead: bool, alloc: nat, offset: nat, len: nat, n: nat): (nat, nat)
  {
    var tail := offset + len + n <= alloc;
    if len + n > alloc || (preserveHead && !tail) then (len + n, if preserveHead then offset else 0)
    else (alloc, if tail || preserveHead then offset else 0)
  }

  /** An append stays inside the allocation unless the head is to be preserved, part
      of it has been consumed, and the tail has no room. */
  lemma AppendFits(preserveHead: bool, alloc: nat, offset: nat, len: nat, n: nat)
    requires offset + len <= alloc && n > 0
    ensures var (alloc', offset') := Rearranged(preserveHead, alloc, offset, len, n);
            offset' + len + n <= alloc' <==> !(preserveHead && offset > 0 && offset + len + n > alloc)
  {
  }

  /** Four bytes read of eight that are to be preserved, and one more: the allocation is
      even cut to five bytes, and the byte goes to the ninth place. */
  lemma AppendOverflows()
    ensures Rearranged(true, 8, 4, 4, 1) == (5, 4)
    ensures 4 + 4 + 1 > Rearranged(true, 8, 4, 4, 1).0
  {
  }

  class Buffer {
    const preserveHead: bool
    var data: array<char>
    var offset: nat
    var len: nat
    var maxLen: nat
    ghost var given: string
    ghost var consumed: nat
    ghost var ops: seq<Op>
    ghost var taken: seq<string>

    ghost function Window(): string
      reads this`data, this`offset, this`len, data
      requires offset + len <= data.Length
    {
      data[offset..offset + len]
    }

    /** The window is what was given and not yet consumed. */
    ghost predicate Valid()
      reads this`data, this`offset, this`len, this`given, this`consumed, data
    {
      offset + len <= data.Length && consumed <= |given| && Window() == given[consumed..]
    }

    /** The allocation starts with everything given. */
    ghost predicate HeadIntact()
      reads this`data, this`offset, this`maxLen, this`given, this`consumed, data
    {
      preserveHead && offset == consumed && maxLen == |given| <= data.Length && data[..maxLen] == given
    }

    /** The window and the lines taken are those of the operations so far. */
    ghost predicate Following()
      reads this`data, this`offset, this`len, this`given, this`ops, this`taken, data
    {
      offset + len <= data.Length && Follows(ops, Window(), taken, given)
    }

    constructor (size: nat, keepHead: bool)
      ensures Valid() && fresh(data) && preserveHead == keepHead && (keepHead ==> HeadIntact())
      ensures Following() && given == [] && consumed == 0 && ops == [] && taken == []
    {
      preserveHead := keepHead;
      data := new char[size];
      offset, len, maxLen := 0, 0, 0;
      given, consumed, ops, taken := [], 0, [], [];
      new;
      FollowsMeans(ops, Window(), taken, given);
    }

    method ShiftToBeginning() returns (rc: int)
      requires Valid()
      modifies data, this`offset
      ensures Valid() && Window() == old(Window())
      ensures rc == if preserveHead then -1 else 1
      ensures offset == if preserveHead then old(offset) else 0
      ensures preserveHead ==> data[..] == old(data[..])
    {
      if preserveHead {
        return -1;
      }
      if offset > 0 {
        ghost var w := Window();
        forall k | 0 <= k < len {
          data[k] := data[offset + k];
        }
        offset := 0;
        assert Window() == w;
      }
      return 1;
    }

    /** Reallocates to `size` bytes, keeping the contents that fit. */
    method Resize(size: nat)
      modifies this`data
      ensures fresh(data) && data.Length == size
      ensures forall k :: 0 <= k < size && k < old(data.Length) ==> data[k] == old(data[k])
    {
      var resized := new char[size];
      forall k | 0 <= k < size && k < data.Length {
        resized[k] := data[k];
      }
      data := resized;
    }

    /** Rearranges the allocation for `n` more bytes after the window. */
    method MakeRoom(n: nat) returns (fits: bool)
      requires Valid() && n > 0
      modifies this`data, this`offset, data
      ensures data == old(data) || fresh(data)
      ensures (data.Length, offset) == Rearranged(preserveHead, old(data.Length), old(offset), len, n)
      ensures fits <==> offset + len + n <= data.Length
      ensures fits ==> Valid() && Window() == old(Window())
      ensures fits && preserveHead ==> data[..old(data.Length)] == old(data[..])
    {
      var newSize := len + n;
      if newSize > data.Length || (preserveHead && n > data.Length - (offset + len)) {
        var _ := ShiftToBeginning();
        ghost var was := data[..];
        Resize(newSize);
        if offset + len <= data.Length {
          SameStretch(was, data[..], offset, offset + len);
        }
      } else if n > data.Length - (offset + len) {
        var _ := ShiftToBeginning();
      }
      fits := offset + len + n <= data.Length;
    }

    /** Adds bytes to the window if the original stays inside its allocation; nothing is
        said of what happens otherwise. */
    method Append(src: string) returns (rc: int, inside: bool)
      requires Valid()
      modifies this, data
      ensures inside <==> !old(src != [] && preserveHead && offset > 0 && offset + len + |src| > data.Length)
      ensures inside ==> Valid() && (data == old(data) || fresh(data))
      ensures inside ==> rc == if src == [] then 0 else 1
      ensures inside ==> given == old(given) + src && consumed == old(consumed)
      ensures inside && old(Following()) ==> Following()
      ensures inside ==> taken == old(taken) && ops == old(ops) + if src == [] then [] else [Give(src)]
      ensures inside && old(HeadIntact()) && old(offset) == 0 ==> HeadIntact() && offset == 0
    {
      if src == [] {
        return 0, true;
      }
      AppendFits(preserveHead, data.Length, offset, len, |src|);
      ghost var filling := HeadIntact() && offset == 0;
      assert filling ==> consumed == 0 && maxLen == len;
      inside := Extend(src);
      rc := 1;
      if inside {
        maxLen := if maxLen >= len then maxLen else len;
        if filling {
          FilledHead();
        }
      }
    }

    lemma FilledHead()
      requires Valid() && preserveHead && offset == 0 && consumed == 0 && maxLen == len
      ensures HeadIntact()
    {
      assert given[0..] == given;
    }

    method Extend(src: string) returns (inside: bool)
      requires Valid() && src != []
      modifies this`data, this`offset, this`len, this`given, this`ops, data
      ensures var (alloc, at) := Rearranged(preserveHead, old(data.Length), old(offset), old(len), |src|);
              inside <==> at + old(len) + |src| <= alloc
      ensures inside ==> Valid() && (data == old(data) || fresh(data))
      ensures inside ==> given == old(given) + src && len == old(len) + |src|
      ensures inside && old(Following()) ==> Following()
      ensures inside ==> ops == old(ops) + [Give(src)]
      ensures inside && preserveHead ==> offset == old(offset)
    {
      inside := MakeRoom(|src|);
      if inside {
        Add(src);
      }
    }

    method Add(src: string)
      requires Valid() && offset + len + |src| <= data.Length
      modifies this`len, this`given, this`ops, data
      ensures Valid() && given == old(given) + src && len == old(len) + |src|
      ensures ops == old(ops) + [Give(src)] && (old(Following()) ==> Following())
    {
      if Following() {
        FollowsGive(ops, Window(), taken, given, src);
      }
      Copy(src);
      DropThenAdd(given, src, consumed);
      given, ops := given + src, ops + [Give(src)];
      len := len + |src|;
    }

    method Copy(src: string)
      requires offset + len + |src| <= data.Length
      modifies data
      ensures data[..offset + len] == old(data[..offset + len])
      ensures data[offset + len..offset + len + |src|] == src
      ensures data[offset..offset + len + |src|] == old(Window()) + src
    {
      var at := offset + len;
      forall k | 0 <= k < |src| {
        data[at + k] := src[k];
      }
    }

    /** Moves the front of the window; no further than its end. */
    method Advance(n: nat) returns (rc: int)
      requires Valid()
      modifies this`offset, this`len, this`consumed
      ensures Valid() && given == old(given)
      ensures rc == if n <= old(len) then 1 else -1
      ensures consumed == old(consumed) + if n <= old(len) then n else old(len)
      ensures Window() == old(Window())[consumed - old(consumed)..]
      ensures old(HeadIntact()) ==> HeadIntact()
    {
      var actual := if n <= len then n else len;
      offset := offset + actual;
      len := len - actual;
      consumed := consumed + actual;
      return if n == actual then 1 else -1;
    }

    /** Goes back to the start of the allocation, to everything given if the head is intact. */
    method Reset() returns (rc: int)
      requires Valid()
      modifies this`offset, this`len, this`consumed, this`ops, this`taken
      ensures rc == if preserveHead then 1 else -1
      ensures offset + len <= data.Length && given == old(given)
      ensures preserveHead ==> Window() == data[..if data.Length <= maxLen then data.Length else maxLen]
      ensures old(HeadIntact()) ==>
                && Valid() && HeadIntact() && consumed == 0 && Window() == given
                && Following() && ops == [Give(given)] && taken == []
      ensures !preserveHead ==> Valid() && Window() == old(Window()) && ops == old(ops) && taken == old(taken)
    {
      if !preserveHead {
        return -1;
      }
      offset := 0;
      len := if data.Length <= maxLen then data.Length else maxLen;
      consumed := 0;
      ops, taken := [Give(given)], [];
      assert [Give(given)][..0] == [] && [] + given == given;
      FollowsMeans(ops, given, taken, given);
      return 1;
    }

    /** The position of the first newline in the window, or its length. */
    method FindNewline() returns (k: nat)
      requires Valid()
      ensures k == IndexOf(Window(), '\n') && ('\n' in Window() <==> k < len)
    {
      k := 0;
      while k < len && data[offset + k] != '\n'
        invariant 0 <= k <= len
        invariant forall j :: 0 <= j < k ==> Window()[j] != '\n'
      {
        k := k + 1;
      }
      FirstNewline(Window(), k);
    }

    /** Takes the next complete line out of the window. */
    method ReadLine() returns (rc: int, line: string)
      requires Valid()
      modifies this`offset, this`len, this`consumed, this`ops, this`taken
      ensures Valid() && given == old(given)
      ensures rc == if old(len) == 0 then -2 else if '\n' in old(Window()) then 1 else 0
      ensures Feed(Window(), taken) == TakeLine(Feed(old(Window()), old(taken)))
      ensures taken == old(taken) + if rc == 1 then [line] else []
      ensures if rc == 1 then len < old(len) else '\n' !in Window()
      ensures ops == old(ops) + [Take] && (old(Following()) ==> Following())
    {
      if Following() {
        FollowsTake(ops, Window(), taken, given);
      }
      ghost var w := Window();
      rc, line := NextLine();
      TakesAs(w, taken, rc == 1, line, Window());
      taken := taken + if rc == 1 then [line] else [];
      ops := ops + [Take];
    }

    method NextLine() returns (rc: int, line: string)
      requires Valid()
      modifies this`offset, this`len, this`consumed
      ensures Valid() && rc == if old(len) == 0 then -2 else if '\n' in old(Window()) then 1 else 0
      ensures var k := IndexOf(old(Window()), '\n');
              if rc == 1 then k < old(len) && line == old(Window())[..k] && Window() == old(Window())[k + 1..]
              else k == old(len) && Window() == old(Window())
      ensures if rc == 1 then len < old(len) else '\n' !in Window()
    {
      line := "";
      if len == 0 {
        return -2, line;
      }
      var k := FindNewline();
      if k < len {
        line := data[offset..offset + k];
        assert line == Window()[..k];
        var _ := Advance(k + 1);
        return 1, line;
      } else {
        return 0, line;
      }
    }

    /** The lines taken from a buffer are the first lines of the bytes appended to it, for any
        mix of appends and line reads. */
    lemma TakesFirstLines()
      requires Following()
      ensures Lines(given) == taken + Lines(Window())
    {
      FollowsMeans(ops, Window(), taken, given);
      TakenAreFirstLines(ops);
    }
  }

  /** Two buffers given the same bytes, in any chunks and with any line reads in between, have
      delivered the same lines and keep the same rest once neither has a line left. */
  lemma BuffersAgree(a: Buffer, b: Buffer)
    requires a.Following() && b.Following() && a.given == b.given
    requires '\n' !in a.Window() && '\n' !in b.Window()
    ensures a.taken == b.taken && a.Window() == b.Window()
  {
    FollowsMeans(a.ops, a.Window(), a.taken, a.given);
    FollowsMeans(b.ops, b.Window(), b.taken, b.given);
    ChunkingDoesNotMatter(a.ops, b.ops);
  }

  lemma SameStretch(a: string, b: string, i: nat, j: nat)
    requires i <= j <= |a| && j <= |b| && forall k :: i <= k < j ==> a[k] == b[k]
    ensures a[i..j] == b[i..j]
  {
  }

  lemma TakesAs(w: string, taken: seq<string>, found: bool, line: string, rest: string)
    requires var k := IndexOf(w, '\n');
             if found then k < |w| && line == w[..k] && rest == w[k + 1..] else k == |w| && rest == w
    ensures Feed(rest, taken + if found then [line] else []) == TakeLine(Feed(w, taken))
  {
    assert taken + [] == taken;
  }

  lemma FirstNewline(w: string, k: nat)
    requires k <= |w| && (forall j :: 0 <= j < k ==> w[j] != '\n') && (k < |w| ==> w[k] == '\n')
    ensures IndexOf(w, '\n') == k && ('\n' in w <==> k < |w|)
  {
    if k < |w| {
      IndexOfFirst(w[..k], '\n', w[k + 1..]);
      AroundIndex(w, k);
    }
  }

  lemma DropThenAdd(a: string, b: string, n: nat)
    requires n <= |a|
    ensures (a + b)[n..] == a[n..] + b
  {
  }
}
