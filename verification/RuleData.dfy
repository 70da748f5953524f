/** The rule sent to the kernel: an array of fields with numeric values, and one buffer
    with the strings of the string fields packed one after the other. The builder stores
    only lengths; whoever lists rules finds the strings again by adding lengths up. */
module RuleData {
  import opened Common
  import opened Splitting

  const MAX_FIELDS := 64
  const MAX_KEY_LEN := 256
  const PATH_MAX := 4096

  const SUBJ_USER := 13
  const SUBJ_CLR := 17
  const PPID := 18
  const OBJ_USER := 19
  const OBJ_LEV_HIGH := 23
  const WATCH := 105
  const PERM := 106
  const DIR := 107
  const EXE := 112
  const FILTERKEY := 210

  const ALL_PERMS := 15

  /** The fields the builder treats as objects or watches, allowed in exit rules only. */
  predicate ExitOnly(field: int)
  {
    OBJ_USER <= field <= OBJ_LEV_HIGH || field == WATCH || field == DIR
  }

  /** The fields whose value the builder appends to the buffer. */
  predicate IsString(field: int): (r: bool)
    ensures r <==> (13 <= field <= 23 && field != 18) || field == 105 || field == 107 || field == 112 || field == 210
  {
    ExitOnly(field) || SUBJ_USER <= field <= SUBJ_CLR || field == FILTERKEY || field == EXE
  }

  /** The fields for which a reader moves on in the buffer. */
  predicate Advances(field: int)
  {
    || (SUBJ_USER <= field <= OBJ_LEV_HIGH && field != PPID)
    || field == WATCH || field == DIR || field == FILTERKEY || field == EXE
  }

  // -------------------------------------------------------------- what was added

  /** A field as its author gave it. */
  datatype Entry = Str(field: int, text: seq<Byte>) | Num(field: int, number: int)

  predicate WellFormed(e: Entry)
  {
    e.Str? <==> IsString(e.field)
  }

  function Stored(e: Entry): int
  {
    match e
    case Str(_, text) => |text|
    case Num(_, number) => number
  }

  function TextOf(e: Entry): seq<Byte>
  {
    match e
    case Str(_, text) => text
    case Num(_, _) => []
  }

  /** The buffer that belongs to the entries. */
  function Pool(es: seq<Entry>): seq<Byte>
  {
    if es == [] then [] else Pool(es[..|es| - 1]) + TextOf(es[|es| - 1])
  }

  function Each(field: int, parts: seq<seq<Byte>>): (r: seq<(int, seq<Byte>)>)
    ensures |r| == |parts| && forall i :: 0 <= i < |parts| ==> r[i] == (field, parts[i])
  {
    if parts == [] then [] else [(field, parts[0])] + Each(field, parts[1..])
  }

  /** What a listing shows for a string field: its text, or each part of a combined key. */
  function Listing(field: int, text: seq<Byte>): seq<(int, seq<Byte>)>
  {
    if field == FILTERKEY then Each(field, Pieces(text, KEY_SEPARATOR)) else [(field, text)]
  }

  /** What a listing shows for the string fields, in order. */
  function Texts(es: seq<Entry>): seq<(int, seq<Byte>)>
  {
    if es == [] then []
    else Texts(es[..|es| - 1]) + TextsOf(es[|es| - 1])
  }

  function TextsOf(e: Entry): seq<(int, seq<Byte>)>
  {
    if e.Str? then Listing(e.field, e.text) else []
  }

  /** Listings follow the order of the entries. A text is listed as it is, but a key part by
      part; a number is not. */
  lemma {:induction false} TextsOfSum(es: seq<Entry>, fs: seq<Entry>)
    ensures Texts(es + fs) == Texts(es) + Texts(fs)
  {
    if fs == [] {
      assert es + fs == es && Texts(es) + [] == Texts(es);
    } else {
      var init, last := fs[..|fs| - 1], fs[|fs| - 1];
      TextsOfSum(es, init);
      Snoc(es, fs);
      TextsOneMore(es + init, last);
      Associate(Texts(es), Texts(init), TextsOf(last));
    }
  }

  lemma TextsOneMore(es: seq<Entry>, e: Entry)
    ensures Texts(es + [e]) == Texts(es) + TextsOf(e)
  {
    assert (es + [e])[..|es|] == es;
  }

  lemma TextsOfOne(e: Entry)
    ensures e.Num? ==> Texts([e]) == []
    ensures e.Str? && (e.field != 210 || (e.text != [] && 0x01 as char !in e.text)) ==>
              Texts([e]) == [(e.field, e.text)]
  {
    assert [e][..0] == [];
    if e.Str? && e.text != [] && KEY_SEPARATOR !in e.text {
      PieceOfPlain(e.text, KEY_SEPARATOR);
    }
  }

  /** `r` are the texts of the first `i` entries. */
  ghost predicate Listed(es: seq<Entry>, i: nat, r: seq<(int, seq<Byte>)>)
  {
    forall k {:trigger es[..k]} :: k == i <= |es| ==> Texts(es[..k]) == r
  }

  lemma ListedEnds(es: seq<Entry>, r: seq<(int, seq<Byte>)>)
    ensures Listed(es, 0, [])
    ensures Listed(es, |es|, r) ==> r == Texts(es)
  {
    assert es[..|es|] == es;
  }

  lemma ListedText(es: seq<Entry>, i: nat, r: seq<(int, seq<Byte>)>, field: int, text: seq<Byte>)
    requires i < |es| && Listed(es, i, r) && es[i] == Str(field, text)
    ensures Listed(es, i + 1, r + Listing(field, text))
  {
    assert es[..i + 1][..i] == es[..i];
  }

  lemma ListedNumber(es: seq<Entry>, i: nat, r: seq<(int, seq<Byte>)>)
    requires i < |es| && Listed(es, i, r) && es[i].Num?
    ensures Listed(es, i + 1, r)
  {
    assert es[..i + 1][..i] == es[..i] && r + [] == r;
  }

  /** A text stands in the buffer where the texts before it end, whatever follows. */
  lemma {:induction false} TextInPool(es: seq<Entry>, i: nat)
    requires i < |es|
    ensures Pool(es[..i]) + TextOf(es[i]) <= Pool(es)
  {
    var init := es[..|es| - 1];
    if i < |init| {
      TextInPool(init, i);
      assert init[..i] == es[..i];
    }
  }

  /** `buf` is the buffer of the entries, in a form that is only unfolded on demand. */
  ghost predicate PoolIs(es: seq<Entry>, buf: seq<Byte>)
  {
    forall k: nat {:trigger Whole(es, k)} :: k == |es| ==> Pool(Whole(es, k)) == buf
  }

  lemma PoolIsMeans(es: seq<Entry>, buf: seq<Byte>)
    ensures PoolIs(es, buf) <==> Pool(es) == buf
  {
    assert Whole(es, |es|) == es;
  }

  lemma PoolOfMore(es: seq<Entry>, buf: seq<Byte>, e: Entry)
    requires PoolIs(es, buf)
    ensures PoolIs(es + [e], buf + TextOf(e))
  {
    PoolIsMeans(es, buf);
    assert (es + [e])[..|es|] == es;
    PoolIsMeans(es + [e], buf + TextOf(e));
  }

  /** Changing numbers does not move any text. */
  lemma {:induction false} NumbersDoNotMatter(es: seq<Entry>, fs: seq<Entry>)
    requires |es| == |fs|
    requires forall i :: 0 <= i < |es| ==> es[i] == fs[i] || (es[i].Num? && fs[i].Num?)
    ensures Pool(es) == Pool(fs) && Texts(es) == Texts(fs)
  {
    if es != [] {
      NumbersDoNotMatter(es[..|es| - 1], fs[..|fs| - 1]);
    }
  }

  function WithPerms(es: seq<Entry>, perms: int): (r: seq<Entry>)
    ensures |r| == |es|
    ensures forall i :: 0 <= i < |es| ==> r[i] == if es[i].field == 106 then Num(106, perms) else es[i]
  {
    seq(|es|, i requires 0 <= i < |es| => if es[i].field == PERM then Num(PERM, perms) else es[i])
  }

  lemma PermsKeepPool(es: seq<Entry>, perms: int, buf: seq<Byte>)
    requires PoolIs(es, buf) && forall i :: 0 <= i < |es| ==> WellFormed(es[i])
    ensures PoolIs(WithPerms(es, perms), buf)
  {
    PoolIsMeans(es, buf);
    NumbersDoNotMatter(es, WithPerms(es, perms));
    PoolIsMeans(WithPerms(es, perms), buf);
  }

  /** The texts before entry `i` end at `at`. */
  ghost predicate Reached(es: seq<Entry>, i: nat, at: nat)
  {
    forall k {:trigger es[..k]} :: k == i <= |es| ==> |Pool(es[..k])| == at
  }

  lemma ReachedMeans(es: seq<Entry>, i: nat, at: nat)
    requires i <= |es|
    ensures Reached(es, i, at) <==> |Pool(es[..i])| == at
  {
    assert es[..i] <= es;
  }

  lemma ReachedStart(es: seq<Entry>)
    ensures Reached(es, 0, 0)
  {
  }

  lemma ReachedNext(es: seq<Entry>, i: nat, at: nat)
    requires i < |es| && Reached(es, i, at)
    ensures Reached(es, i + 1, at + |TextOf(es[i])|)
  {
    ReachedMeans(es, i, at);
    assert es[..i + 1][..i] == es[..i];
    ReachedMeans(es, i + 1, at + |TextOf(es[i])|);
  }

  lemma ReachedText(es: seq<Entry>, buf: seq<Byte>, i: nat, at: nat)
    requires i < |es| && PoolIs(es, buf) && Reached(es, i, at)
    ensures at + |TextOf(es[i])| <= |buf| && buf[at..at + |TextOf(es[i])|] == TextOf(es[i])
  {
    PoolIsMeans(es, buf);
    TextInPool(es, i);
    ReachedMeans(es, i, at);
  }

  /** Adding up lengths leads a reader to each text: the reader moves exactly for the
      fields the builder stored. */
  lemma ReaderStep(es: seq<Entry>, buf: seq<Byte>, i: nat, at: nat)
    requires i < |es| && WellFormed(es[i]) && PoolIs(es, buf) && Reached(es, i, at)
    ensures Advances(es[i].field) == es[i].Str?
    ensures es[i].Str? ==> at + |es[i].text| <= |buf| && buf[at..at + |es[i].text|] == es[i].text
    ensures Reached(es, i + 1, at + |TextOf(es[i])|)
  {
    ReachedText(es, buf, i, at);
    ReachedNext(es, i, at);
  }

  predicate HasKey(e: Entry, key: seq<Byte>)
  {
    e.field == FILTERKEY && Contains(TextOf(e), key)
  }

  /** Is the entry a key with `key` at place `k` of its text? */
  predicate KeyAt(e: Entry, k: nat, key: seq<Byte>)
  {
    e.field == 210 && e.Str? && Occurs(e.text, k, key)
  }

  lemma KeyIsAt(e: Entry, key: seq<Byte>)
    requires WellFormed(e)
    ensures HasKey(e, key) <==> exists k: nat :: KeyAt(e, k, key)
  {
    ContainsIff(TextOf(e), key);
    if HasKey(e, key) {
      var k: nat :| Occurs(TextOf(e), k, key);
      assert KeyAt(e, k, key);
    }
  }

  predicate Contains(s: seq<Byte>, key: seq<Byte>)
  {
    key <= s || (s != [] && Contains(s[1..], key))
  }

  lemma {:induction false} ContainsIff(s: seq<Byte>, key: seq<Byte>)
    ensures Contains(s, key) <==> exists k: nat :: Occurs(s, k, key)
  {
    if key <= s {
      assert Occurs(s, 0, key);
    } else if s != [] {
      ContainsIff(s[1..], key);
      forall k: nat
        ensures Occurs(s, k, key) <==> k > 0 && Occurs(s[1..], k - 1, key)
      {
        OccursLater(s, k, key);
      }
      if k: nat :| Occurs(s[1..], k, key) {
        assert Occurs(s, k + 1, key);
      }
    }
  }

  /** Does `key` stand at place `k` of the text? */
  predicate Occurs(s: seq<Byte>, k: nat, key: seq<Byte>)
  {
    k + |key| <= |s| && s[k..k + |key|] == key
  }

  lemma OccursLater(s: seq<Byte>, k: nat, key: seq<Byte>)
    requires s != [] && !(key <= s)
    ensures Occurs(s, k, key) <==> k > 0 && Occurs(s[1..], k - 1, key)
  {
    if k + |key| <= |s| {
      if k == 0 {
        assert s[0..|key|] == s[..|key|];
      } else {
        assert s[k..k + |key|] == s[1..][k - 1..k - 1 + |key|];
      }
    }
  }

  // ------------------------------------------------------------------- the rule

  datatype Filter = Exit | Exclude | FileSystem | OtherFilter

  /** What the running kernel supports. */
  datatype Features = Features(excludeExtend: bool, filterFs: bool, executablePath: bool)

  datatype Status = Done | TooMany | NoValue | NotWithExclude | ExitOnlyField | Unsupported | BadOperator
                  | KeyDependency | TooLong | BadNumber | NotEmpty | BadType | NoFields

  /** Does the filter take string fields of this kind at all? */
  function FilterStatus(field: int, filter: Filter, kernel: Features): Status
  {
    match filter
    case Exclude =>
      if !kernel.excludeExtend then Unsupported
      else if SUBJ_USER <= field <= SUBJ_CLR || field == EXE then Done
      else NotWithExclude
    case FileSystem => if kernel.filterFs then Done else Unsupported
    case _ => Done
  }

  class Rule {
    var fieldCount: nat
    const fields: array<int>
    const values: array<int>
    var buf: array<Byte>
    var syscallAdded: bool
    var permAdded: bool
    var exeAdded: bool
    var filterFsAdded: bool
    ghost var entries: seq<Entry>

    ghost predicate Valid()
      reads this, fields, values, buf
    {
      && fields.Length == values.Length == MAX_FIELDS && fields != values
      && fieldCount == |entries| < MAX_FIELDS
      && (forall i :: 0 <= i < |entries| ==> WellFormed(entries[i]))
      && (forall i :: 0 <= i < |entries| ==> fields[i] == entries[i].field)
      && (forall i :: 0 <= i < |entries| ==> values[i] == Stored(entries[i]))
      && PoolIs(entries, buf[..])
    }

    constructor ()
      ensures Valid() && entries == []
    {
      fieldCount := 0;
      fields := new int[MAX_FIELDS](_ => 0);
      values := new int[MAX_FIELDS](_ => 0);
      buf := new Byte[0];
      syscallAdded, permAdded, exeAdded, filterFsAdded := false, false, false, false;
      entries := [];
      new;
      PoolIsMeans([], buf[..]);
    }

    /** Grows the buffer and copies the text to its end. */
    method AppendText(text: seq<Byte>)
      modifies this`buf
      ensures buf[..] == old(buf[..]) + text && fresh(buf)
    {
      var offset := buf.Length;
      var bigger := new Byte[offset + |text|](i requires 0 <= i < offset + |text| reads this, buf =>
        if i < buf.Length then buf[i] else ' ');
      forall i | 0 <= i < |text| {
        bigger[offset + i] := text[i];
      }
      assert bigger[..] == buf[..] + text;
      buf := bigger;
    }

    /** May a string field be added, and if not, why? */
    function StringStatus(field: int, text: seq<Byte>, filter: Filter, kernel: Features, equality: bool): Status
      reads this
    {
      if fieldCount >= MAX_FIELDS - 1 then TooMany
      else if text == [] then NoValue
      else if FilterStatus(field, filter, kernel) != Done then FilterStatus(field, filter, kernel)
      else if ExitOnly(field) && filter != Exit then ExitOnlyField
      else if field == EXE && !kernel.executablePath then Unsupported
      else if field == EXE && !equality then BadOperator
      else if field == FILTERKEY && !(syscallAdded || permAdded || exeAdded || filterFsAdded) then KeyDependency
      else if |text| > (if field == FILTERKEY then MAX_KEY_LEN else PATH_MAX) then TooLong
      else Done
    }

    /** The checks on a string field, noting what later keys may depend on. */
    method CheckString(field: int, text: seq<Byte>, filter: Filter, kernel: Features, equality: bool)
      returns (r: Status)
      requires fieldCount < MAX_FIELDS - 1 && text != [] && FilterStatus(field, filter, kernel) == Done
      modifies this`permAdded, this`exeAdded
      ensures r == old(StringStatus(field, text, filter, kernel, equality))
      ensures permAdded == (old(permAdded) || (filter == Exit && (field == WATCH || field == DIR)))
      ensures exeAdded == (old(exeAdded) || (field == EXE && kernel.executablePath && equality))
    {
      if ExitOnly(field) {
        if filter != Exit {
          return ExitOnlyField;
        }
        if field == WATCH || field == DIR {
          permAdded := true;
        }
      }
      if field == EXE {
        if !kernel.executablePath {
          return Unsupported;
        }
        if !equality {
          return BadOperator;
        }
        exeAdded := true;
      }
      if field == FILTERKEY && !(syscallAdded || permAdded || exeAdded || filterFsAdded) {
        return KeyDependency;
      }
      if field == FILTERKEY && |text| > MAX_KEY_LEN {
        return TooLong;
      } else if |text| > PATH_MAX {
        return TooLong;
      }
      return Done;
    }

    /** Stores a field and its number in the next entry. */
    method Push(e: Entry)
      requires Valid() && fieldCount < MAX_FIELDS - 1 && WellFormed(e)
      modifies this`fieldCount, this`entries, this`buf, fields, values
      ensures Valid() && entries == old(entries) + [e] && fieldCount == old(fieldCount) + 1
    {
      fields[fieldCount] := e.field;
      values[fieldCount] := Stored(e);
      PoolOfMore(entries, buf[..], e);
      if e.Str? {
        AppendText(e.text);
      } else {
        assert buf[..] + [] == buf[..];
      }
      entries := entries + [e];
      fieldCount := fieldCount + 1;
    }

    /** Adds a string field, or leaves the fields as they are. */
    method AddString(field: int, text: seq<Byte>, filter: Filter, kernel: Features, equality: bool)
      returns (r: Status)
      requires Valid() && IsString(field)
      modifies this, fields, values
      ensures Valid() && r == old(StringStatus(field, text, filter, kernel, equality))
      ensures entries == if r == Done then old(entries) + [Str(field, text)] else old(entries)
      ensures r == Done <==>
              && |old(entries)| < 63 && 0 < |text| <= (if field == 210 then 256 else 4096)
              && (filter == Exclude ==> kernel.excludeExtend && (13 <= field <= 17 || field == 112))
              && (filter == FileSystem ==> kernel.filterFs)
              && (19 <= field <= 23 || field == 105 || field == 107 ==> filter == Exit)
              && (field == 112 ==> kernel.executablePath && equality)
              && (field == 210 ==> old(syscallAdded || permAdded || exeAdded || filterFsAdded))
      ensures r == Done ==> permAdded == (old(permAdded) || field == 105 || field == 107)
      ensures r == Done ==> exeAdded == (old(exeAdded) || field == 112)
      ensures syscallAdded == old(syscallAdded) && filterFsAdded == old(filterFsAdded)
    {
      if fieldCount >= MAX_FIELDS - 1 {
        return TooMany;
      }
      if text == [] {
        return NoValue;
      }
      r := FilterStatus(field, filter, kernel);
      if r != Done {
        return;
      }
      fields[fieldCount] := field;
      r := CheckString(field, text, filter, kernel, equality);
      if r == Done {
        Push(Str(field, text));
      }
    }

    /** Adds a field with a number, or reports that its value was not one. */
    method AddNumber(field: int, number: Option<int>) returns (r: Status)
      requires Valid() && !IsString(field)
      modifies this, fields, values
      ensures Valid()
      ensures r == if old(fieldCount) >= MAX_FIELDS - 1 then TooMany else if number.None? then BadNumber else Done
      ensures entries == if r == Done then old(entries) + [Num(field, number.value)] else old(entries)
    {
      if fieldCount >= MAX_FIELDS - 1 {
        return TooMany;
      }
      fields[fieldCount] := field;
      if number.None? {
        return BadNumber;
      }
      Push(Num(field, number.value));
      return Done;
    }

    /** Makes an empty rule watch a path, with all permissions. */
    method AddWatch(kind: int, path: seq<Byte>) returns (r: Status)
      requires Valid()
      modifies this, fields, values
      ensures Valid()
      ensures r == if old(entries) != [] then NotEmpty else if kind != WATCH && kind != DIR then BadType else Done
      ensures entries == if r == Done then [Str(kind, path), Num(106, 15)] else old(entries)
      ensures permAdded == (old(permAdded) || r == Done)
      ensures syscallAdded == old(syscallAdded) && exeAdded == old(exeAdded) && filterFsAdded == old(filterFsAdded)
    {
      if fieldCount > 0 {
        return NotEmpty;
      }
      if kind != WATCH && kind != DIR {
        return BadType;
      }
      Push(Str(kind, path));
      Push(Num(PERM, ALL_PERMS));
      permAdded := true;
      return Done;
    }

    /** Sets the permissions of every permission field, or adds one. */
    method UpdatePerms(perms: int) returns (r: Status)
      requires Valid()
      modifies this, fields, values
      ensures Valid()
      ensures var found := exists i :: 0 <= i < |old(entries)| && old(entries)[i].field == PERM;
              && r == (if old(entries) == [] then NoFields
                       else if !found && old(fieldCount) >= MAX_FIELDS - 1 then TooMany else Done)
              && entries == if r != Done then old(entries)
                            else if found then WithPerms(old(entries), perms)
                            else old(entries) + [Num(PERM, perms)]
    {
      if fieldCount < 1 {
        return NoFields;
      }
      var done := SetPerms(perms);
      if !done {
        if fieldCount >= MAX_FIELDS - 1 {
          return TooMany;
        }
        Push(Num(PERM, perms));
      }
      return Done;
    }

    method SetPerms(perms: int) returns (done: bool)
      requires Valid()
      modifies this`entries, values
      ensures Valid() && entries == WithPerms(old(entries), perms)
      ensures done <==> exists i :: 0 <= i < |old(entries)| && old(entries)[i].field == PERM
      ensures !done ==> entries == old(entries)
    {
      ghost var now := WithPerms(entries, perms);
      done := false;
      for i := 0 to fieldCount
        invariant fieldCount == |entries| && entries == old(entries)
        invariant forall j :: 0 <= j < |entries| ==> fields[j] == entries[j].field
        invariant forall j :: 0 <= j < i ==> values[j] == Stored(now[j])
        invariant forall j :: i <= j < |entries| ==> values[j] == Stored(entries[j])
        invariant done <==> exists j :: 0 <= j < i && entries[j].field == PERM
      {
        if fields[i] == PERM {
          values[i] := perms;
          done := true;
        }
      }
      PermsKeepPool(entries, perms, buf[..]);
      entries := now;
    }

    // ------------------------------------------------------------------- readers

    /** Is there a key field that contains `key`? */
    method KeyMatch(key: seq<Byte>) returns (r: bool)
      requires Valid()
      ensures r <==> key == [] || exists i, k: nat :: 0 <= i < |entries| && KeyAt(entries[i], k, key)
    {
      forall i | 0 <= i < |entries|
        ensures HasKey(entries[i], key) <==> exists k: nat :: KeyAt(entries[i], k, key)
      {
        KeyIsAt(entries[i], key);
      }
      if key == [] {
        return true;
      }
      var boffset: nat := 0;
      ReachedStart(entries);
      for i := 0 to fieldCount
        invariant Reached(entries, i, boffset)
        invariant forall j :: 0 <= j < i ==> !HasKey(entries[j], key)
      {
        ReaderStep(entries, buf[..], i, boffset);
        if fields[i] == FILTERKEY {
          var text := buf[boffset..boffset + values[i]];
          if Contains(text, key) {
            return true;
          }
        }
        if Advances(fields[i]) {
          boffset := boffset + values[i];
        }
      }
      return false;
    }

    /** The texts a listing shows for the string fields. */
    method ListTexts() returns (r: seq<(int, seq<Byte>)>)
      requires Valid()
      ensures r == Texts(entries)
    {
      var boffset: nat := 0;
      ReachedStart(entries);
      r := [];
      ListedEnds(entries, r);
      for i := 0 to fieldCount
        invariant Reached(entries, i, boffset) && Listed(entries, i, r)
      {
        ReaderStep(entries, buf[..], i, boffset);
        if Advances(fields[i]) {
          var text := buf[boffset..boffset + values[i]];
          ListedText(entries, i, r, fields[i], text);
          r := r + Listing(fields[i], text);
          boffset := boffset + values[i];
        } else {
          ListedNumber(entries, i, r);
        }
      }
      ListedEnds(entries, r);
    }
  }
}
