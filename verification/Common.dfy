/** Small types and facts shared by the component models. */
module Common {

  datatype Option<+T> = None | Some(value: T)

  /** The first position of `d`, or the length of the sequence. */
  function IndexOf<T(==)>(s: seq<T>, d: T): (i: nat)
    ensures i <= |s| && d !in s[..i]
    ensures d in s <==> i < |s|
    ensures i < |s| ==> s[i] == d
  {
    if s == [] || s[0] == d then 0
    else
      var i := 1 + IndexOf(s[1..], d);
      assert s[..i] == [s[0]] + s[1..][..i - 1];
      i
  }

  lemma {:induction false} IndexOfFirst<T>(a: seq<T>, d: T, b: seq<T>)
    requires d !in a
    ensures IndexOf(a + [d] + b, d) == |a|
  {
    if a != [] {
      assert (a + [d] + b)[1..] == a[1..] + [d] + b;
      IndexOfFirst(a[1..], d, b);
    }
  }

  /** All of `s`, under a name: what is stated of `Whole(s, k)` for every `k` that is the
      length of `s` stays folded until that term is written. */
  function Whole<T>(s: seq<T>, k: nat): seq<T>
  {
    if k == |s| then s else []
  }

  lemma AroundIndex<T>(s: seq<T>, k: nat)
    requires k < |s|
    ensures s == s[..k] + [s[k]] + s[k + 1..]
  {
  }

  lemma FirstAndRest<T>(s: seq<T>, x: T)
    requires s != [] && x !in s
    ensures s == [s[0]] + s[1..] && s[0] != x && x !in s[1..]
  {
  }

  lemma Snoc<T>(a: seq<T>, b: seq<T>)
    requires b != []
    ensures a + b[..|b| - 1] + [b[|b| - 1]] == a + b
  {
  }

  lemma Associate<T>(a: seq<T>, b: seq<T>, c: seq<T>)
    ensures a + (b + c) == a + b + c
  {
  }

  // ------------------------------------------------------------------------ numbers

  function DigitChar(d: nat): char
    requires d < 10
  {
    ('0' as int + d) as char
  }

  function Decimal(n: nat): string
  {
    if n < 10 then [DigitChar(n)] else Decimal(n / 10) + [DigitChar(n % 10)]
  }

  predicate Digits(s: string)
  {
    forall k :: 0 <= k < |s| ==> '0' <= s[k] <= '9'
  }

  /** The number that decimal digits stand for. */
  function ValueOf(s: string): nat
    requires Digits(s)
  {
    if s == [] then 0 else 10 * ValueOf(s[..|s| - 1]) + (s[|s| - 1] as int - '0' as int)
  }

  /** `s` is `n` in decimal digits, without a leading zero. */
  predicate Prints(s: string, n: nat)
  {
    s != [] && Digits(s) && ValueOf(s) == n && (n > 0 ==> s[0] != '0')
  }

  lemma OneDigit(d: nat)
    requires d < 10
    ensures Prints([DigitChar(d)], d)
  {
    assert [DigitChar(d)][..0] == [];
  }

  lemma OneMoreDigit(s: string, m: nat, d: nat, t: string, n: nat)
    requires Prints(s, m) && m > 0 && d < 10 && t == s + [DigitChar(d)] && n == 10 * m + d
    ensures Prints(t, n)
  {
    assert t[..|t| - 1] == s;
  }

  lemma {:induction false} DecimalIs(n: nat)
    ensures Prints(Decimal(n), n)
  {
    if n < 10 {
      OneDigit(n);
    } else {
      DecimalIs(n / 10);
      OneMoreDigit(Decimal(n / 10), n / 10, n % 10, Decimal(n), n);
    }
  }
}
