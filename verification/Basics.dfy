/** What several of the components need: bytes, sums, overwritten sequences, and products. */
module Basics {
  datatype Option<T> = None | Some(value: T)

  type Byte = x: int | 0 <= x < 256

  /** The first number that does not fit 32 bits. */
  const WORD_LIMIT: nat := 0x1_0000_0000

  function Min(a: nat, b: nat): nat {
    if a < b then a else b
  }

  function Sum(bytes: seq<Byte>): nat {
    if bytes == [] then 0 else Sum(bytes[..|bytes| - 1]) + bytes[|bytes| - 1]
  }

  lemma {:induction false} SumJoin(a: seq<Byte>, b: seq<Byte>)
    ensures Sum(a + b) == Sum(a) + Sum(b)
  {
    if b == [] {
      assert a + b == a;
    } else {
      SumJoin(a, b[..|b| - 1]);
      assert (a + b)[..|a + b| - 1] == a + b[..|b| - 1];
    }
  }

  lemma SumOne(c: Byte)
    ensures Sum([c]) == c
  {
    assert [c][..0] == [];
  }

  /** `s` with `d` written over it from `at` on. */
  function Splice<T>(s: seq<T>, at: nat, d: seq<T>): (r: seq<T>)
    requires at + |d| <= |s|
    ensures |r| == |s|
  {
    s[..at] + d + s[at + |d|..]
  }

  lemma SpliceTwice<T>(s: seq<T>, at: nat, d: seq<T>, e: seq<T>)
    requires at + |d| + |e| <= |s|
    ensures Splice(Splice(s, at, d), at + |d|, e) == Splice(s, at, d + e)
  {
  }

  lemma SpliceOne<T>(s: seq<T>, at: nat, d: seq<T>, e: seq<T>)
    requires at + |d| < |s| && |e| == |d| + 1 && e[..|d|] == d
    ensures Splice(s, at, e) == Splice(s, at, d)[at + |d| := e[|d|]]
  {
  }

  lemma NothingSpliced<T>(s: seq<T>, at: nat)
    requires at <= |s|
    ensures Splice(s, at, []) == s
  {
  }

  function Times(a: nat, b: nat): (p: nat)
    ensures p == a * b
  {
    a * b
  }

  lemma TimesOrder(a: int, b: int, p: nat)
    requires a <= b
    ensures p * a <= p * b
  {
  }

  lemma TimesLess(a: int, b: int, p: nat)
    requires p * a < p * b
    ensures a < b
  {
    if b <= a {
      TimesOrder(b, a, p);
    }
  }

  /** Quotient and remainder are the only ones. */
  lemma DivIs(x: int, p: nat, q: int, r: nat)
    requires x == p * q + r && r < p
    ensures x / p == q && x % p == r
  {
    var e := x / p;
    assert x == p * e + x % p;
    assert p * (q + 1) == p * q + p && p * (e + 1) == p * e + p;
    TimesLess(q, e + 1, p);
    TimesLess(e, q + 1, p);
  }
}
