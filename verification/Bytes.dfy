/** Byte strings, the currency of the whole library: path names, file handles,
    event strings and kernel buffers are all sequences of bytes. */
module Bytes {

  newtype byte = x: int | 0 <= x < 256

  type bytes = seq<byte>

  type u32 = x: int | 0 <= x < 0x1_0000_0000

  /** A 32-bit word as the set of its one bits: `|` is union, `&` intersection, a set bit
      membership. */
  type Word = set<nat>

  const WORD_BITS: nat := 32

  predicate Has(w: Word, flag: Word) { w * flag != {} }

  function Pow2(i: nat): (r: nat)
    ensures r >= 1
  {
    if i == 0 then 1 else 2 * Pow2(i - 1)
  }

  /** The bits of an unsigned number: its binary digits that are 1, the lowest being number i. */
  function Digits(v: nat, i: nat): Word {
    if v == 0 then {} else (if v % 2 == 1 then {i} else {}) + Digits(v / 2, i + 1)
  }

  function BitsOf(v: u32): Word { Digits(v, 0) }

  lemma {:induction false} DigitsArePowers(v: nat, i: nat, k: nat)
    ensures k in Digits(v, i) <==> k >= i && v / Pow2(k - i) % 2 == 1
    decreases v
  {
    if v > 0 {
      DigitsArePowers(v / 2, i + 1, k);
      if k > i { HalveTwice(v, Pow2(k - i - 1)); }
    } else if k >= i {
      ZeroDivided(Pow2(k - i));
    }
  }

  lemma ZeroDivided(n: nat)
    requires n >= 1
    ensures 0 / n == 0
  {
  }

  lemma Quotient(a: nat, n: nat, q: nat, r: nat)
    requires r < n && a == q * n + r
    ensures a / n == q
  {
    Product(a / n + 1, q, n);
    Product(q + 1, a / n, n);
  }

  lemma Product(a: nat, b: nat, n: nat)
    ensures a <= b ==> a * n <= b * n
  {
  }

  lemma Divided(a: nat, n: nat) returns (q: nat, r: nat)
    requires n >= 1
    ensures q == a / n && r < n && a == q * n + r
  {
    q, r := a / n, a % n;
  }

  lemma HalveTwice(v: nat, n: nat)
    requires n >= 1
    ensures v / 2 / n == v / (2 * n)
  {
    var h := v / 2;
    var q, r := Divided(h, n);
    Doubled(v, h, n, q, r);
    Quotient(v, 2 * n, q, 2 * r + v % 2);
  }

  lemma Doubled(v: nat, h: nat, n: nat, q: nat, r: nat)
    requires h == v / 2 && h == q * n + r
    ensures v == q * (2 * n) + (2 * r + v % 2)
  {
  }

  /** Bit k of a word weighs 2^k. */
  lemma BitsAreBinaryDigits(v: u32, k: nat)
    ensures k in BitsOf(v) <==> v / Pow2(k) % 2 == 1
  {
    DigitsArePowers(v, 0, k);
  }

  datatype Option<+T> = None | Some(value: T)

  const LF: byte := 10
  const COMMA: byte := 44
  const DOT: byte := 46
  const SLASH: byte := 47

  /** The longest string the formatter and the CSV printer handle. */
  const MAX_STRLEN := 4096

  lemma Associates<T>(a: seq<T>, b: seq<T>, c: seq<T>)
    ensures (a + b) + c == a + (b + c)
  {
  }

  lemma SplitSlice<T>(b: seq<T>, i: nat, j: nat, k: nat)
    requires i <= j <= k <= |b|
    ensures b[i..k] == b[i..j] + b[j..k]
  {
  }

  lemma SliceOfDrop<T>(b: seq<T>, m: nat, i: nat, j: nat)
    requires m <= |b| && i <= j <= |b| - m
    ensures b[m..][i..j] == b[m + i..m + j]
  {
  }

  lemma SliceOfSlice<T>(b: seq<T>, i: nat, k: nat, n: nat)
    requires i <= i + n <= k <= |b|
    ensures b[i..k][..n] == b[i..i + n]
  {
  }

  lemma PrefixOfMore<T>(r: seq<T>, b: seq<T>, i: nat, j: nat)
    requires i <= j <= |b| && r <= b[i..j]
    ensures r <= b[i..] && i + |r| <= j
  {
    assert forall k :: 0 <= k < |r| ==> b[i..j][k] == b[i..][k];
  }

  lemma SameTail<T>(b: seq<T>, c: seq<T>, i: nat, j: nat, k: nat, n: nat)
    requires i <= j <= k <= n <= |b| && n <= |c| && c[j..n] == b[i..n][j - i..]
    ensures c[j..k] == b[i..k][j - i..]
  {
    var x, y := c[j..k], b[i..k][j - i..];
    forall t | 0 <= t < k - j ensures x[t] == y[t] {
      assert x[t] == c[j..n][t] == b[i..n][j - i..][t];
    }
  }

  /** The order of `BTreeMap` keys: lexicographic, a proper prefix first. */
  predicate Less(a: bytes, b: bytes) {
    if b == [] then false
    else if a == [] then true
    else a[0] < b[0] || (a[0] == b[0] && Less(a[1..], b[1..]))
  }

  lemma {:induction false} LessIsTotal(a: bytes, b: bytes)
    ensures a == b || Less(a, b) || Less(b, a)
  {
    if a != [] && b != [] && a[0] == b[0] {
      LessIsTotal(a[1..], b[1..]);
      assert a == [a[0]] + a[1..] && b == [b[0]] + b[1..];
    }
  }

  lemma {:induction false} LessIsAsymmetric(a: bytes, b: bytes)
    requires Less(a, b)
    ensures !Less(b, a)
  {
    if a != [] && a[0] == b[0] {
      LessIsAsymmetric(a[1..], b[1..]);
    }
  }

  lemma {:induction false} LessIsIrreflexive(a: bytes)
    ensures !Less(a, a)
  {
    if Less(a, a) { LessIsAsymmetric(a, a); }
  }

  lemma {:induction false} LessIsTransitive(a: bytes, b: bytes, c: bytes)
    requires Less(a, b) && Less(b, c)
    ensures Less(a, c)
  {
    if a != [] && a[0] == b[0] == c[0] {
      LessIsTransitive(a[1..], b[1..], c[1..]);
    }
  }

  ghost predicate IsLeast(m: bytes, s: set<bytes>) {
    m in s && forall x :: x in s ==> x == m || Less(m, x)
  }

  lemma {:induction false} LeastExists(s: set<bytes>)
    requires s != {}
    ensures exists m :: IsLeast(m, s)
  {
    var x :| x in s;
    var rest := s - {x};
    if rest == {} {
      assert forall y :: y in s ==> y == x || y in rest;
      assert IsLeast(x, s);
    } else {
      LeastExists(rest);
      var m :| IsLeast(m, rest);
      LessIsTotal(x, m);
      if Less(x, m) {
        forall y | y in s ensures y == x || Less(x, y) {
          if y != x && y != m { LessIsTransitive(x, m, y); }
        }
        assert IsLeast(x, s);
      } else {
        assert IsLeast(m, s);
      }
    }
  }

  lemma LeastIsUnique(m: bytes, n: bytes, s: set<bytes>)
    requires IsLeast(m, s) && IsLeast(n, s)
    ensures m == n
  {
    if m != n {
      LessIsAsymmetric(m, n);
    }
  }

  /** A set of keys in iteration order. */
  ghost function SortedKeys(s: set<bytes>): seq<bytes> {
    if s == {} then []
    else
      LeastExists(s);
      var m :| IsLeast(m, s);
      [m] + SortedKeys(s - {m})
  }

  lemma {:induction false} SortedKeysAreTheKeys(s: set<bytes>)
    ensures forall k :: k in SortedKeys(s) <==> k in s
  {
    if s != {} {
      LeastExists(s);
      SortedKeysAreTheKeys(s - {SortedKeys(s)[0]});
    }
  }

  lemma SortedKeysStep(s: set<bytes>, m: bytes)
    requires IsLeast(m, s)
    ensures SortedKeys(s) == [m] + SortedKeys(s - {m})
  {
    LeastExists(s);
    var r := SortedKeys(s);
    assert IsLeast(r[0], s) && r == [r[0]] + SortedKeys(s - {r[0]});
    LeastIsUnique(m, r[0], s);
  }

  lemma {:induction false} SortedKeysAscend(s: set<bytes>)
    ensures forall i, j :: 0 <= i < j < |SortedKeys(s)| ==> Less(SortedKeys(s)[i], SortedKeys(s)[j])
  {
    if s != {} {
      var r := SortedKeys(s);
      var m := r[0];
      LeastExists(s);
      assert IsLeast(m, s) && r[1..] == SortedKeys(s - {m});
      SortedKeysAscend(s - {m});
      SortedKeysAreTheKeys(s - {m});
      forall i, j | 0 <= i < j < |r| ensures Less(r[i], r[j]) {
        assert r[j] == r[1..][j - 1] && r[j] in s - {m};
        if i > 0 { assert r[i] == r[1..][i - 1]; }
      }
    }
  }
}
