/** Shared value types. */
module Basics {

  type byte = b: int | 0 <= b < 256
  type u16 = v: int | 0 <= v < 0x1_0000
  type u32 = v: int | 0 <= v < 0x1_0000_0000
  type u64 = v: int | 0 <= v < 0x1_0000_0000_0000_0000

  const TWO32: nat := 0x1_0000_0000

  datatype Option<T> = None | Some(value: T)

  function Min(a: nat, b: nat): nat { if a < b then a else b }

  function Max(a: nat, b: nat): nat { if a > b then a else b }

  ghost predicate Ascending(s: seq<nat>) {
    forall i, j :: 0 <= i < j < |s| ==> s[i] < s[j]
  }

  /** The sum of `f` over a sequence. */
  function Sum<T>(s: seq<T>, f: T -> nat): nat {
    if s == [] then 0 else Sum(s[..|s| - 1], f) + f(s[|s| - 1])
  }

  lemma SumOne<T>(s: seq<T>, f: T -> nat)
    requires |s| == 1
    ensures Sum(s, f) == f(s[0])
  {
    assert Sum(s[..0], f) == 0;
  }

  lemma {:induction false} SumZero<T>(s: seq<T>, f: T -> nat, i: nat)
    requires Sum(s, f) == 0 && i < |s|
    ensures f(s[i]) == 0
  {
    if i < |s| - 1 {
      SumZero(s[..|s| - 1], f, i);
    }
  }

  lemma {:induction false} SumConcat<T>(a: seq<T>, b: seq<T>, f: T -> nat)
    ensures Sum(a + b, f) == Sum(a, f) + Sum(b, f)
  {
    if b == [] {
      assert a + b == a;
    } else {
      assert (a + b)[..|a + b| - 1] == a + b[..|b| - 1];
      SumConcat(a, b[..|b| - 1], f);
    }
  }

  lemma {:induction false} SumUpdate<T>(s: seq<T>, i: nat, x: T, f: T -> nat)
    requires i < |s|
    ensures Sum(s[i := x], f) == Sum(s, f) - f(s[i]) + f(x)
  {
    var n := |s| - 1;
    if i == n {
      assert s[i := x][..n] == s[..n];
    } else {
      assert s[i := x][..n] == s[..n][i := x];
      SumUpdate(s[..n], i, x, f);
    }
  }

  /** Multiples of the modulus drop out. */
  lemma {:induction false} ModOut(m: nat, q: nat, t: nat)
    requires m > 0
    ensures (m * q + t) % m == t % m
  {
    if q == 0 {
      assert m * q == 0;
    } else {
      ModOut(m, q - 1, t);
      assert m * q + t == m * (q - 1) + t + m;
      ModNext(m * (q - 1) + t, m);
    }
  }

  lemma ModNext(n: nat, m: nat)
    requires m > 0
    ensures (n + m) % m == n % m
  {
    var q, q' := n / m, (n + m) / m;
    Distribute(m, q', q + 1);
    NoSmallMultiple(m, q' - (q + 1), n % m - (n + m) % m);
  }

  lemma Distribute(m: nat, a: int, b: int)
    ensures m * (a - b) == m * a - m * b && m * (b + 1) == m * b + m
  {
  }

  lemma NoSmallMultiple(m: nat, d: int, r: int)
    requires m * d == r && 0 - m < r < m
    ensures r == 0
  {
    assert d >= 1 ==> m * d >= m;
    assert d <= -1 ==> m * d <= 0 - m;
  }

  /** `s` with `bytes` at position `at`. */
  function Splice(s: seq<byte>, at: nat, bytes: seq<byte>): (t: seq<byte>)
    requires at + |bytes| <= |s|
    ensures |t| == |s|
  {
    s[..at] + bytes + s[at + |bytes|..]
  }

  /** Two adjacent pieces are one piece. */
  lemma SpliceNext(s: seq<byte>, at: nat, a: seq<byte>, b: seq<byte>)
    requires at + |a| + |b| <= |s|
    ensures Splice(Splice(s, at, a), at + |a|, b) == Splice(s, at, a + b)
  {
  }

  /** Copy `bytes` into an array at position `at`. */
  method Write(a: array<byte>, at: nat, bytes: seq<byte>)
    requires at + |bytes| <= a.Length
    modifies a
    ensures a[..] == Splice(old(a[..]), at, bytes)
  {
    forall k | 0 <= k < |bytes| {
      a[at + k] := bytes[k];
    }
  }

  function Repeat<T>(v: T, n: nat): (s: seq<T>)
    ensures |s| == n && forall i :: 0 <= i < n ==> s[i] == v
  {
    seq(n, _ => v)
  }

  /** Little-endian numbers. */
  function From16(a: byte, b: byte): u16 { a + 0x100 * b }

  function From32(a: byte, b: byte, c: byte, d: byte): u32 {
    a as int + 0x100 * b as int + 0x1_0000 * c as int + 0x100_0000 * d as int
  }

  lemma WordBytesOrder()
    ensures WordBytes(0x0102_0304) == [1, 2, 3, 4]
  {
  }

  /** A word as big-endian bytes. */
  function WordBytes(w: bv32): (s: seq<bv8>)
    ensures |s| == 4
  {
    [((w >> 24) & 0xff) as bv8, ((w >> 16) & 0xff) as bv8, ((w >> 8) & 0xff) as bv8, (w & 0xff) as bv8]
  }
}
