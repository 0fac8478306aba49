/** Sixteen 64-bit words as a bitmap of 1024 pages, and counting. */
module Bitmap {

  import opened Basics

  const WORDS: nat := 16
  const PAGES_PER_WORD: nat := 64
  const MAX_PAGES: nat := 1024

  // ----- counting -----

  function One<T>(p: T -> bool): T -> nat { (x: T) => if p(x) then 1 else 0 }

  function Count<T>(p: T -> bool, s: seq<T>): nat { Sum(s, One(p)) }

  lemma CountLast<T>(p: T -> bool, s: seq<T>)
    requires s != []
    ensures Count(p, s) == Count(p, s[..|s| - 1]) + if p(s[|s| - 1]) then 1 else 0
  {
  }

  lemma CountNext<T>(p: T -> bool, s: seq<T>, n: nat)
    requires n < |s|
    ensures Count(p, s[..n + 1]) == Count(p, s[..n]) + if p(s[n]) then 1 else 0
  {
    assert s[..n + 1][..n] == s[..n];
    CountLast(p, s[..n + 1]);
  }

  lemma CountNone<T>(p: T -> bool, s: seq<T>)
    requires s == []
    ensures Count(p, s) == 0
  {
  }

  lemma {:induction false} CountZero<T>(p: T -> bool, s: seq<T>)
    ensures Count(p, s) == 0 <==> forall i :: 0 <= i < |s| ==> !p(s[i])
    ensures Count(p, s) <= |s|
  {
    if s == [] {
    } else {
      var n := |s| - 1;
      CountZero(p, s[..n]);
      assert forall i :: 0 <= i < n ==> s[..n][i] == s[i];
    }
  }

  /** Sequences that satisfy their predicates at the same places have the same count. */
  lemma {:induction false} CountSame<S, T>(p: S -> bool, s: seq<S>, q: T -> bool, t: seq<T>)
    requires |s| == |t| && forall i :: 0 <= i < |s| ==> (p(s[i]) <==> q(t[i]))
    ensures Count(p, s) == Count(q, t)
  {
    if s == [] {
    } else {
      var n := |s| - 1;
      CountSame(p, s[..n], q, t[..n]);
    }
  }

  // ----- 64-bit words and their bits -----

  function Pow2(n: nat): nat { if n == 0 then 1 else 2 * Pow2(n - 1) }

  /** The lowest `n` binary digits of `w`, least significant first. */
  function Digits(w: nat, n: nat): (r: seq<bool>)
    ensures |r| == n
  {
    if n == 0 then [] else [w % 2 == 1] + Digits(w / 2, n - 1)
  }

  function Bits(w: u64): (r: seq<bool>)
    ensures |r| == 64
  {
    Digits(w, 64)
  }

  /** `w | (1 << b)`, digit by digit. */
  function OrBit(w: nat, b: nat): nat {
    if b == 0 then w / 2 * 2 + 1 else OrBit(w / 2, b - 1) * 2 + w % 2
  }

  /** `w & !(1 << b)`, digit by digit. */
  function ClearBit(w: nat, b: nat): nat {
    if b == 0 then w / 2 * 2 else ClearBit(w / 2, b - 1) * 2 + w % 2
  }

  lemma LastDigit(h: nat, t: nat, n: nat)
    requires t < 2 && n > 0
    ensures Digits(h * 2 + t, n) == [t == 1] + Digits(h, n - 1)
    ensures h < Pow2(n - 1) ==> h * 2 + t < Pow2(n)
  {
    assert (h * 2 + t) / 2 == h && (h * 2 + t) % 2 == t;
  }

  /** Setting a digit of a word sets it in the lower half or in the last digit. */
  lemma DigitSet(w: nat, b: nat, n: nat, v: bool)
    requires b < n && w < Pow2(n)
    ensures w / 2 < Pow2(n - 1)
    ensures Digits(w, n)[b := v] ==
      if b == 0 then [v] + Digits(w / 2, n - 1) else [w % 2 == 1] + Digits(w / 2, n - 1)[b - 1 := v]
  {
  }

  lemma {:induction false} OrBitDigits(w: nat, b: nat, n: nat)
    requires b < n && w < Pow2(n)
    ensures OrBit(w, b) < Pow2(n) && Digits(OrBit(w, b), n) == Digits(w, n)[b := true]
    decreases n
  {
    DigitSet(w, b, n, true);
    if b == 0 {
      LastDigit(w / 2, 1, n);
    } else {
      OrBitDigits(w / 2, b - 1, n - 1);
      LastDigit(OrBit(w / 2, b - 1), w % 2, n);
    }
  }

  lemma {:induction false} ClearBitDigits(w: nat, b: nat, n: nat)
    requires b < n && w < Pow2(n)
    ensures ClearBit(w, b) < Pow2(n) && Digits(ClearBit(w, b), n) == Digits(w, n)[b := false]
    decreases n
  {
    DigitSet(w, b, n, false);
    if b == 0 {
      LastDigit(w / 2, 0, n);
    } else {
      ClearBitDigits(w / 2, b - 1, n - 1);
      LastDigit(ClearBit(w / 2, b - 1), w % 2, n);
    }
  }

  lemma {:induction false} ZeroDigits(w: nat, n: nat)
    requires w < Pow2(n)
    ensures w == 0 <==> true !in Digits(w, n)
    decreases n
  {
    if n == 0 {
    } else {
      ZeroDigits(w / 2, n - 1);
      assert Digits(w, n)[0] == (w % 2 == 1) && Digits(w, n)[1..] == Digits(w / 2, n - 1);
      assert true in Digits(w, n) <==> w % 2 == 1 || true in Digits(w / 2, n - 1);
    }
  }

  lemma WordSize()
    ensures Pow2(64) == 0x1_0000_0000_0000_0000
  {
    assert Pow2(2) == 4;
    Pow2Double(2, 4);
    Pow2Double(4, 0x10);
    Pow2Double(8, 0x100);
    Pow2Double(16, 0x1_0000);
    Pow2Double(32, 0x1_0000_0000);
  }

  lemma {:induction false} Pow2Add(a: nat, b: nat)
    ensures Pow2(a + b) == Pow2(a) * Pow2(b)
  {
    if a == 0 {
    } else {
      Pow2Add(a - 1, b);
    }
  }

  lemma Pow2Double(n: nat, v: nat)
    requires Pow2(n) == v
    ensures Pow2(2 * n) == v * v
  {
    Pow2Add(n, n);
  }

  lemma BitsSet(w: u64, b: nat)
    requires b < 64
    ensures OrBit(w, b) < 0x1_0000_0000_0000_0000 && Bits(OrBit(w, b)) == Bits(w)[b := true]
  {
    WordSize();
    OrBitDigits(w, b, 64);
  }

  lemma BitsCleared(w: u64, b: nat)
    requires b < 64
    ensures ClearBit(w, b) < 0x1_0000_0000_0000_0000 && Bits(ClearBit(w, b)) == Bits(w)[b := false]
  {
    WordSize();
    ClearBitDigits(w, b, 64);
  }

  lemma NoBitsInZero(w: u64)
    ensures w == 0 <==> true !in Bits(w)
  {
    WordSize();
    ZeroDigits(w, 64);
  }

  // ----- the bitmap as a sequence of flags -----

  /** All the flags, word after word. */
  function Flat(words: seq<u64>): (r: seq<bool>)
    ensures |r| == 64 * |words|
  {
    if words == [] then [] else Flat(words[..|words| - 1]) + Bits(words[|words| - 1])
  }

  lemma {:induction false} FlatAt(words: seq<u64>, k: nat)
    requires k < |words|
    ensures Flat(words)[64 * k..64 * k + 64] == Bits(words[k])
    decreases |words|
  {
    var n := |words| - 1;
    if k < n {
      FlatAt(words[..n], k);
      assert Flat(words)[64 * k..64 * k + 64] == Flat(words[..n])[64 * k..64 * k + 64];
    }
  }

  lemma FlatBit(words: seq<u64>, k: nat, i: nat)
    requires k < |words| && i < 64
    ensures Flat(words)[64 * k + i] == Bits(words[k])[i]
  {
    FlatAt(words, k);
    assert Flat(words)[64 * k..64 * k + 64][i] == Flat(words)[64 * k + i];
  }

  /** Changing one flag of one word changes that flag only. */
  lemma {:induction false} FlatUpdate(words: seq<u64>, k: nat, w: u64, b: nat, v: bool)
    requires k < |words| && b < 64 && Bits(w) == Bits(words[k])[b := v]
    ensures Flat(words[k := w]) == Flat(words)[64 * k + b := v]
    decreases |words|
  {
    var n := |words| - 1;
    if k == n {
      assert words[k := w][..n] == words[..n];
    } else {
      assert words[k := w][..n] == words[..n][k := w];
      FlatUpdate(words[..n], k, w, b, v);
    }
  }

  function Identity(b: bool): bool { b }

  /** The number of set bits. */
  function Ones(w: u64): nat { Count(Identity, Bits(w)) }

  // ----- the operations -----

  /** The position of the lowest set bit. */
  method TrailingZeros(w: u64) returns (n: nat)
    requires w != 0
    ensures n < 64 && Bits(w)[n] && forall i :: 0 <= i < n ==> !Bits(w)[i]
  {
    NoBitsInZero(w);
    n := 0;
    while !Bits(w)[n]
      invariant n < 64 && forall i :: 0 <= i < n ==> !Bits(w)[i]
      decreases 64 - n
    {
      assert n == 63 ==> true !in Bits(w);
      n := n + 1;
    }
  }

  /** Take the lowest flagged page. */
  method Alloc(words: array<u64>) returns (page: Option<nat>)
    requires words.Length == WORDS
    modifies words
    ensures page == None ==> true !in old(Flat(words[..])) && words[..] == old(words[..])
    ensures page.Some? ==>
      && page.value < MAX_PAGES && old(Flat(words[..]))[page.value]
      && (forall i :: 0 <= i < page.value ==> !old(Flat(words[..]))[i])
      && Flat(words[..]) == old(Flat(words[..]))[page.value := false]
  {
    ghost var flags := Flat(words[..]);
    for k := 0 to WORDS
      invariant words[..] == old(words[..])
      invariant forall i :: 0 <= i < 64 * k ==> !flags[i]
    {
      FlatAt(words[..], k);
      if words[k] != 0 {
        var bit := TrailingZeros(words[k]);
        BitsCleared(words[k], bit);
        FlatUpdate(words[..], k, ClearBit(words[k], bit), bit, false);
        forall i | 64 * k <= i < 64 * k + bit
          ensures !flags[i]
        {
          FlatBit(words[..], k, i - 64 * k);
        }
        FlatBit(words[..], k, bit);
        words[k] := ClearBit(words[k], bit);
        assert words[..] == old(words[..])[k := ClearBit(old(words[k]), bit)];
        return Some(k * PAGES_PER_WORD + bit);
      }
      NoBitsInZero(words[k]);
      forall i | 64 * k <= i < 64 * k + 64
        ensures !flags[i]
      {
        FlatBit(words[..], k, i - 64 * k);
      }
    }
    return None;
  }

  /** Flag a page; one beyond the bitmap is ignored. */
  method Free(words: array<u64>, page: nat)
    requires words.Length == WORDS
    modifies words
    ensures Flat(words[..]) == if page < MAX_PAGES then old(Flat(words[..]))[page := true] else old(Flat(words[..]))
  {
    var idx := page / PAGES_PER_WORD;
    var bit := page % PAGES_PER_WORD;
    if idx < WORDS {
      BitsSet(words[idx], bit);
      FlatUpdate(words[..], idx, OrBit(words[idx], bit), bit, true);
      words[idx] := OrBit(words[idx], bit);
      assert words[..] == old(words[..])[idx := OrBit(old(words[idx]), bit)];
    }
  }

  /** The number of flagged pages. */
  method FreeCount(words: array<u64>) returns (count: nat)
    requires words.Length == WORDS
    ensures count == Count(Identity, Flat(words[..]))
  {
    count := 0;
    for k := 0 to WORDS
      invariant count == Count(Identity, Flat(words[..k]))
    {
      assert words[..k + 1][..k] == words[..k];
      SumConcat(Flat(words[..k]), Bits(words[k]), One(Identity));
      count := count + Ones(words[k]);
    }
    assert words[..WORDS] == words[..];
  }
}
