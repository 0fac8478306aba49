/** The streaming SM3 hash, whatever its block compression function, and HMAC over it. */
module Sm3 {
  import opened Basics

  type Block = b: seq<bv8> | |b| == 64 witness seq(64, i => 0)
  type Chain = c: seq<bv32> | |c| == 8 witness seq(8, i => 0)

  /** One application of the compression function to a chaining value and a block. */
  type Compress = (Chain, Block) -> Chain

  const IV: seq<bv32> := [0x7380166f, 0x4914b2b9, 0x172442d7, 0xda8a0600, 0xa96f30bc, 0x163138aa, 0xe38dee4d, 0xb0fb0e4e]

  // ----- the specification: fold the compression over the padded message -----

  /** Fold over all the whole 64-byte blocks of `m`. */
  function Fold(f: Compress, c: Chain, m: seq<bv8>): Chain
    decreases |m|
  {
    if |m| < 64 then c else Fold(f, f(c, m[..64]), m[64..])
  }

  /** The lowest `n` digits of `v` to the base 256, most significant first. */
  function Digits(v: nat, n: nat): (s: seq<byte>)
    ensures |s| == n
  {
    if n == 0 then [] else Digits(v / 256, n - 1) + [v % 256]
  }

  function AsBytes(d: seq<byte>): (s: seq<bv8>)
    ensures |s| == |d|
  {
    seq(|d|, i requires 0 <= i < |d| => d[i] as bv8)
  }

  /** How many zero bytes go between the 0x80 and the length, so that blocks come out whole. */
  function ZeroCount(len: nat): (k: nat)
    ensures (len + 1 + k + 8) % 64 == 0 && k < 64
  {
    (64 - (len + 9) % 64) % 64
  }

  /** The padding of section 5.2 of GB/T 32905-2016: one bit, zeros, and the length in bits. */
  function Pad(m: seq<bv8>): (p: seq<bv8>)
    ensures |p| % 64 == 0 && m <= p
  {
    m + [0x80] + Repeat(0, ZeroCount(|m|)) + BitLength(|m|)
  }

  /** The length in bits as eight bytes. */
  function BitLength(len: nat): (s: seq<bv8>)
    ensures |s| == 8
  {
    AsBytes(Digits(8 * len, 8))
  }

  // ----- what the padding says -----

  /** The number whose digits to the base 256 are `d`, most significant first. */
  function Number(d: seq<byte>): nat {
    if d == [] then 0 else 256 * Number(d[..|d| - 1]) + d[|d| - 1]
  }

  function Power256(n: nat): (p: nat)
    ensures p > 0
  {
    if n == 0 then 1 else 256 * Power256(n - 1)
  }

  lemma SmallRemainder(t: nat, m: nat)
    requires t < m
    ensures t % m == t
  {
  }

  lemma LowByte(v: nat, p: nat, h: nat, b: byte)
    requires p > 0 && v == 256 * h + b
    ensures v % (256 * p) == 256 * (h % p) + b
  {
    var q, r := h / p, h % p;
    assert h == p * q + r;
    assert 256 * p * q == 256 * (p * q);
    ModOut(256 * p, q, 256 * r + b);
    SmallRemainder(256 * r + b, 256 * p);
  }

  lemma {:induction false} DigitsNumber(v: nat, n: nat)
    ensures Number(Digits(v, n)) == v % Power256(n)
    decreases n
  {
    if n > 0 {
      DigitsNumber(v / 256, n - 1);
      assert Digits(v, n)[..n - 1] == Digits(v / 256, n - 1);
      LowByte(v, Power256(n - 1), v / 256, v % 256);
    }
  }

  /** The padded message: the message, the byte 0x80, zeros, and in the last eight bytes, read
      big-endian, the length in bits modulo 2^64. */
  lemma PaddedIs(m: seq<bv8>, p: seq<bv8>) returns (d: seq<byte>)
    requires p == Pad(m)
    ensures |m| + 9 <= |p| < |m| + 73 && p[..|m|] == m && p[|m|] == 0x80
    ensures forall i :: |m| < i < |p| - 8 ==> p[i] == 0
    ensures p[|p| - 8..] == AsBytes(d) && Number(d) == 8 * |m| % 0x1_0000_0000_0000_0000
  {
    d := Digits(8 * |m|, 8);
    DigitsNumber(8 * |m|, 8);
    assert Power256(4) == TWO32 && Power256(8) == 0x1_0000_0000_0000_0000;
    assert p[|p| - 8..] == BitLength(|m|);
  }

  function ChainBytes(c: seq<bv32>): (s: seq<bv8>)
    ensures |s| == 4 * |c|
  {
    if c == [] then [] else ChainBytes(c[..|c| - 1]) + WordBytes(c[|c| - 1])
  }

  lemma {:induction false} ChainBytesAt(c: seq<bv32>, i: nat)
    requires i < |c|
    ensures ChainBytes(c)[4 * i..4 * i + 4] == WordBytes(c[i])
  {
    var n := |c| - 1;
    if i < n {
      ChainBytesAt(c[..n], i);
      assert ChainBytes(c)[..4 * n] == ChainBytes(c[..n]);
      assert ChainBytes(c)[4 * i..4 * i + 4] == ChainBytes(c[..n])[4 * i..4 * i + 4];
    }
  }

  function Digest(f: Compress, m: seq<bv8>): (d: seq<bv8>)
    ensures |d| == 32
  {
    ChainBytes(Fold(f, IV, Pad(m)))
  }

  // ----- folding in pieces -----

  lemma {:induction false} FoldAppend(f: Compress, c: Chain, a: seq<bv8>, b: seq<bv8>)
    requires |a| % 64 == 0
    ensures Fold(f, c, a + b) == Fold(f, Fold(f, c, a), b)
    decreases |a|
  {
    if a == [] {
      assert a + b == b;
    } else {
      assert (a + b)[..64] == a[..64] && (a + b)[64..] == a[64..] + b;
      FoldAppend(f, f(c, a[..64]), a[64..], b);
    }
  }

  lemma FoldBlock(f: Compress, c: Chain, b: Block)
    ensures Fold(f, c, b) == f(c, b)
  {
    assert b[..64] == b && b[64..] == [];
  }

  /** What the hasher holds after absorbing `m`: the fold of the whole blocks of `m` and the
      bytes left over. */
  ghost predicate Absorbed(f: Compress, m: seq<bv8>, c: Chain, rest: seq<bv8>) {
    && |rest| < 64 && |rest| <= |m| && (|m| - |rest|) % 64 == 0
    && rest == m[|m| - |rest|..] && c == Fold(f, IV, m[..|m| - |rest|])
  }

  /** Completing a block. */
  lemma AbsorbBlock(f: Compress, m: seq<bv8>, c: Chain, rest: seq<bv8>, data: seq<bv8>)
    requires Absorbed(f, m, c, rest) && |rest| + |data| == 64
    ensures Absorbed(f, m + data, f(c, rest + data), [])
  {
    var whole := m[..|m| - |rest|];
    assert m + data == whole + (rest + data);
    FoldAppend(f, IV, whole, rest + data);
    FoldBlock(f, c, rest + data);
    assert (m + data)[..|m + data|] == m + data;
  }

  /** Not completing one. */
  lemma AbsorbPart(f: Compress, m: seq<bv8>, c: Chain, rest: seq<bv8>, data: seq<bv8>)
    requires Absorbed(f, m, c, rest) && |rest| + |data| < 64
    ensures Absorbed(f, m + data, c, rest + data)
  {
    var n := |m| - |rest|;
    assert (m + data)[..n] == m[..n] && (m + data)[n..] == rest + data;
  }

  lemma AppendSlice(m: seq<bv8>, data: seq<bv8>, i: nat, j: nat)
    requires i <= j <= |data|
    ensures m + data[..i] + data[i..j] == m + data[..j]
    ensures m + data[..0] == m && m + data[..|data|] == m + data
  {
  }

  // ----- the hasher -----

  /** The chain after the bytes left over, 0x80, zeros and the length: one more block, or two. */
  ghost function Closed(f: Compress, c: Chain, rest: seq<bv8>, len: seq<bv8>): Chain
    requires |rest| < 64 && |len| == 8
  {
    if |rest| + 1 > 56
    then f(f(c, rest + [0x80] + Repeat(0, 63 - |rest|)), Repeat(0, 56) + len)
    else f(c, rest + [0x80] + Repeat(0, 55 - |rest|) + len)
  }

  class Hasher {
    const f: Compress
    var chain: Chain
    const buf: array<bv8>
    var bufLen: nat
    var totalLen: nat
    ghost var message: seq<bv8>   // everything absorbed so far

    ghost predicate Holds(m: seq<bv8>)
      reads this, buf
    {
      buf.Length == 64 && bufLen < 64 && Absorbed(f, m, chain, buf[..bufLen])
    }

    ghost predicate Valid()
      reads this, buf
    {
      Holds(message) && totalLen == |message|
    }

    constructor (f: Compress)
      ensures Valid() && fresh(buf) && message == [] && this.f == f
    {
      this.f := f;
      chain := IV;
      buf := new bv8[64](_ => 0);
      bufLen, totalLen := 0, 0;
      message := [];
    }

    method Copy(at: nat, data: seq<bv8>)
      requires at + |data| <= buf.Length
      modifies buf
      ensures buf[..] == old(buf[..at]) + data + old(buf[at + |data|..])
    {
      forall k | 0 <= k < |data| {
        buf[at + k] := data[k];
      }
    }

    method CompressBlock()
      requires buf.Length == 64
      modifies this`chain
      ensures chain == f(old(chain), buf[..])
    {
      chain := f(chain, buf[..]);
    }

    /** Fill up a partly filled buffer, compressing it if it becomes full. */
    method TopUp(data: seq<bv8>, ghost m: seq<bv8>) returns (tk: nat)
      requires Holds(m) && bufLen > 0
      modifies this`chain, this`bufLen, buf
      ensures tk <= |data| && Holds(m + data[..tk]) && (bufLen > 0 ==> tk == |data|)
    {
      var sp := 64 - bufLen;
      tk := if sp < |data| then sp else |data|;
      ghost var rest := buf[..bufLen];
      Copy(bufLen, data[..tk]);
      bufLen := bufLen + tk;
      assert buf[..bufLen] == rest + data[..tk];
      if bufLen == 64 {
        AbsorbBlock(f, m, chain, rest, data[..tk]);
        assert buf[..] == buf[..64];
        CompressBlock();
        bufLen := 0;
        assert buf[..0] == [];
      } else {
        AbsorbPart(f, m, chain, rest, data[..tk]);
      }
    }

    method WholeBlock(block: Block, ghost m: seq<bv8>)
      requires Holds(m) && bufLen == 0
      modifies this`chain, buf
      ensures Holds(m + block)
    {
      assert buf[..0] == [];
      AbsorbBlock(f, m, chain, [], block);
      Copy(0, block);
      assert buf[..] == block == [] + block;
      CompressBlock();
      assert buf[..0] == [];
    }

    method Keep(data: seq<bv8>, ghost m: seq<bv8>)
      requires Holds(m) && bufLen == 0 && |data| < 64
      modifies this`bufLen, buf
      ensures Holds(m + data)
    {
      assert buf[..0] == [];
      AbsorbPart(f, m, chain, [], data);
      Copy(0, data);
      bufLen := |data|;
      assert buf[..bufLen] == data == [] + data;
    }

    method Update(data: seq<bv8>)
      requires Valid()
      modifies this, buf
      ensures Valid() && message == old(message) + data
    {
      var offset, len := 0, |data|;
      totalLen := totalLen + len;
      AppendSlice(message, data, 0, 0);
      if bufLen > 0 {
        offset := TopUp(data, message);
      }
      while offset + 64 <= len
        invariant 0 <= offset <= len && (bufLen > 0 ==> offset == len)
        invariant Holds(message + data[..offset])
        invariant message == old(message) && totalLen == old(totalLen) + len
      {
        WholeBlock(data[offset..offset + 64], message + data[..offset]);
        AppendSlice(message, data, offset, offset + 64);
        offset := offset + 64;
      }
      AppendSlice(message, data, offset, len);
      if offset < len {
        Keep(data[offset..len], message + data[..offset]);
      }
      message := message + data;
    }

    /** Zero the buffer from `from` up to `to`. */
    method ZeroFill(from: nat, to: nat)
      requires from <= to <= buf.Length
      modifies buf
      ensures buf[..] == old(buf[..from]) + Repeat(0, to - from) + old(buf[to..])
    {
      for i := from to to
        invariant buf[..from] == old(buf[..from]) && buf[to..] == old(buf[to..])
        invariant forall k :: from <= k < i ==> buf[k] == 0
      {
        buf[i] := 0;
      }
    }

    /** Zero-fill up to the length field, put the length and compress. */
    method CloseBlock(len: seq<bv8>)
      requires buf.Length == 64 && bufLen <= 56 && |len| == 8
      modifies this`chain, buf
      ensures chain == f(old(chain), old(buf[..bufLen]) + Repeat(0, 56 - bufLen) + len)
    {
      ghost var kept := buf[..bufLen];
      ZeroFill(bufLen, 56);
      Copy(56, len);
      assert buf[..] == kept + Repeat(0, 56 - bufLen) + len;
      CompressBlock();
    }

    /** Append 0x80, zeros and the length, compressing one or two blocks. */
    method PadAndCompress(len: seq<bv8>)
      requires buf.Length == 64 && bufLen < 64 && |len| == 8
      modifies this`chain, this`bufLen, buf
      ensures chain == Closed(f, old(chain), old(buf[..bufLen]), len)
    {
      ghost var rest := buf[..bufLen];
      buf[bufLen] := 0x80;
      bufLen := bufLen + 1;
      assert buf[..bufLen] == rest + [0x80];
      if bufLen > 56 {
        ZeroFill(bufLen, 64);
        assert buf[..] == rest + [0x80] + Repeat(0, 63 - |rest|);
        CompressBlock();
        bufLen := 0;
        assert buf[..bufLen] + Repeat(0, 56) + len == Repeat(0, 56) + len;
      }
      CloseBlock(len);
    }

    method Finalize() returns (hash: seq<bv8>)
      requires Valid()
      modifies this, buf
      ensures hash == Digest(f, old(message))
    {
      var bitLen := BitLength(totalLen);
      ghost var whole := Fold(f, IV, Pad(message));
      PadTail(f, message, chain, buf[..bufLen], bitLen);
      PadAndCompress(bitLen);
      assert chain == whole;
      hash := Output();
    }

    method Output() returns (hash: seq<bv8>)
      ensures hash == ChainBytes(chain)
    {
      hash := [];
      for i := 0 to 8
        invariant hash == ChainBytes(chain[..i])
      {
        assert chain[..i + 1][..i] == chain[..i];
        hash := hash + WordBytes(chain[i]);
      }
      assert chain[..8] == chain;
    }
  }

  lemma ZeroCountIs(len: nat, r: nat)
    requires r < 64 && r <= len && (len - r) % 64 == 0
    ensures ZeroCount(len) == if r + 1 > 56 then 119 - r else 55 - r
  {
    var q := (len - r) / 64;
    assert len + 9 == 64 * q + (r + 9);
    ModOut(64, q, r + 9);
    assert (r + 9) % 64 == if r + 9 < 64 then r + 9 else r - 55;
  }

  /** Only the bytes left over and the padding remain to be folded: one block, or two. */
  lemma PadTail(f: Compress, m: seq<bv8>, c: Chain, rest: seq<bv8>, len: seq<bv8>)
    requires Absorbed(f, m, c, rest) && len == BitLength(|m|)
    ensures Fold(f, IV, Pad(m)) == Closed(f, c, rest, len)
  {
    var n := |m| - |rest|;
    var k := ZeroCount(|m|);
    ZeroCountIs(|m|, |rest|);
    var tail := rest + [0x80] + Repeat(0, k) + len;
    assert m[..n] + rest == m;
    assert Pad(m) == m[..n] + tail;
    FoldAppend(f, IV, m[..n], tail);
    if |rest| + 1 > 56 {
      TwoBlockTail(f, c, rest, len);
    } else {
      FoldBlock(f, c, tail);
    }
  }

  lemma TwoBlockTail(f: Compress, c: Chain, rest: seq<bv8>, len: seq<bv8>)
    requires 55 < |rest| < 64 && |len| == 8
    ensures Fold(f, c, rest + [0x80] + Repeat(0, 119 - |rest|) + len)
            == f(f(c, rest + [0x80] + Repeat(0, 63 - |rest|)), Repeat(0, 56) + len)
  {
    var first := rest + [0x80] + Repeat(0, 63 - |rest|);
    var second := Repeat(0, 56) + len;
    assert rest + [0x80] + Repeat(0, 119 - |rest|) + len == first + second;
    FoldAppend(f, c, first, second);
    FoldBlock(f, c, first);
    FoldBlock(f, f(c, first), second);
  }

  // ----- one-shot, split, and keyed hashing -----

  function Concat(chunks: seq<seq<bv8>>): seq<bv8> {
    if chunks == [] then [] else Concat(chunks[..|chunks| - 1]) + chunks[|chunks| - 1]
  }

  /** However a message is split into updates, the digest is that of the whole. */
  method HashChunks(f: Compress, chunks: seq<seq<bv8>>) returns (hash: seq<bv8>)
    ensures hash == Digest(f, Concat(chunks))
  {
    var h := new Hasher(f);
    for i := 0 to |chunks|
      invariant h.Valid() && h.f == f && h.message == Concat(chunks[..i])
      invariant fresh(h) && fresh(h.buf)
    {
      h.Update(chunks[i]);
      assert chunks[..i + 1][..i] == chunks[..i];
    }
    assert chunks[..|chunks|] == chunks;
    hash := h.Finalize();
  }

  function XorAll(k: seq<bv8>, pad: bv8): (r: seq<bv8>)
    ensures |r| == |k|
  {
    seq(|k|, i requires 0 <= i < |k| => k[i] ^ pad)
  }

  /** The key of section 2 of RFC 2104: hashed if longer than a block, then zero-filled. */
  function BlockKey(f: Compress, key: seq<bv8>): (k: seq<bv8>)
    ensures |k| == 64
  {
    var short := if |key| > 64 then Digest(f, key) else key;
    short + Repeat(0, 64 - |short|)
  }

  /** A key of at most 64 bytes is used as it is, a longer one by its digest; zeros follow. */
  lemma BlockKeyIs(f: Compress, key: seq<bv8>, k: seq<bv8>, n: nat)
    requires k == BlockKey(f, key) && n == if |key| <= 64 then |key| else 32
    ensures k[..n] == (if |key| <= 64 then key else Digest(f, key)) && forall i :: n <= i < 64 ==> k[i] == 0
  {
  }

  /** The key block as the code builds it. */
  method KeyBlock(f: Compress, key: seq<bv8>) returns (k: seq<bv8>)
    ensures k == BlockKey(f, key)
  {
    if |key| > 64 {
      var h := HashChunks(f, [key]);
      ConcatTwo(key, []);
      k := h + Repeat(0, 32);
    } else {
      k := key + Repeat(0, 64 - |key|);
    }
  }

  lemma ConcatTwo(a: seq<bv8>, b: seq<bv8>)
    ensures Concat([a, b]) == a + b && Concat([a]) == a
  {
    assert [a][..0] == [];
    assert Concat([a]) == Concat([]) + a == a;
    assert [a, b][..1] == [a] && [a, b][1] == b;
    assert Concat([a, b]) == Concat([a, b][..1]) + b;
  }

  method InnerOuter(k: seq<bv8>) returns (ik: seq<bv8>, ok: seq<bv8>)
    requires |k| == 64
    ensures ik == XorAll(k, 0x36) && ok == XorAll(k, 0x5C)
  {
    ik, ok := [], [];
    for i := 0 to 64
      invariant |ik| == |ok| == i
      invariant forall j :: 0 <= j < i ==> ik[j] == k[j] ^ 0x36 && ok[j] == k[j] ^ 0x5C
    {
      ik := ik + [k[i] ^ 0x36];
      ok := ok + [k[i] ^ 0x5C];
    }
  }

  /** The nested form of section 2 of RFC 2104. */
  method Hmac(f: Compress, key: seq<bv8>, data: seq<bv8>) returns (mac: seq<bv8>)
    ensures var k := BlockKey(f, key);
      mac == Digest(f, XorAll(k, 0x5C) + Digest(f, XorAll(k, 0x36) + data))
  {
    var k := KeyBlock(f, key);
    var ik, ok := InnerOuter(k);
    ConcatTwo(ik, data);
    var ih := HashChunks(f, [ik, data]);
    ConcatTwo(ok, ih);
    mac := HashChunks(f, [ok, ih]);
  }
}
