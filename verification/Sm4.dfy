/** The SM4 block cipher and its counter mode, whatever the nonlinear functions `sm4_t` and
    `sm4_tp` (hence whatever the S-box). */
module Sm4 {
  import opened Basics

  /** A 32-bit nonlinear function. */
  type Mixer = bv32 -> bv32

  type Key = k: seq<bv8> | |k| == 16 witness seq(16, i => 0)
  type Block = b: seq<bv8> | |b| == 16 witness seq(16, i => 0)
  type RoundKeys = k: seq<bv32> | |k| == 32 witness seq(32, i => 0)

  // ----- words and bytes -----

  function Pack(b0: bv8, b1: bv8, b2: bv8, b3: bv8): bv32 {
    ((b0 as bv32) << 24) | ((b1 as bv32) << 16) | ((b2 as bv32) << 8) | (b3 as bv32)
  }

  lemma PackInverse(w: bv32, b0: bv8, b1: bv8, b2: bv8, b3: bv8)
    ensures var s := WordBytes(w); Pack(s[0], s[1], s[2], s[3]) == w
    ensures WordBytes(Pack(b0, b1, b2, b3)) == [b0, b1, b2, b3]
  {
  }

  /** The four words the rounds work on. */
  datatype Quad<W> = Quad(x0: W, x1: W, x2: W, x3: W)

  function Load(b: Block): Quad<bv32> {
    Quad(Pack(b[0], b[1], b[2], b[3]), Pack(b[4], b[5], b[6], b[7]),
         Pack(b[8], b[9], b[10], b[11]), Pack(b[12], b[13], b[14], b[15]))
  }

  function Store(q: Quad<bv32>): Block {
    WordBytes(q.x0) + WordBytes(q.x1) + WordBytes(q.x2) + WordBytes(q.x3)
  }

  lemma LoadStore(q: Quad<bv32>)
    ensures Load(Store(q)) == q
  {
    PackInverse(q.x0, 0, 0, 0, 0);
    PackInverse(q.x1, 0, 0, 0, 0);
    PackInverse(q.x2, 0, 0, 0, 0);
    PackInverse(q.x3, 0, 0, 0, 0);
  }

  lemma StoreLoad(b: Block)
    ensures Store(Load(b)) == b
  {
    assert b == [b[0], b[1], b[2], b[3]] + [b[4], b[5], b[6], b[7]]
                + [b[8], b[9], b[10], b[11]] + [b[12], b[13], b[14], b[15]];
    PackInverse(0, b[0], b[1], b[2], b[3]);
    PackInverse(0, b[4], b[5], b[6], b[7]);
    PackInverse(0, b[8], b[9], b[10], b[11]);
    PackInverse(0, b[12], b[13], b[14], b[15]);
  }

  // ----- the rounds, over any word type -----
  // `mix(x1, x2, x3, rk)` is what a round adds to x0 with `xor`.

  function Flip<W>(q: Quad<W>): Quad<W> { Quad(q.x3, q.x2, q.x1, q.x0) }

  function Round<W>(xor: (W, W) -> W, mix: (W, W, W, W) -> W, q: Quad<W>, rk: W): Quad<W> {
    Quad(q.x1, q.x2, q.x3, xor(q.x0, mix(q.x1, q.x2, q.x3, rk)))
  }

  function Rounds<W>(xor: (W, W) -> W, mix: (W, W, W, W) -> W, q: Quad<W>, keys: seq<W>): Quad<W> {
    if keys == [] then q else Round(xor, mix, Rounds(xor, mix, q, keys[..|keys| - 1]), keys[|keys| - 1])
  }

  function Reversed<W>(keys: seq<W>): (r: seq<W>)
    ensures |r| == |keys| && forall i :: 0 <= i < |keys| ==> r[i] == keys[|keys| - 1 - i]
  {
    seq(|keys|, i requires 0 <= i < |keys| => keys[|keys| - 1 - i])
  }

  /** Adding twice cancels, and the mixing does not care which way round its words come. */
  ghost predicate Involutive<W(!new)>(xor: (W, W) -> W, mix: (W, W, W, W) -> W) {
    && (forall a, b :: xor(xor(a, b), b) == a)
    && (forall a, b, c, k :: mix(a, b, c, k) == mix(c, b, a, k))
  }

  /** A round, between two flips, undoes itself. */
  lemma RoundUndone<W(!new)>(xor: (W, W) -> W, mix: (W, W, W, W) -> W, q: Quad<W>, rk: W)
    requires Involutive(xor, mix)
    ensures Round(xor, mix, Flip(Round(xor, mix, q, rk)), rk) == Flip(q)
  {
  }

  lemma {:induction false} RoundsFirst<W>(xor: (W, W) -> W, mix: (W, W, W, W) -> W, q: Quad<W>, keys: seq<W>)
    requires keys != []
    ensures Rounds(xor, mix, q, keys) == Rounds(xor, mix, Round(xor, mix, q, keys[0]), keys[1..])
    decreases |keys|
  {
    var n := |keys| - 1;
    if n > 0 {
      RoundsFirst(xor, mix, q, keys[..n]);
      assert keys[..n][1..] == keys[1..][..n - 1];
    } else {
      assert keys[..0] == [] && keys[1..] == [];
    }
  }

  /** Running the rounds again with the keys reversed undoes them all. */
  lemma {:induction false} RoundsUndone<W(!new)>(xor: (W, W) -> W, mix: (W, W, W, W) -> W, q: Quad<W>, keys: seq<W>)
    requires Involutive(xor, mix)
    ensures Rounds(xor, mix, Flip(Rounds(xor, mix, q, keys)), Reversed(keys)) == Flip(q)
    decreases |keys|
  {
    if keys == [] {
    } else {
      var n := |keys| - 1;
      var inner := Rounds(xor, mix, q, keys[..n]);
      var back := Reversed(keys);
      RoundsFirst(xor, mix, Flip(Rounds(xor, mix, q, keys)), back);
      RoundUndone(xor, mix, inner, keys[n]);
      assert back[1..] == Reversed(keys[..n]);
      RoundsUndone(xor, mix, q, keys[..n]);
    }
  }

  // ----- the block cipher -----

  function Xor(a: bv32, b: bv32): bv32 { a ^ b }

  /** The argument of `sm4_t` is the sum of three words and the round key. */
  function Mixing(t: Mixer): (bv32, bv32, bv32, bv32) -> bv32 {
    (a, b, c, k) => t(a ^ b ^ c ^ k)
  }

  function Crypt(t: Mixer, keys: seq<bv32>, b: Block): Block {
    Store(Flip(Rounds(Xor, Mixing(t), Load(b), keys)))
  }

  lemma XorIsInvolutive(t: Mixer)
    ensures Involutive(Xor, Mixing(t))
  {
  }

  /** Block round trip: with the keys reversed the cipher inverts itself. */
  lemma CryptUndone(t: Mixer, keys: seq<bv32>, b: Block)
    ensures Crypt(t, Reversed(keys), Crypt(t, keys, b)) == b
  {
    var q := Load(b);
    LoadStore(Flip(Rounds(Xor, Mixing(t), q, keys)));
    XorIsInvolutive(t);
    RoundsUndone(Xor, Mixing(t), q, keys);
    assert Flip(Flip(q)) == q;
    StoreLoad(b);
  }

  /** Word `i + 4` of the rounds comes from the four before it and key `i`. */
  ghost predicate RoundAt<W>(xor: (W, W) -> W, mix: (W, W, W, W) -> W, keys: seq<W>, x: seq<W>, i: nat)
    requires i + 4 < |x| && i < |keys|
  {
    x[i + 4] == xor(x[i], mix(x[i + 1], x[i + 2], x[i + 3], keys[i]))
  }

  ghost predicate Recurs<W>(xor: (W, W) -> W, mix: (W, W, W, W) -> W, keys: seq<W>, x: seq<W>) {
    |x| == |keys| + 4 && forall i: nat :: i < |keys| ==> RoundAt(xor, mix, keys, x, i)
  }

  lemma RecursStep<W>(xor: (W, W) -> W, mix: (W, W, W, W) -> W, keys: seq<W>, x: seq<W>, k: W, w: W)
    requires Recurs(xor, mix, keys, x)
    requires var n := |keys|; w == xor(x[n], mix(x[n + 1], x[n + 2], x[n + 3], k))
    ensures Recurs(xor, mix, keys + [k], x + [w])
  {
    forall i: nat | i < |keys + [k]|
      ensures RoundAt(xor, mix, keys + [k], x + [w], i)
    {
      assert i < |keys| ==> RoundAt(xor, mix, keys, x, i);
    }
  }

  /** The words the rounds go through: the block's four, then one for each key. */
  lemma {:induction false} RoundWords<W>(xor: (W, W) -> W, mix: (W, W, W, W) -> W, q: Quad<W>, keys: seq<W>)
    returns (x: seq<W>)
    ensures Recurs(xor, mix, keys, x) && x[0] == q.x0 && x[1] == q.x1 && x[2] == q.x2 && x[3] == q.x3
    ensures var n := |keys|; Rounds(xor, mix, q, keys) == Quad(x[n], x[n + 1], x[n + 2], x[n + 3])
    decreases |keys|
  {
    if keys == [] {
      x := [q.x0, q.x1, q.x2, q.x3];
    } else {
      var n := |keys| - 1;
      var y := RoundWords(xor, mix, q, keys[..n]);
      var w := xor(y[n], mix(y[n + 1], y[n + 2], y[n + 3], keys[n]));
      RecursStep(xor, mix, keys[..n], y, keys[n], w);
      assert keys[..n] + [keys[n]] == keys;
      x := y + [w];
    }
  }

  /** The recurrence of encryption (section 7.1 of GB/T 32907-2016): the block in four words, then
      X[i+4] = X[i] ^ T(X[i+1] ^ X[i+2] ^ X[i+3] ^ rk[i]), and the last four words in reverse. */
  lemma CryptRecurrence(t: Mixer, keys: seq<bv32>, b: Block) returns (x: seq<bv32>)
    ensures Recurs(Xor, Mixing(t), keys, x)
    ensures WordBytes(x[0]) + WordBytes(x[1]) + WordBytes(x[2]) + WordBytes(x[3]) == b
    ensures var n := |keys|;
      Crypt(t, keys, b) == WordBytes(x[n + 3]) + WordBytes(x[n + 2]) + WordBytes(x[n + 1]) + WordBytes(x[n])
  {
    x := RoundWords(Xor, Mixing(t), Load(b), keys);
    StoreLoad(b);
  }

  lemma RecursMeans(t: Mixer, keys: seq<bv32>, x: seq<bv32>, i: nat)
    requires Recurs(Xor, Mixing(t), keys, x) && i < |keys|
    ensures x[i + 4] == x[i] ^ t(x[i + 1] ^ x[i + 2] ^ x[i + 3] ^ keys[i])
  {
    assert RoundAt(Xor, Mixing(t), keys, x, i);
  }

  // ----- key schedule and block functions -----

  const FK: seq<bv32> := [0xa3b1bac6, 0x56aa3350, 0x677d9197, 0xb27022dc]
  const CK: seq<bv32> := [
    0x00070e15, 0x1c232a31, 0x383f464d, 0x545b6269, 0x70777e85, 0x8c939aa1, 0xa8afb6bd, 0xc4cbd2d9,
    0xe0e7eef5, 0xfc030a11, 0x181f262d, 0x343b4249, 0x50575e65, 0x6c737a81, 0x888f969d, 0xa4abb2b9,
    0xc0c7ced5, 0xdce3eaf1, 0xf8ff060d, 0x141b2229, 0x30373e45, 0x4c535a61, 0x686f767d, 0x848b9299,
    0xa0a7aeb5, 0xbcc3cad1, 0xd8dfe6ed, 0xf4fb0209, 0x10171e25, 0x2c333a41, 0x484f565d, 0x646b7279]

  /** The key words masked with the family constants. */
  function Masked(mk: Quad<bv32>): (k: seq<bv32>)
    ensures |k| == 4
  {
    [mk.x0 ^ FK[0], mk.x1 ^ FK[1], mk.x2 ^ FK[2], mk.x3 ^ FK[3]]
  }

  function NextKey(tp: Mixer): (bv32, bv32, bv32, bv32, bv32) -> bv32 {
    (k0, k1, k2, k3, ck) => k0 ^ tp(k1 ^ k2 ^ k3 ^ ck)
  }

  /** Word `i + 4` of the schedule comes from the four before it. */
  ghost predicate KeyAt<W>(next: (W, W, W, W, W) -> W, ck: seq<W>, k: seq<W>, i: nat)
    requires i + 4 < |k| && i < |ck|
  {
    k[i + 4] == next(k[i], k[i + 1], k[i + 2], k[i + 3], ck[i])
  }

  /** The recurrence of the key schedule (section 7.3 of GB/T 32907-2016) over the masked key
      words followed by the round keys. */
  ghost predicate Scheduled<W>(next: (W, W, W, W, W) -> W, ck: seq<W>, k: seq<W>) {
    4 <= |k| <= |ck| + 4 && forall i: nat :: i + 4 < |k| ==> KeyAt(next, ck, k, i)
  }

  lemma ScheduleStep<W>(next: (W, W, W, W, W) -> W, ck: seq<W>, k: seq<W>, w: W)
    requires Scheduled(next, ck, k) && |k| < |ck| + 4
    requires var i := |k| - 4; w == next(k[i], k[i + 1], k[i + 2], k[i + 3], ck[i])
    ensures Scheduled(next, ck, k + [w])
  {
    forall i: nat | i + 4 < |k + [w]|
      ensures KeyAt(next, ck, k + [w], i)
    {
      assert i + 4 < |k| ==> KeyAt(next, ck, k, i);
    }
  }

  /** In full: the round keys continue the key words, masked with the family constants, by
      K[i+4] = K[i] ^ T'(K[i+1] ^ K[i+2] ^ K[i+3] ^ CK[i]). */
  lemma ScheduleMeans(tp: Mixer, key: Key, rk: RoundKeys, k: seq<bv32>, i: nat)
    requires Scheduled(NextKey(tp), CK, k) && k == Masked(Load(key)) + rk && i < 32
    ensures rk[i] == k[i] ^ tp(k[i + 1] ^ k[i + 2] ^ k[i + 3] ^ CK[i])
    ensures WordBytes(k[0] ^ 0xa3b1bac6) + WordBytes(k[1] ^ 0x56aa3350)
            + WordBytes(k[2] ^ 0x677d9197) + WordBytes(k[3] ^ 0xb27022dc) == key
  {
    assert KeyAt(NextKey(tp), CK, k, i);
    StoreLoad(key);
    var q := Load(key);
    Unmask(q.x0, FK[0]);
    Unmask(q.x1, FK[1]);
    Unmask(q.x2, FK[2]);
    Unmask(q.x3, FK[3]);
  }

  lemma Unmask(a: bv32, b: bv32)
    ensures (a ^ b) ^ b == a
  {
  }

  method ExpandKey(tp: Mixer, key: Key) returns (rk: RoundKeys)
    ensures Scheduled(NextKey(tp), CK, Masked(Load(key)) + rk)
  {
    var masked := Masked(Load(key));
    var keys: seq<bv32> := [];
    for i := 0 to 32
      invariant |keys| == i && Scheduled(NextKey(tp), CK, masked + keys)
    {
      var k := masked + keys;
      var w := NextKey(tp)(k[i], k[i + 1], k[i + 2], k[i + 3], CK[i]);
      ScheduleStep(NextKey(tp), CK, k, w);
      assert masked + (keys + [w]) == k + [w];
      keys := keys + [w];
    }
    rk := keys;
  }

  method EncryptBlock(t: Mixer, rk: RoundKeys, b: Block) returns (out: Block)
    ensures out == Crypt(t, rk, b)
  {
    var x := Load(b);
    for i := 0 to 32
      invariant x == Rounds(Xor, Mixing(t), Load(b), rk[..i])
    {
      assert rk[..i + 1][..i] == rk[..i];
      x := Round(Xor, Mixing(t), x, rk[i]);
    }
    assert rk[..32] == rk;
    out := Store(Flip(x));
  }

  /** Decryption takes the round keys from the last to the first, and so undoes encryption. */
  method DecryptBlock(t: Mixer, rk: RoundKeys, b: Block) returns (out: Block)
    ensures out == Crypt(t, Reversed(rk), b)
    ensures Crypt(t, rk, out) == b
    ensures forall plain: Block :: b == Crypt(t, rk, plain) ==> out == plain
  {
    var x := Load(b);
    ghost var back := Reversed(rk);
    for i := 0 to 32
      invariant x == Rounds(Xor, Mixing(t), Load(b), back[..i])
    {
      assert back[..i + 1][..i] == back[..i];
      x := Round(Xor, Mixing(t), x, rk[31 - i]);
    }
    assert back[..32] == back && Reversed(back) == rk;
    out := Store(Flip(x));
    CryptUndone(t, back, b);
    forall plain: Block | b == Crypt(t, rk, plain)
      ensures out == plain
    {
      CryptUndone(t, rk, plain);
    }
  }

  // ----- counter mode -----

  type Nonce = n: seq<bv8> | |n| == 12 witness seq(12, i => 0)

  /** The 32-bit counter of block `n`: it starts at 1 and wraps around. */
  function Counter(n: nat): bv32 {
    if n == 0 then 1 else Counter(n - 1) + 1
  }

  /** The key stream, block by block. */
  type Stream = nat -> Block

  function KeyStream(t: Mixer, rk: RoundKeys, nonce: Nonce): Stream {
    n => Crypt(t, rk, nonce + WordBytes(Counter(n)))
  }

  /** The counter blocks end in 1, 2, 3, ... as big-endian words; after 2^32 - 1 comes 0. */
  lemma CounterBlocks(t: Mixer, rk: RoundKeys, nonce: Nonce, n: nat)
    ensures KeyStream(t, rk, nonce)(0) == Crypt(t, rk, nonce + [0, 0, 0, 1])
    ensures KeyStream(t, rk, nonce)(1) == Crypt(t, rk, nonce + [0, 0, 0, 2])
    ensures Counter(n) == 0xFFFF_FFFF ==> KeyStream(t, rk, nonce)(n + 1) == Crypt(t, rk, nonce + [0, 0, 0, 0])
  {
    assert Counter(1) == 2;
    assert WordBytes(1) == [0, 0, 0, 1] && WordBytes(2) == [0, 0, 0, 2] && WordBytes(0) == [0, 0, 0, 0];
  }

  function Ctr(s: Stream, data: seq<bv8>): (r: seq<bv8>)
    ensures |r| == |data|
    ensures forall i :: 0 <= i < |data| ==> r[i] == data[i] ^ s(i / 16)[i % 16]
  {
    seq(|data|, i requires 0 <= i < |data| => data[i] ^ s(i / 16)[i % 16])
  }

  /** Counter mode is its own inverse, for data of any length. */
  lemma CtrInvolution(s: Stream, data: seq<bv8>)
    ensures Ctr(s, Ctr(s, data)) == data
  {
  }

  /** Encrypting a prefix gives the prefix of the ciphertext. */
  lemma CtrPrefix(s: Stream, data: seq<bv8>, n: nat)
    requires n <= |data|
    ensures Ctr(s, data[..n]) == Ctr(s, data)[..n]
  {
  }

  method XorBytes(a: seq<bv8>, ks: Block) returns (r: seq<bv8>)
    requires |a| <= 16
    ensures |r| == |a| && forall i :: 0 <= i < |a| ==> r[i] == a[i] ^ ks[i]
  {
    r := [];
    for i := 0 to |a|
      invariant |r| == i && forall j :: 0 <= j < i ==> r[j] == a[j] ^ ks[j]
    {
      r := r + [a[i] ^ ks[i]];
    }
  }

  /** A chunk of the ciphertext, block `n`. */
  lemma CtrChunk(s: Stream, data: seq<bv8>, n: nat, chunk: seq<bv8>, r: seq<bv8>)
    requires 16 * n + |chunk| <= |data| && |chunk| <= 16 && chunk == data[16 * n..16 * n + |chunk|]
    requires |r| == |chunk| && forall i :: 0 <= i < |chunk| ==> r[i] == chunk[i] ^ s(n)[i]
    ensures Ctr(s, data)[..16 * n] + r == Ctr(s, data)[..16 * n + |chunk|]
  {
  }

  method EncryptCtr(t: Mixer, rk: RoundKeys, data: seq<bv8>, nonce: Nonce) returns (result: seq<bv8>)
    ensures result == Ctr(KeyStream(t, rk, nonce), data)
  {
    ghost var s := KeyStream(t, rk, nonce);
    result := [];
    var counter: bv32 := 1;
    var offset := 0;
    ghost var n: nat := 0;
    while offset < |data|
      invariant offset <= |data| && (offset == 16 * n || offset == |data|)
      invariant offset < |data| ==> counter == Counter(n)
      invariant result == Ctr(s, data)[..offset]
    {
      var ks := EncryptBlock(t, rk, nonce + WordBytes(counter));
      assert ks == s(n);
      var chunk := if |data| - offset < 16 then |data| - offset else 16;
      var r := XorBytes(data[offset..offset + chunk], ks);
      CtrChunk(s, data, n, data[offset..offset + chunk], r);
      result := result + r;
      counter := counter + 1;
      offset := offset + chunk;
      n := n + 1;
    }
  }
}
