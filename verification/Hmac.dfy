/** HMAC (section 2 of RFC 2104) and PBKDF2 (section 5.2 of RFC 8018) over SHA-256. */
module Hmac {
  import opened Cbc
  import opened Sha256

  const LIMIT: nat := 0x1_0000_0000_0000_0000

  /** Every byte of `k` combined with the same byte. */
  function XorAll(k: Bytes, b: bv8): (r: Bytes)
    ensures |r| == |k|
  {
    seq(|k|, i requires 0 <= i < |k| => k[i] ^ b)
  }

  /** A key of one block: long keys are hashed, short ones filled up with zeros. */
  function BlockKey(f: Compression, key: Bytes): (k: Bytes)
    ensures |k| == 64
  {
    if |key| > 64 then Digest(f, key) + Zeros(32) else key + Zeros(64 - |key|)
  }

  function Mac(f: Compression, key: Bytes, text: Bytes): (d: Bytes)
    ensures |d| == 32
  {
    var k := BlockKey(f, key);
    Digest(f, XorAll(k, 0x5c) + Digest(f, XorAll(k, 0x36) + text))
  }

  lemma Repad(k: Bytes)
    ensures XorAll(XorAll(k, 0x36), 0x36 ^ 0x5c) == XorAll(k, 0x5c)
  {
    forall i | 0 <= i < |k|
      ensures XorAll(XorAll(k, 0x36), 0x36 ^ 0x5c)[i] == k[i] ^ 0x5c
    {
      RepadByte(k[i]);
    }
  }

  lemma RepadByte(x: bv8)
    ensures (x ^ 0x36) ^ (0x36 ^ 0x5c) == x ^ 0x5c
  {
  }

  /** One-shot hash. */
  method Hash(f: Compression, data: Bytes) returns (out: Bytes)
    requires |data| < 0x8000_0000
    ensures out == Digest(f, data)
  {
    var ctx := new Context(f);
    var _ := ctx.Update(data);
    assert [] + data == data;
    out := ctx.Final();
  }

  /** The key block combined with the inner pad. */
  method PadKey(f: Compression, key: Bytes) returns (padded: Bytes)
    requires |key| < 0x8000_0000
    ensures padded == XorAll(BlockKey(f, key), 0x36)
  {
    hide Digest, XorAll;
    var start := key;
    if |key| > 64 {
      start := Hash(f, key);
    }
    padded := XorAll(start + Zeros(64 - |start|), 0x36);
  }

  class MacContext {
    const ctx: Context
    /** The padded key, then room for the inner digest. */
    const k: array<bv8>
    ghost const key: Bytes
    ghost var text: Bytes

    ghost predicate Valid()
      reads this, ctx, ctx.buf, k
    {
      k.Length == 96 && k != ctx.buf && ctx.Valid() &&
      k[..64] == XorAll(BlockKey(ctx.f, key), 0x36) && ctx.msg == k[..64] + text
    }

    constructor (f: Compression, key0: Bytes)
      requires |key0| < 0x8000_0000
      ensures Valid() && ctx.f == f && key == key0 && text == [] && fresh(ctx) && fresh(ctx.buf) && fresh(k)
    {
      hide Fold, Digest, XorAll, BlockKey;
      var padded := PadKey(f, key0);
      k := new bv8[96](i => if 0 <= i < 64 then padded[i] else 0);
      var c := new Context(f);
      var _ := c.Update(padded);
      ctx, key, text := c, key0, [];
      new;
      assert k[..64] == padded && [] + padded == padded && padded + [] == padded;
    }

    method Update(data: Bytes)
      requires Valid() && |data| < 0x8000_0000 && 8 * (64 + |text| + |data|) < LIMIT
      modifies this`text, ctx, ctx.buf
      ensures Valid() && text == old(text) + data
    {
      hide Fold, Digest, XorAll, BlockKey;
      var _ := ctx.Update(data);
      text := text + data;
      assert k[..64] + old(text) + data == k[..64] + text;
    }

    method Final() returns (out: Bytes)
      requires Valid()
      modifies ctx, ctx.buf, k
      ensures out == Mac(ctx.f, key, old(text))
    {
      hide Fold, Digest, BlockKey;
      ghost var inner := k[..64];
      var digest := ctx.Final();
      forall i | 0 <= i < 32 {
        k[64 + i] := digest[i];
      }
      assert k[..64] == inner;
      forall i | 0 <= i < 64 {
        k[i] := k[i] ^ (0x36 ^ 0x5c);
      }
      Repad(BlockKey(ctx.f, key));
      assert k[..64] == XorAll(inner, 0x36 ^ 0x5c) && k[64..] == digest;
      assert k[..] == k[..64] + k[64..];
      out := Hash(ctx.f, k[..]);
    }
  }

  method MacOf(f: Compression, key: Bytes, text: Bytes) returns (d: Bytes)
    requires |key| < 0x8000_0000 && |text| < 0x8000_0000
    ensures d == Mac(f, key, text)
  {
    hide Mac;
    var ctx := new MacContext(f, key);
    ctx.Update(text);
    assert [] + text == text;
    d := ctx.Final();
  }

  // ---- PBKDF2 ----

  /** The `j`-th iterate of block `i`. */
  function Iterate(f: Compression, pwd: Bytes, salt: Bytes, i: nat, j: nat): (u: Bytes)
    requires j >= 1
    ensures |u| == 32
  {
    Mac(f, pwd, if j == 1 then salt + BigEndian(i, 4) else Iterate(f, pwd, salt, i, j - 1))
  }

  /** The exclusive or of the first `c` iterates. */
  function KeyBlock(f: Compression, pwd: Bytes, salt: Bytes, i: nat, c: nat): (t: Bytes)
    ensures |t| == 32
  {
    if c == 0 then Zeros(32) else Xor(KeyBlock(f, pwd, salt, i, c - 1), Iterate(f, pwd, salt, i, c))
  }

  /** Blocks 1 to `n`, one after the other. */
  function KeyBlocks(f: Compression, pwd: Bytes, salt: Bytes, c: nat, n: nat): (t: Bytes)
    ensures |t| == 32 * n
  {
    if n == 0 then [] else KeyBlocks(f, pwd, salt, c, n - 1) + KeyBlock(f, pwd, salt, n, c)
  }

  /** One block: each iterate is fed back, and all are combined. */
  method DeriveBlock(f: Compression, pwd: Bytes, salt: Bytes, i: nat, iter: nat) returns (t: Bytes)
    requires |pwd| < 0x8000_0000 && |salt| <= 32
    ensures t == KeyBlock(f, pwd, salt, i, iter)
  {
    hide Mac, Xor, Zeros, BigEndian;
    t := Zeros(32);
    var u := salt + BigEndian(i, 4);
    for it := 0 to iter
      invariant t == KeyBlock(f, pwd, salt, i, it)
      invariant u == if it == 0 then salt + BigEndian(i, 4) else Iterate(f, pwd, salt, i, it)
    {
      u := MacOf(f, pwd, u);
      t := Xor(t, u);
    }
  }

  /** The first `keyLen` bytes of the blocks. */
  method Pbkdf2(f: Compression, pwd: Bytes, salt: Bytes, iter: nat, keyLen: nat) returns (out: Bytes)
    requires |pwd| < 0x8000_0000 && |salt| <= 32 && keyLen < 0x8000_0000
    ensures |out| == keyLen && out <= KeyBlocks(f, pwd, salt, iter, (keyLen + 31) / 32)
  {
    hide KeyBlock;
    out := [];
    var i, left := 1, keyLen;
    while left > 0
      invariant i >= 1 && |out| + left == keyLen
      invariant left > 0 ==> |out| == 32 * (i - 1)
      invariant i - 1 <= (keyLen + 31) / 32 && (left == 0 ==> i - 1 == (keyLen + 31) / 32)
      invariant out <= KeyBlocks(f, pwd, salt, iter, i - 1)
      decreases left
    {
      var t := DeriveBlock(f, pwd, salt, i, iter);
      var l := if left < 32 then left else 32;
      assert out == KeyBlocks(f, pwd, salt, iter, i - 1);
      out := out + t[..l];
      left := left - l;
      i := i + 1;
    }
  }

  // ---- the definitions of the standards, byte by byte ----

  /** Byte `i` of the key block. */
  function KeyByte(key: Bytes, i: nat): bv8 { if i < |key| then key[i] else 0 }

  /** A key longer than a block counts as its digest. */
  lemma LongKey(f: Compression, key: Bytes, text: Bytes)
    requires |key| > 64
    ensures Mac(f, key, text) == Mac(f, Digest(f, key), text)
  {
    hide Digest;
    assert BlockKey(f, key) == BlockKey(f, Digest(f, key));
  }

  /** The two messages that are hashed: the key with one constant and the text, and the key with the other and the
      first digest. */
  lemma MacLayout(f: Compression, key: Bytes, text: Bytes) returns (inner: Bytes, outer: Bytes)
    requires |key| <= 64
    ensures |inner| == 64 + |text| && inner[64..] == text && |outer| == 96 && outer[64..] == Digest(f, inner)
    ensures forall i :: 0 <= i < 64 ==> inner[i] == KeyByte(key, i) ^ 0x36 && outer[i] == KeyByte(key, i) ^ 0x5c
    ensures Mac(f, key, text) == Digest(f, outer)
  {
    hide Digest;
    var k := BlockKey(f, key);
    inner := XorAll(k, 0x36) + text;
    outer := XorAll(k, 0x5c) + Digest(f, inner);
  }

  /** The exclusive or of byte `x` of all of `us`. */
  function XorOf(us: seq<Bytes>, x: nat): bv8
    requires forall u :: u in us ==> x < |u|
  {
    if us == [] then 0 else XorOf(us[..|us| - 1], x) ^ us[|us| - 1][x]
  }

  /** The iterates of a block, each the code of the one before, the first that of the salt and the number of the block
      in four bytes. */
  ghost predicate Iterates(f: Compression, pwd: Bytes, salt: Bytes, i: nat, us: seq<Bytes>)
  {
    (forall u :: u in us ==> |u| == 32) &&
    (us != [] ==> us[0] == Mac(f, pwd, salt + FourBytes(i))) &&
    forall j :: 0 < j < |us| ==> us[j] == Mac(f, pwd, us[j - 1])
  }

  function FourBytes(i: nat): Bytes
  {
    [(i / 0x100_0000 % 256) as bv8, (i / 0x1_0000 % 256) as bv8, (i / 0x100 % 256) as bv8, (i % 256) as bv8]
  }

  lemma FourBytesAre(i: nat)
    ensures BigEndian(i, 4) == FourBytes(i)
  {
    var a := i / 256;
    var b := a / 256;
    assert i / 0x1_0000 == b && i / 0x100_0000 == b / 256;
    assert BigEndian(b / 256, 1) == [(b / 256 % 256) as bv8];
    assert BigEndian(b, 2) == [(b / 256 % 256) as bv8, (b % 256) as bv8];
  }

  /** A block of the derived key is the exclusive or of its iterates. */
  lemma {:induction false} BlockIs(f: Compression, pwd: Bytes, salt: Bytes, i: nat, c: nat) returns (us: seq<Bytes>)
    ensures |us| == c && Iterates(f, pwd, salt, i, us)
    ensures c > 0 ==> us[c - 1] == Iterate(f, pwd, salt, i, c)
    ensures forall x :: 0 <= x < 32 ==> KeyBlock(f, pwd, salt, i, c)[x] == XorOf(us, x)
  {
    hide Mac, BigEndian, FourBytes;
    FourBytesAre(i);
    if c == 0 {
      us := [];
    } else {
      var before := BlockIs(f, pwd, salt, i, c - 1);
      us := before + [Iterate(f, pwd, salt, i, c)];
      assert us[..c - 1] == before;
    }
  }

  /** The blocks of the derived key are numbered from one. */
  lemma {:induction false} BlocksAt(f: Compression, pwd: Bytes, salt: Bytes, c: nat, n: nat, k: nat)
    requires k < n
    ensures KeyBlocks(f, pwd, salt, c, n)[32 * k..32 * k + 32] == KeyBlock(f, pwd, salt, k + 1, c)
  {
    hide KeyBlock;
    if k < n - 1 {
      BlocksAt(f, pwd, salt, c, n - 1, k);
      var before, last := KeyBlocks(f, pwd, salt, c, n - 1), KeyBlock(f, pwd, salt, n, c);
      assert (before + last)[32 * k..32 * k + 32] == before[32 * k..32 * k + 32];
    }
  }
}
