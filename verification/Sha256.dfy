/** SHA-256 over an abstract compression function (FIPS 180-4): a buffer of up to one block absorbs a message
    that arrives in pieces. */
module Sha256 {
  import opened Cbc
  import opened Chunks
  import Sticky

  type State = s: seq<bv32> | |s| == 8 witness seq(8, i => 0)

  type Compression = (State, Bytes) -> State

  /** Section 5.3.3. */
  const INIT: State := [0x6A09E667, 0xBB67AE85, 0x3C6EF372, 0xA54FF53A, 0x510E527F, 0x9B05688C, 0x1F83D9AB, 0x5BE0CD19]

  /** Compresses the whole blocks of `m` in order. */
  function Fold(f: Compression, st: State, m: Bytes): State
    decreases |m|
  {
    if |m| < 64 then st else Fold(f, f(st, m[..64]), m[64..])
  }

  function Zeros(n: nat): (z: Bytes)
    ensures |z| == n
  {
    seq(n, i => 0)
  }

  /** The low `n` bytes of `v`, most significant first. */
  function BigEndian(v: nat, n: nat): (b: Bytes)
    ensures |b| == n
  {
    if n == 0 then [] else BigEndian(v / 256, n - 1) + [(v % 256) as bv8]
  }

  /** The least number of zeros that, after a one bit, leaves eight bytes in the block (section 5.1.1). */
  function ZeroCount(n: nat): nat { (119 - n % 64) % 64 }

  /** The padded message is a whole number of blocks, and fewer zeros would not do. */
  lemma ZeroCountLeast(n: nat, k: nat)
    ensures (n + 1 + ZeroCount(n)) % 64 == 56
    ensures (n + 1 + k) % 64 == 56 ==> ZeroCount(n) <= k
  {
    var q, r := n / 64, n % 64;
    Sticky.DivModUnique(n + 1 + ZeroCount(n), 64, if r < 56 then q else q + 1, 56);
    if k < ZeroCount(n) {
      Sticky.DivModUnique(n + 1 + k, 64, if r + 1 + k < 64 then q else q + 1,
                          if r + 1 + k < 64 then r + 1 + k else r + 1 + k - 64);
    }
  }

  function Tail(m: Bytes): Bytes { [0x80] + Zeros(ZeroCount(|m|)) + BigEndian(8 * |m|, 8) }

  function WordBytes(w: bv32): Bytes
  {
    [((w >> 24) & 0xff) as bv8, ((w >> 16) & 0xff) as bv8, ((w >> 8) & 0xff) as bv8, (w & 0xff) as bv8]
  }

  function Words(st: seq<bv32>): (b: Bytes)
    ensures |b| == 4 * |st|
  {
    if st == [] then [] else WordBytes(st[0]) + Words(st[1..])
  }

  /** The digest of a whole message. */
  function Digest(f: Compression, m: Bytes): (d: Bytes)
    ensures |d| == 32
  {
    Words(Fold(f, INIT, m + Tail(m)))
  }

  lemma {:induction false} FoldAppend(f: Compression, st: State, x: Bytes, y: Bytes)
    requires |x| % 64 == 0
    ensures Fold(f, st, x + y) == Fold(f, Fold(f, st, x), y)
    decreases |x|
  {
    if |x| == 0 {
      assert x + y == y;
    } else {
      assert (x + y)[..64] == x[..64] && (x + y)[64..] == x[64..] + y;
      FoldAppend(f, f(st, x[..64]), x[64..], y);
    }
  }

  lemma FoldBlock(f: Compression, st: State, b: Bytes)
    requires |b| == 64
    ensures Fold(f, st, b) == f(st, b)
  {
    assert b[..64] == b && b[64..] == [];
  }

  /** One more block of the message. */
  lemma FoldNext(f: Compression, m: Bytes, n: nat, b: Bytes)
    requires n % 64 == 0 && n + 64 <= |m| && b == m[n..n + 64]
    ensures Fold(f, INIT, m[..n + 64]) == f(Fold(f, INIT, m[..n]), b)
  {
    assert m[..n + 64] == m[..n] + b;
    FoldAppend(f, INIT, m[..n], b);
    FoldBlock(f, Fold(f, INIT, m[..n]), b);
  }

  lemma NextSlice(s: Bytes, data: Bytes, i: nat, n: nat)
    requires i + n <= |data|
    ensures s + data[..i] + data[i..i + n] == s + data[..i + n]
  {
    assert data[..i] + data[i..i + n] == data[..i + n];
  }

  /** The one or two blocks that finish a message whose last `c` bytes are still in the buffer. */
  lemma FinalBlocks(f: Compression, st0: State, m: Bytes, c: nat, held: Bytes, len: Bytes)
    requires c < 64 && c <= |m| && (|m| - c) % 64 == 0 && held == m[|m| - c..] && len == BigEndian(8 * |m|, 8)
    ensures var st := Fold(f, st0, m[..|m| - c]);
            Fold(f, st0, m + Tail(m)) ==
              if c < 56 then f(st, held + [0x80] + Zeros(55 - c) + len)
              else f(f(st, held + [0x80] + Zeros(63 - c)), Zeros(56) + len)
  {
    hide Fold, BigEndian, Zeros, ZeroCount, Tail;
    HeldZeros(|m|, c);
    TailIs(m, len);
    if c < 56 {
      OneBlock(f, st0, m, |m| - c, Zeros(55 - c), len);
    } else {
      ZerosSplit(63 - c, 56);
      TwoBlocks(f, st0, m, |m| - c, Zeros(63 - c), Zeros(56), len);
    }
  }

  lemma TailIs(m: Bytes, len: Bytes)
    requires len == BigEndian(8 * |m|, 8)
    ensures Tail(m) == [0x80] + Zeros(ZeroCount(|m|)) + len
  {
  }

  lemma OneBlock(f: Compression, st: State, m: Bytes, n: nat, z: Bytes, len: Bytes)
    requires n <= |m| && n % 64 == 0 && |m| - n + 1 + |z| + |len| == 64
    ensures Fold(f, st, m + ([0x80] + z + len)) == f(Fold(f, st, m[..n]), m[n..] + [0x80] + z + len)
  {
    hide Fold;
    var b := m[n..] + [0x80] + z + len;
    assert m[n..] + ([0x80] + z + len) == b;
    FoldFrom(f, st, m, n, [0x80] + z + len);
    FoldBlock(f, Fold(f, st, m[..n]), b);
  }

  lemma TwoBlocks(f: Compression, st: State, m: Bytes, n: nat, y: Bytes, z: Bytes, len: Bytes)
    requires n <= |m| && n % 64 == 0 && |m| - n + 1 + |y| == 64 && |z| + |len| == 64
    ensures Fold(f, st, m + ([0x80] + (y + z) + len)) == f(f(Fold(f, st, m[..n]), m[n..] + [0x80] + y), z + len)
  {
    hide Fold;
    var b, b' := m[n..] + [0x80] + y, z + len;
    assert m[n..] + ([0x80] + (y + z) + len) == b + b';
    FoldFrom(f, st, m, n, [0x80] + (y + z) + len);
    FoldAppend(f, Fold(f, st, m[..n]), b, b');
    FoldBlock(f, Fold(f, st, m[..n]), b);
    FoldBlock(f, f(Fold(f, st, m[..n]), b), b');
  }

  lemma FoldFrom(f: Compression, st: State, m: Bytes, n: nat, t: Bytes)
    requires n <= |m| && n % 64 == 0
    ensures Fold(f, st, m + t) == Fold(f, Fold(f, st, m[..n]), m[n..] + t)
  {
    hide Fold;
    assert m + t == m[..n] + (m[n..] + t);
    FoldAppend(f, st, m[..n], m[n..] + t);
  }

  lemma HeldZeros(n: nat, c: nat)
    requires c < 64 && c <= n && (n - c) % 64 == 0
    ensures ZeroCount(n) == if c < 56 then 55 - c else 119 - c
  {
    Sticky.DivModUnique(n, 64, (n - c) / 64, c);
  }

  lemma ZerosSplit(a: nat, b: nat)
    ensures Zeros(a + b) == Zeros(a) + Zeros(b)
  {
  }

  /** `held` bytes of a block are held and `size` more come: their size as an int is too small to complete the block. */
  predicate NeverEnds(held: nat, size: nat) { held != 0 && size >= 0x8000_0000 && Int32(size) < 64 - held }

  lemma PartStep(held: nat, size: nat)
    requires held < 64 && 0 < size && (held != 0 || size < 64)
    ensures var n := MinInt(size, 64 - held);
            n <= size && n <= 64 - held && (n <= 0 ==> NeverEnds(held, size)) &&
            (n > 0 ==> (NeverEnds(if held + n == 64 then 0 else held + n, size - n) <==> NeverEnds(held, size)))
  {
    MinIntIs(size, 64 - held);
  }

  /** A whole block taken from the input, and the end of the input. */
  lemma BlockStep(held: nat, size: nat)
    requires held < 64
    ensures size >= 64 ==> (NeverEnds(0, size - 64) <==> NeverEnds(0, size))
    ensures !NeverEnds(held, 0)
  {
  }

  class Context {
    const f: Compression
    const buf: array<bv8>
    var length: nat
    var state: State
    var curlen: nat
    /** The message so far. */
    ghost var msg: Bytes

    ghost predicate Valid()
      reads this, buf
    {
      var n := |msg| - curlen;
      buf.Length == 64 && curlen < 64 && 0 <= n && n % 64 == 0 && length == 8 * n &&
      state == Fold(f, INIT, msg[..n]) && buf[..curlen] == msg[n..]
    }

    constructor (f0: Compression)
      ensures Valid() && f == f0 && msg == [] && fresh(buf)
    {
      f := f0;
      buf := new bv8[64];
      length, state, curlen, msg := 0, INIT, 0, [];
    }

    method Compress(block: Bytes)
      requires |block| == 64
      modifies `state, `length
      ensures state == f(old(state), block) && length == old(length) + 512
    {
      state := f(state, block);
      length := length + 64 * 8;
    }

    /** A whole block straight from the input. */
    method TakeBlock(block: Bytes)
      requires Valid() && curlen == 0 && |block| == 64
      modifies `state, `length, `msg
      ensures Valid() && msg == old(msg) + block && curlen == 0
    {
      hide Fold;
      ghost var m, n := msg + block, |msg|;
      FoldNext(f, m, n, block);
      assert m[..n] == msg[..n] && m[..n + 64] == m;
      Compress(block);
      msg := m;
    }

    /** Part of a block, through the buffer. */
    method TakePart(part: Bytes)
      requires Valid() && 0 < |part| <= 64 - curlen
      modifies this, buf
      ensures Valid() && msg == old(msg) + part
      ensures curlen == if old(curlen) + |part| == 64 then 0 else old(curlen) + |part|
    {
      hide Fold;
      ghost var m, n := msg + part, |msg| - curlen;
      CopyIn(part);
      assert m[n..] == msg[n..] + part && m[..n] == msg[..n];
      msg := m;
      if curlen == 64 {
        assert buf[..] == buf[..curlen];
        FoldNext(f, m, n, buf[..]);
        Compress(buf[..]);
        curlen := 0;
        assert m[..n + 64] == m;
      }
    }

    method CopyIn(part: Bytes)
      requires buf.Length == 64 && curlen + |part| <= 64
      modifies `curlen, buf
      ensures curlen == old(curlen) + |part| && buf[..curlen] == old(buf[..curlen]) + part
    {
      forall i | 0 <= i < |part| {
        buf[curlen + i] := part[i];
      }
      curlen := curlen + |part|;
    }

    /** Absorbs the next piece of a message of less than 2^64 bits. The size of a part passes through a 32-bit int:
        with part of a block held, a piece of 2^31 bytes or more is absorbed only if its size, so cut, completes the
        block; otherwise the loop never ends. */
    method Update(data: Bytes) returns (ok: bool)
      requires Valid() && 8 * (|msg| + |data|) < 0x1_0000_0000_0000_0000
      modifies this, buf
      ensures ok <==> !NeverEnds(old(curlen), |data|)
      ensures ok ==> Valid() && msg == old(msg) + data
    {
      hide Fold, NeverEnds, MinInt;
      var i := 0;
      BlockStep(curlen, |data|);
      while i < |data|
        invariant i <= |data| && Valid() && msg == old(msg) + data[..i]
        invariant NeverEnds(curlen, |data| - i) <==> NeverEnds(old(curlen), |data|)
      {
        var inlen := |data| - i;
        var n := 64;
        ghost var c := curlen;
        if curlen == 0 && inlen >= 64 {
          BlockStep(0, inlen);
          TakeBlock(data[i..i + 64]);
        } else {
          n := MinInt(inlen, 64 - curlen);
          PartStep(c, inlen);
          if n <= 0 {
            return false;
          }
          TakePart(data[i..i + n]);
        }
        NextSlice(old(msg), data, i, n);
        i := i + n;
      }
      assert data[..|data|] == data;
      BlockStep(curlen, 0);
      return true;
    }

    method ZeroTo(limit: nat)
      requires buf.Length == 64 && curlen <= limit <= 64
      modifies `curlen, buf
      ensures curlen == limit && buf[..limit] == old(buf[..curlen]) + Zeros(limit - old(curlen))
    {
      while curlen < limit
        invariant old(curlen) <= curlen <= limit
        invariant buf[..curlen] == old(buf[..curlen]) + Zeros(curlen - old(curlen))
      {
        buf[curlen] := 0;
        curlen := curlen + 1;
      }
    }

    /** Pads and finishes: the digest of everything absorbed. */
    method Final() returns (out: Bytes)
      requires Valid()
      modifies this, buf
      ensures out == Digest(f, old(msg))
    {
      hide Fold, Words, BigEndian, Zeros, Tail;
      ghost var m, c := msg, curlen;
      ghost var held := buf[..curlen];
      FinalBlocks(f, INIT, m, c, held, BigEndian(8 * |m|, 8));
      length := length + curlen * 8;
      buf[curlen] := 0x80;
      curlen := curlen + 1;
      assert buf[..curlen] == held + [0x80];
      if curlen > 56 {
        ZeroTo(64);
        assert buf[..] == buf[..64];
        state := f(state, buf[..]);
        curlen := 0;
      }
      ghost var start := buf[..curlen];
      ZeroTo(56);
      assert start == [] ==> start + Zeros(56) == Zeros(56);
      StoreLength();
      state := f(state, buf[..]);
      out := Words(state);
    }

    /** The bit length, in the last eight bytes. */
    method StoreLength()
      requires buf.Length == 64
      modifies buf
      ensures buf[..] == old(buf[..56]) + BigEndian(length, 8)
    {
      var len := BigEndian(length, 8);
      forall i | 0 <= i < 8 {
        buf[56 + i] := len[i];
      }
    }
  }

  /** However a message is cut into pieces, its digest is that of the whole. */
  method DigestChunks(f: Compression, chunks: seq<Bytes>) returns (out: Bytes)
    requires 8 * |Flatten(chunks)| < 0x1_0000_0000_0000_0000 && forall c :: c in chunks ==> |c| < 0x8000_0000
    ensures out == Digest(f, Flatten(chunks))
  {
    hide Digest, Flatten, Fold, Context.Valid;
    var ctx := new Context(f);
    FlattenNothing(chunks);
    for i := 0 to |chunks|
      invariant ctx.Valid() && ctx.f == f && ctx.msg == Flatten(chunks[..i])
      invariant fresh(ctx) && fresh(ctx.buf)
    {
      FlattenNext(chunks, i);
      assert chunks[i] in chunks;
      var _ := ctx.Update(chunks[i]);
    }
    FlattenAll(chunks);
    out := ctx.Final();
  }

  // ---- byte by byte ----

  function Pow256(n: nat): (p: nat)
    ensures p > 0
  {
    if n == 0 then 1 else 256 * Pow256(n - 1)
  }

  /** Byte `i` of `n` has `n - 1 - i` less significant ones below it. */
  lemma {:induction false} BigEndianAt(v: nat, n: nat, i: nat)
    requires i < n
    ensures BigEndian(v, n)[i] == (v / Pow256(n - 1 - i) % 256) as bv8
  {
    if i < n - 1 {
      BigEndianAt(v / 256, n - 1, i);
      DivDiv(v, 256, Pow256(n - 2 - i));
    }
  }

  lemma DivDiv(v: nat, a: nat, b: nat)
    requires a > 0 && b > 0
    ensures a * b > 0 && v / a / b == v / (a * b)
  {
    Sticky.MulOrder(1, a, b);
    var q := v / a;
    Sticky.DivModIs(v, a);
    Sticky.DivModIs(q, b);
    var r := a * (q % b) + v % a;
    assert v == a * b * (q / b) + r;
    Sticky.MulOrder(q % b + 1, b, a);
    Sticky.DivModUnique(v, a * b, q / b, r);
  }

  /** The padded message: whole blocks, the message, a byte 0x80, zeros, and the length in bits in eight bytes, most
      significant first. */
  lemma PaddedLayout(m: Bytes, i: nat)
    requires i < |m + Tail(m)|
    ensures var p := m + Tail(m);
            |p| % 64 == 0 && |m| + 9 <= |p| < |m| + 73 &&
            p[i] == if i < |m| then m[i] else if i == |m| then 0x80 else if i < |p| - 8 then 0
                    else (8 * |m| / Pow256(|p| - 1 - i) % 256) as bv8
  {
    ZeroCountLeast(|m|, 0);
    var p := m + Tail(m);
    Sticky.DivModUnique(|p|, 64, (|m| + 1 + ZeroCount(|m|)) / 64 + 1, 0);
    if i >= |p| - 8 {
      BigEndianAt(8 * |m|, 8, i - (|p| - 8));
      hide BigEndian, ZeroCount;
    }
  }

  /** The digest is the words of the last state, each most significant byte first. */
  lemma {:induction false} WordsAt(st: seq<bv32>, i: nat)
    requires i < |st|
    ensures var d, w := Words(st), st[i];
            d[4 * i] == ((w >> 24) & 0xff) as bv8 && d[4 * i + 1] == ((w >> 16) & 0xff) as bv8 &&
            d[4 * i + 2] == ((w >> 8) & 0xff) as bv8 && d[4 * i + 3] == (w & 0xff) as bv8
  {
    if i > 0 {
      WordsAt(st[1..], i - 1);
      hide WordBytes;
      assert Words(st) == WordBytes(st[0]) + Words(st[1..]);
    }
  }
}
