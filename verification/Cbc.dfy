/** Cipher block chaining over an abstract 16-byte block cipher (section 6.2 of NIST SP 800-38A). */
module Cbc {
  type Bytes = seq<bv8>

  type Block = b: seq<bv8> | |b| == 16 witness seq(16, i => 0)

  function Xor(a: Bytes, b: Bytes): (r: Bytes)
    requires |a| == |b|
    ensures |r| == |a|
  {
    seq(|a|, i requires 0 <= i < |a| => a[i] ^ b[i])
  }

  lemma XorTwice(a: Bytes, b: Bytes)
    requires |a| == |b|
    ensures Xor(Xor(a, b), b) == a
  {
    forall i | 0 <= i < |a|
      ensures Xor(Xor(a, b), b)[i] == a[i]
    {
      XorBit(a[i], b[i]);
    }
  }

  lemma XorBit(x: bv8, y: bv8)
    ensures (x ^ y) ^ y == x
  {
  }

  /** Whole blocks only. */
  function Encrypt(enc: Block -> Block, iv: Block, p: Bytes): (c: Bytes)
    ensures |c| == |p| / 16 * 16
    decreases |p|
  {
    if |p| < 16 then [] else
      var c: Bytes := enc(Xor(p[..16], iv));
      c + Encrypt(enc, c, p[16..])
  }

  function Decrypt(dec: Block -> Block, iv: Block, c: Bytes): (p: Bytes)
    ensures |p| == |c| / 16 * 16
    decreases |c|
  {
    if |c| < 16 then [] else Xor(dec(c[..16]), iv) + Decrypt(dec, c[..16], c[16..])
  }

  /** The last whole block of `c`, or `iv` if there is none: the next chaining value. */
  function Chained(iv: Block, c: Bytes): Block
    decreases |c|
  {
    if |c| < 16 then iv else Chained(c[..16], c[16..])
  }

  /** Decrypting undoes encrypting. */
  lemma {:induction false} DecryptEncrypt(enc: Block -> Block, dec: Block -> Block, iv: Block, p: Bytes)
    requires |p| % 16 == 0 && forall b: Block :: dec(enc(b)) == b
    ensures Decrypt(dec, iv, Encrypt(enc, iv, p)) == p
    decreases |p|
  {
    if |p| >= 16 {
      var x: Block := Xor(p[..16], iv);
      var c: Bytes := enc(x);
      var rest := Encrypt(enc, c, p[16..]);
      assert (c + rest)[..16] == c && (c + rest)[16..] == rest;
      DecryptEncrypt(enc, dec, c, p[16..]);
      XorTwice(p[..16], iv);
      assert p == p[..16] + p[16..];
    }
  }

  /** Decryption can be cut at any block boundary, carrying the chaining value over. */
  lemma {:induction false} DecryptAppend(dec: Block -> Block, iv: Block, x: Bytes, y: Bytes)
    requires |x| % 16 == 0
    ensures Decrypt(dec, iv, x + y) == Decrypt(dec, iv, x) + Decrypt(dec, Chained(iv, x), y)
    ensures Chained(iv, x + y) == Chained(Chained(iv, x), y)
    decreases |x|
  {
    if |x| == 0 {
      assert x + y == y;
    } else {
      var b := x[..16];
      assert (x + y)[..16] == b && (x + y)[16..] == x[16..] + y;
      DecryptAppend(dec, b, x[16..], y);
      assert Decrypt(dec, iv, x + y) ==
             Xor(dec(b), iv) + (Decrypt(dec, b, x[16..]) + Decrypt(dec, Chained(b, x[16..]), y));
    }
  }

  lemma DecryptBlock(dec: Block -> Block, iv: Block, b: Block)
    ensures Decrypt(dec, iv, b) == Xor(dec(b), iv) && Chained(iv, b) == b
  {
    assert b[..16] == b && b[16..] == [];
  }

  /** One block of the buffer, in place. */
  method DecryptOne(dec: Block -> Block, buf: array<bv8>, n: nat, iv: Block) returns (tmp: Block)
    requires n + 16 <= buf.Length
    modifies buf
    ensures tmp == old(buf[n..n + 16])
    ensures buf[..] == old(buf[..n]) + Xor(dec(tmp), iv) + old(buf[n + 16..])
  {
    tmp := buf[n..n + 16];
    var plain := Xor(dec(tmp), iv);
    forall i | 0 <= i < 16 {
      buf[n + i] := plain[i];
    }
  }

  /** The buffer with its first `n` bytes decrypted. */
  ghost function PartlyDecrypted(dec: Block -> Block, iv: Block, c: Bytes, n: nat): Bytes
    requires n <= |c|
  {
    Decrypt(dec, iv, c[..n]) + c[n..]
  }

  lemma OneMoreBlock(dec: Block -> Block, iv: Block, c: Bytes, n: nat, b: Bytes)
    requires n % 16 == 0 && n + 16 <= |c| && b == PartlyDecrypted(dec, iv, c, n)
    ensures |b| == |c| && b[n..n + 16] == c[n..n + 16]
    ensures var tmp: Block := c[n..n + 16];
            b[..n] + Xor(dec(tmp), Chained(iv, c[..n])) + b[n + 16..] == PartlyDecrypted(dec, iv, c, n + 16) &&
            Chained(iv, c[..n + 16]) == tmp
  {
    var tmp: Block := c[n..n + 16];
    assert c[..n + 16] == c[..n] + tmp;
    assert |Decrypt(dec, iv, c[..n])| == n;
    DecryptAppend(dec, iv, c[..n], tmp);
    DecryptBlock(dec, Chained(iv, c[..n]), tmp);
    hide Decrypt, Chained, Xor;
    assert b[..n] == Decrypt(dec, iv, c[..n]) && b[n + 16..] == c[n + 16..];
  }

  /** Whole blocks, in place, one at a time; returns the next chaining value. */
  method DecryptBlocks(dec: Block -> Block, buf: array<bv8>, len: nat, iv0: Block) returns (iv: Block)
    requires len % 16 == 0 && len <= buf.Length
    modifies buf
    ensures buf[..len] == Decrypt(dec, iv0, old(buf[..len]))
    ensures buf[len..] == old(buf[len..])
    ensures iv == Chained(iv0, old(buf[..len]))
  {
    hide Xor, PartlyDecrypted;
    ghost var c := buf[..];
    var n := 0;
    iv := iv0;
    StartDecrypted(dec, iv0, c);
    while n < len
      invariant n % 16 == 0 && n <= len
      invariant buf[..] == PartlyDecrypted(dec, iv0, c, n) && iv == Chained(iv0, c[..n])
    {
      OneMoreBlock(dec, iv0, c, n, buf[..]);
      ghost var b := buf[..];
      assert buf[..n] == b[..n] && buf[n + 16..] == b[n + 16..] && buf[n..n + 16] == b[n..n + 16];
      iv := DecryptOne(dec, buf, n, iv);
      n := n + 16;
    }
    FullyDecrypted(dec, iv0, c, len, buf[..]);
    assert c[..len] == old(buf[..len]) && c[len..] == old(buf[len..]);
  }

  /** `len` rounded up to whole blocks. */
  function Whole(len: nat): nat { (len + 15) / 16 * 16 }

  /** Decrypts the first `len` bytes in place. A last block that is not wanted whole is read whole and decrypted, and
      only its first bytes are replaced; the chaining value is then the decrypted block, which chains nothing. */
  method DecryptInPlace(dec: Block -> Block, buf: array<bv8>, len: nat, iv0: Block) returns (iv: Block)
    requires Whole(len) <= buf.Length
    modifies buf
    ensures buf[..len] == Decrypt(dec, iv0, old(buf[..Whole(len)]))[..len]
    ensures buf[len..] == old(buf[len..])
    ensures len % 16 == 0 ==> buf[..len] == Decrypt(dec, iv0, old(buf[..len])) && iv == Chained(iv0, old(buf[..len]))
    ensures len % 16 != 0 ==> iv == dec(old(buf[Whole(len) - 16..Whole(len)]))
  {
    hide Decrypt, Chained, Xor;
    ghost var c := buf[..];
    var n := len / 16 * 16;
    WholeBlocks(dec, iv0, c, len);
    hide Whole;
    assert c[..n] == buf[..n] && c[n..] == buf[n..];
    iv := DecryptBlocks(dec, buf, n, iv0);
    if len != n {
      ghost var b := buf[..];
      TailDone(dec, iv0, c, b, n, len, iv);
      assert buf[..n] == b[..n] && buf[len..] == b[len..] && buf[n..n + 16] == b[n..n + 16];
      iv := DecryptTail(dec, buf, n, len, iv);
    }
  }

  /** The buffer before the last block, and after it. */
  lemma TailDone(dec: Block -> Block, iv: Block, c: Bytes, b: Bytes, n: nat, len: nat, v: Block)
    requires n % 16 == 0 && n <= len < n + 16 <= |c| == |b| && v == Chained(iv, c[..n])
    requires b[..n] == Decrypt(dec, iv, c[..n]) && b[n..] == c[n..]
    ensures b[n..n + 16] == c[n..n + 16] && b[len..] == c[len..]
    ensures var tmp: Block := c[n..n + 16];
            |Decrypt(dec, iv, c[..n + 16])| == n + 16 &&
            b[..n] + Xor(dec(tmp), v)[..len - n] == Decrypt(dec, iv, c[..n + 16])[..len]
  {
    assert b[n..n + 16] == b[n..][..16] && c[n..n + 16] == c[n..][..16];
    assert b[len..] == b[n..][len - n..] && c[len..] == c[n..][len - n..];
    LastBlock(dec, iv, c, n, len, v);
  }

  lemma WholeBlocks(dec: Block -> Block, iv: Block, c: Bytes, len: nat)
    requires Whole(len) <= |c|
    ensures len % 16 == 0 ==> Whole(len) == len && Decrypt(dec, iv, c[..len])[..len] == Decrypt(dec, iv, c[..len])
    ensures len % 16 != 0 ==> Whole(len) == len / 16 * 16 + 16
    ensures len == len / 16 * 16 + len % 16
  {
  }

  /** The first bytes of a last block. */
  method DecryptTail(dec: Block -> Block, buf: array<bv8>, n: nat, len: nat, iv: Block) returns (tmp: Block)
    requires n <= len < n + 16 <= buf.Length
    modifies buf
    ensures tmp == dec(old(buf[n..n + 16]))
    ensures buf[..len] == old(buf[..n]) + Xor(tmp, iv)[..len - n] && buf[len..] == old(buf[len..])
  {
    tmp := dec(buf[n..n + 16]);
    var plain := Xor(tmp, iv);
    forall i | 0 <= i < len - n {
      buf[n + i] := plain[i];
    }
  }

  lemma LastBlock(dec: Block -> Block, iv: Block, c: Bytes, n: nat, len: nat, v: Block)
    requires n % 16 == 0 && n <= len <= n + 16 <= |c| && v == Chained(iv, c[..n])
    ensures |Decrypt(dec, iv, c[..n])| == n && |Decrypt(dec, iv, c[..n + 16])| == n + 16
    ensures var tmp: Block := c[n..n + 16];
            Decrypt(dec, iv, c[..n + 16])[..len] == Decrypt(dec, iv, c[..n]) + Xor(dec(tmp), v)[..len - n]
  {
    var tmp: Block := c[n..n + 16];
    assert c[..n + 16] == c[..n] + tmp;
    DecryptAppend(dec, iv, c[..n], tmp);
    DecryptBlock(dec, v, tmp);
  }

  lemma StartDecrypted(dec: Block -> Block, iv: Block, c: Bytes)
    ensures PartlyDecrypted(dec, iv, c, 0) == c && Chained(iv, c[..0]) == iv
  {
  }

  lemma FullyDecrypted(dec: Block -> Block, iv: Block, c: Bytes, n: nat, b: Bytes)
    requires n % 16 == 0 && n <= |c| && b == PartlyDecrypted(dec, iv, c, n)
    ensures |b| == |c| && b[..n] == Decrypt(dec, iv, c[..n]) && b[n..] == c[n..]
  {
    assert |Decrypt(dec, iv, c[..n])| == n;
  }

  // ---- the mode block by block ----

  /** Block `k` of `s`, or `iv` before the first. */
  function BlockBefore(iv: Block, s: Bytes, k: nat): Block
    requires 16 * k <= |s|
  {
    if k == 0 then iv else s[16 * (k - 1)..16 * k]
  }

  /** What goes into the cipher for block `k` is the block combined with the ciphertext before it. */
  lemma {:induction false} EncryptAt(enc: Block -> Block, iv: Block, p: Bytes, k: nat)
    requires 16 * k + 16 <= |p|
    ensures var c := Encrypt(enc, iv, p);
            c[16 * k..16 * k + 16] == enc(Xor(p[16 * k..16 * k + 16], BlockBefore(iv, c, k)))
    decreases k
  {
    hide Xor;
    var all, c: Block := Encrypt(enc, iv, p), enc(Xor(p[..16], iv));
    var rest := Encrypt(enc, c, p[16..]);
    assert all == c + rest;
    if k > 0 {
      EncryptAt(enc, c, p[16..], k - 1);
      hide Encrypt;
      assert all[16 * k..16 * k + 16] == rest[16 * (k - 1)..16 * (k - 1) + 16];
      assert BlockBefore(iv, all, k) == BlockBefore(c, rest, k - 1);
      assert p[16..][16 * (k - 1)..16 * (k - 1) + 16] == p[16 * k..16 * k + 16];
    }
  }

  /** What comes out for block `k` is what the cipher gives, combined with the ciphertext before it. */
  lemma {:induction false} DecryptAt(dec: Block -> Block, iv: Block, c: Bytes, k: nat)
    requires 16 * k + 16 <= |c|
    ensures Decrypt(dec, iv, c)[16 * k..16 * k + 16] == Xor(dec(c[16 * k..16 * k + 16]), BlockBefore(iv, c, k))
    decreases k
  {
    hide Xor;
    var all, b: Block := Decrypt(dec, iv, c), c[..16];
    var rest := Decrypt(dec, b, c[16..]);
    assert all == Xor(dec(b), iv) + rest;
    if k > 0 {
      DecryptAt(dec, b, c[16..], k - 1);
      hide Decrypt;
      assert all[16 * k..16 * k + 16] == rest[16 * (k - 1)..16 * (k - 1) + 16];
      assert c[16..][16 * (k - 1)..16 * (k - 1) + 16] == c[16 * k..16 * k + 16];
      assert BlockBefore(b, c[16..], k - 1) == BlockBefore(iv, c, k);
    }
  }
}
