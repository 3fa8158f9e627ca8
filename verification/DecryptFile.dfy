/** Streaming decryption of an encrypted file: a header with the chaining value, then a CBC body whose last
    block is padded (section 6.3 of RFC 5652). Data arrives in chunks of any size. */
module DecryptFile {
  import opened Cbc
  import opened Chunks
  import Sticky

  const MAGIC: Bytes := [0xfb, 0xa2, 0xe9, 0x01]

  /** Bytes of an `n`-byte body written out before the end of the stream is known: all full buffers, except
      that the last block of each is held back. */
  function Done(n: nat): (d: nat)
    ensures d <= n
  {
    if n < 16 then 0 else (n - 16) / 4080 * 4080
  }

  lemma DoneAligned(n: nat)
    ensures Done(n) % 16 == 0
  {
    var q := if n < 16 then 0 else (n - 16) / 4080;
    Sticky.DivModUnique(4080 * q, 16, 255 * q, 0);
  }

  /** The first chaining value: bytes 4 to 20 of the stream. */
  function HeaderIv(s: Bytes): Block
    requires |s| >= 20
  {
    s[4..20]
  }

  /** What the whole stream means: a verdict, and the bytes written out. */
  ghost function Decrypted(dec: Block -> Block, s: Bytes): (bool, Bytes)
  {
    if |s| < 20 || s[..4] != MAGIC then (false, [])
    else
      var body := s[20..];
      var p := Decrypt(dec, HeaderIv(s), body);
      var early := Decrypt(dec, HeaderIv(s), body[..Done(|body|)]);
      if |body| == 0 || |body| % 16 != 0 then (false, early)
      else
        var pad := p[|p| - 1] as int;
        if 1 <= pad <= 16 then (true, p[..|p| - pad]) else (false, early)
  }

  lemma DoneSame(n: nat, l: nat)
    requires n - Done(n) + l < 4096
    ensures Done(n + l) == Done(n)
  {
    if n >= 16 {
      var q := (n - 16) / 4080;
      Sticky.DivModUnique(n + l - 16, 4080, q, n + l - 16 - 4080 * q);
    }
  }

  lemma DoneNext(n: nat, l: nat)
    requires n - Done(n) + l == 4096
    ensures Done(n + l) == Done(n) + 4080
  {
    var q := if n < 16 then 0 else (n - 16) / 4080;
    Sticky.DivModUnique(n + l - 16, 4080, q + 1, 0);
  }

  lemma DoneBelow(n: nat)
    ensures n - Done(n) < 4096 && (n - Done(n)) % 16 == n % 16 && (n >= 16 ==> n - Done(n) >= 16)
  {
    var d := Done(n);
    DoneAligned(n);
    Sticky.DivModUnique(n - d, 16, n / 16 - d / 16, n % 16);
  }

  lemma NextPiece(s: Bytes, data: Bytes, i: nat, l: nat)
    requires i + l <= |data|
    ensures s + data[..i] + data[i..][..l] == s + data[..i + l]
  {
    assert data[..i] + data[i..][..l] == data[..i + l];
  }

  class Decryptor {
    const dec: Block -> Block
    const decBuf: array<bv8>
    /** Whether the write callback takes what it is given the k-th time. */
    const accepts: nat -> bool
    var decState: nat
    var pos: nat
    var iv: Block
    /** Everything the write callback took, and how often it was called. */
    var out: Bytes
    var writes: nat
    /** Everything consumed so far. */
    ghost var fed: Bytes

    /** The state is a function of the bytes consumed, however they were cut. */
    ghost predicate Valid()
      reads this, decBuf
    {
      decBuf.Length == 4096 && if |fed| < 20 then InHeader() else fed[..4] == MAGIC && InBody(fed[20..])
    }

    ghost predicate InHeader()
      reads this, decBuf
      requires decBuf.Length == 4096
    {
      decState == 0 && pos == |fed| < 20 && decBuf[..pos] == fed && out == []
    }

    ghost predicate InBody(body: Bytes)
      reads this, decBuf
      requires decBuf.Length == 4096 && |fed| >= 20
    {
      var d := Done(|body|);
      decState == 1 && pos == |body| - d < 4096 && decBuf[..pos] == body[d..] &&
      iv == Chained(HeaderIv(fed), body[..d]) && out == Decrypt(dec, HeaderIv(fed), body[..d])
    }

    constructor (dec0: Block -> Block, accepts0: nat -> bool)
      ensures Valid() && dec == dec0 && accepts == accepts0 && fed == [] && out == [] && writes == 0 && fresh(decBuf)
    {
      dec, accepts := dec0, accepts0;
      decBuf := new bv8[4096];
      decState, pos, iv, out, writes, fed := 0, 0, seq(16, i => 0), [], 0, [];
    }

    /** Hands bytes to the write callback. */
    method Write(data: Bytes) returns (ok: bool)
      modifies `out, `writes
      ensures ok == accepts(old(writes)) && writes == old(writes) + 1
      ensures out == if ok then old(out) + data else old(out)
    {
      ok := accepts(writes);
      writes := writes + 1;
      if ok {
        out := out + data;
      }
    }

    /** Copies bytes to the end of the used part of the buffer. */
    method Append(data: Bytes)
      requires decBuf.Length == 4096 && pos + |data| <= 4096
      modifies `pos, decBuf
      ensures pos == old(pos) + |data| && decBuf[..pos] == old(decBuf[..pos]) + data
    {
      forall i | 0 <= i < |data| {
        decBuf[pos + i] := data[i];
      }
      pos := pos + |data|;
    }

    method HeaderStep(chunk: Bytes) returns (ok: bool)
      requires Valid() && decState == 0 && 0 < |chunk| <= 20 - pos
      modifies `decState, `pos, `iv, `fed, decBuf
      ensures fed == old(fed) + chunk
      ensures ok <==> |fed| < 20 || fed[..4] == MAGIC
      ensures ok ==> Valid()
      ensures !ok ==> |fed| >= 20 && out == []
    {
      Append(chunk);
      fed := fed + chunk;
      ok := true;
      if pos >= 20 {
        if decBuf[..4] != MAGIC {
          assert fed[..4] == decBuf[..4];
          return false;
        }
        iv := decBuf[4..20];
        decState, pos := 1, 0;
        assert fed[20..] == [] && fed[..4] == decBuf[..4] && HeaderIv(fed) == iv;
      }
    }

    method BodyStep(chunk: Bytes) returns (ok: bool)
      requires Valid() && decState == 1 && 0 < |chunk| <= 4096 - pos
      modifies `pos, `iv, `out, `writes, `fed, decBuf
      ensures fed == old(fed) + chunk && |fed| >= 20
      ensures ok ==> Valid()
      ensures !ok ==> writes > 0 && !accepts(writes - 1) && WrittenSoFar()
    {
      hide Done, Decrypt, Chained;
      ghost var body := fed[20..];
      ghost var d := Done(|body|);
      Append(chunk);
      fed := fed + chunk;
      assert fed[20..] == body + chunk && HeaderIv(fed) == HeaderIv(old(fed)) && fed[..4] == old(fed)[..4];
      assert decBuf[..pos] == (body + chunk)[d..] && (body + chunk)[..d] == body[..d];
      ok := true;
      if pos >= 4096 {
        DoneNext(|body|, |chunk|);
        DoneAligned(|body|);
        ok := Emit(body + chunk, d);
      } else {
        DoneSame(|body|, |chunk|);
      }
    }

    /** What was written is the start of the decryption of what was fed. */
    ghost predicate WrittenSoFar()
      reads this
    {
      |fed| >= 20 && out <= Decrypt(dec, HeaderIv(fed), fed[20..])
    }

    /** A full buffer: decrypts and writes all but its last block, and keeps that. */
    method Emit(ghost body: Bytes, ghost d: nat) returns (ok: bool)
      requires decBuf.Length == 4096 && pos == 4096 && decState == 1 && |fed| >= 20 && body == fed[20..]
      requires d % 16 == 0 && |body| == d + 4096 && Done(|body|) == d + 4080 && decBuf[..] == body[d..]
      requires iv == Chained(HeaderIv(fed), body[..d]) && out == Decrypt(dec, HeaderIv(fed), body[..d])
      modifies `pos, `iv, `out, `writes, decBuf
      ensures ok ==> InBody(body)
      ensures !ok ==> writes > 0 && !accepts(writes - 1) && WrittenSoFar()
    {
      hide Done, Decrypt, Chained, HeaderIv;
      var len := pos - 16;
      ghost var full := decBuf[..len];
      assert full == body[d..d + len] && decBuf[len..] == body[d + len..];
      PrefixOut(dec, HeaderIv(fed), body, d);
      DecryptAppend(dec, HeaderIv(fed), body[..d], full);
      assert body[..d] + full == body[..d + len];
      iv := DecryptInPlace(dec, decBuf, len, iv);
      ok := Write(decBuf[..len]);
      if !ok {
        return;
      }
      KeepLast(len);
    }

    /** Moves the last block to the front. */
    method KeepLast(len: nat)
      requires decBuf.Length == 4096 && len == 4080
      modifies `pos, decBuf
      ensures pos == 16 && decBuf[..16] == old(decBuf[len..])
    {
      forall i | 0 <= i < 16 {
        decBuf[i] := decBuf[len + i];
      }
      pos := 16;
    }

    /** Consumes one chunk. A wrong header or a write that fails ends the stream. Sizes pass through a 32-bit int on the
        way: a chunk of 2^31 bytes or more never gets through. */
    method Feed(data: Bytes) returns (r: FeedResult)
      requires Valid()
      modifies this, decBuf
      ensures r == Fed ==> Valid() && fed == old(fed) + data && |data| < 0x8000_0000
      ensures r == Stuck ==> |data| >= 0x8000_0000
      ensures r == BadMagic || r == SinkFailed ==>
                exists k :: 0 <= k <= |data| && fed == old(fed) + data[..k] && |fed| >= 20
      ensures r == BadMagic ==> out == [] && fed[..4] != MAGIC
      ensures r == SinkFailed ==> writes > 0 && !accepts(writes - 1) && WrittenSoFar()
    {
      hide Done, Decrypt, Chained, Valid;
      var i := 0;
      while i < |data|
        invariant i <= |data| && Valid() && fed == old(fed) + data[..i]
        invariant |data| >= 0x8000_0000 ==> |data| - i >= 0x8000_0000
      {
        HasRoom();
        var room := if decState == 0 then 20 - pos else 4096 - pos;
        var l := MinInt(|data| - i, room);
        MinIntIs(|data| - i, room);
        if l <= 0 {
          return Stuck;
        }
        NextPiece(old(fed), data, i, l);
        if decState == 0 {
          var ok := HeaderStep(data[i..][..l]);
          if !ok {
            return BadMagic;
          }
        } else {
          var ok := BodyStep(data[i..][..l]);
          if !ok {
            return SinkFailed;
          }
        }
        i := i + l;
      }
      assert data[..|data|] == data;
      return Fed;
    }

    /** There is room for more of the header, or of the body. */
    lemma HasRoom()
      requires Valid()
      ensures if decState == 0 then pos < 20 else decState == 1 && pos < 4096
    {
      hide Done, Decrypt, Chained;
    }

    /** The end of the stream: checks and strips the padding of what is held back, and writes the rest. */
    method Flush() returns (ok: bool)
      requires Valid()
      modifies this, decBuf
      ensures (ok, out) == Decrypted(dec, old(fed)) ||
              (!ok && writes == old(writes) + 1 && !accepts(old(writes)) && out == old(out))
      ensures accepts(old(writes)) ==> (ok, out) == Decrypted(dec, old(fed))
    {
      hide Done, Decrypt, Chained, Decrypted, HeaderIv, Whole;
      EndOfStream(dec, fed);
      if decState != 1 {
        return false;
      }
      ghost var body := fed[20..];
      DoneBelow(|body|);
      var len := pos;
      if len == 0 || len % 16 != 0 {
        return false;
      }
      WholeIs(len);
      iv := DecryptInPlace(dec, decBuf, len, iv);
      ok := WriteStripped(len);
      assert out + [] == out;
    }

    /** Writes the `n` bytes held back without their padding, if its length is right. */
    method WriteStripped(n: nat) returns (ok: bool)
      requires 16 <= n <= decBuf.Length
      modifies `out, `writes
      ensures var held := decBuf[..n];
              var pad := held[n - 1] as int;
              if !(1 <= pad <= 16) then !ok && out == old(out)
              else if pad == n then ok && out == old(out)
              else ok == accepts(old(writes)) && writes == old(writes) + 1 &&
                   out == if ok then old(out) + held[..n - pad] else old(out)
    {
      var padLen := decBuf[n - 1] as int;
      if padLen < 1 || padLen > 16 {
        return false;
      }
      var len := n - padLen;
      assert decBuf[..len] == decBuf[..n][..len];
      ok := true;
      if len != 0 {
        ok := Write(decBuf[..len]);
      }
    }
  }

  datatype FeedResult = Fed | BadMagic | SinkFailed | Stuck

  lemma WholeIs(n: nat)
    requires n % 16 == 0
    ensures Whole(n) == n
  {
  }

  lemma PrefixOut(dec: Block -> Block, iv: Block, body: Bytes, d: nat)
    requires d <= |body| && d % 16 == 0
    ensures Decrypt(dec, iv, body[..d]) <= Decrypt(dec, iv, body)
  {
    assert body == body[..d] + body[d..];
    DecryptAppend(dec, iv, body[..d], body[d..]);
  }

  /** The outcome, from the bytes written early and those held back. */
  lemma EndOfStream(dec: Block -> Block, s: Bytes)
    ensures |s| < 20 ==> Decrypted(dec, s) == (false, [])
    ensures |s| >= 20 && s[..4] == MAGIC ==>
              var body := s[20..];
              var d := Done(|body|);
              var n, early := |body| - d, Decrypt(dec, HeaderIv(s), body[..d]);
              var held := Decrypt(dec, Chained(HeaderIv(s), body[..d]), body[d..]);
              if n == 0 || n % 16 != 0 then Decrypted(dec, s) == (false, early)
              else |held| == n >= 16 &&
                   Decrypted(dec, s) == if 1 <= held[n - 1] as int <= 16
                     then (true, early + held[..n - held[n - 1] as int]) else (false, early)
  {
    hide Done, Decrypt, Chained;
    if |s| >= 20 && s[..4] == MAGIC {
      var body := s[20..];
      DoneBelow(|body|);
      DoneAligned(|body|);
      if |body| % 16 == 0 && |body| > 0 {
        var d := Done(|body|);
        DecryptHeld(dec, HeaderIv(s), body, d);
        var early := Decrypt(dec, HeaderIv(s), body[..d]);
        var held := Decrypt(dec, Chained(HeaderIv(s), body[..d]), body[d..]);
        TailOf(early, held, held[|held| - 1] as int);
      }
    }
  }

  lemma TailOf(x: Bytes, y: Bytes, k: nat)
    requires |y| > 0
    ensures (x + y)[|x| + |y| - 1] == y[|y| - 1]
    ensures k <= |y| ==> (x + y)[..|x| + |y| - k] == x + y[..|y| - k]
  {
  }

  lemma DecryptHeld(dec: Block -> Block, iv: Block, body: Bytes, d: nat)
    requires d <= |body| && d % 16 == 0 && |body| % 16 == 0
    ensures Decrypt(dec, iv, body) == Decrypt(dec, iv, body[..d]) + Decrypt(dec, Chained(iv, body[..d]), body[d..])
    ensures |Decrypt(dec, iv, body)| == |body| && |Decrypt(dec, iv, body[..d])| == d
    ensures |Decrypt(dec, Chained(iv, body[..d]), body[d..])| == |body| - d
  {
    assert body == body[..d] + body[d..];
    DecryptAppend(dec, iv, body[..d], body[d..]);
  }

  /** However the stream is cut into chunks, the verdict and the bytes written are those of the whole. */
  method DecryptChunks(dec: Block -> Block, chunks: seq<Bytes>) returns (ok: bool, plain: Bytes)
    requires forall c :: c in chunks ==> |c| < 0x8000_0000
    ensures (ok, plain) == Decrypted(dec, Flatten(chunks))
  {
    hide Done, Decrypt, Chained, Flatten;
    var s := new Decryptor(dec, k => true);
    assert Flatten(chunks[..0]) == [] by {
      FlattenNothing(chunks);
    }
    for i := 0 to |chunks|
      invariant s.Valid() && s.dec == dec && (forall k :: s.accepts(k)) && s.fed == Flatten(chunks[..i])
      invariant fresh(s) && fresh(s.decBuf)
    {
      FlattenNext(chunks, i);
      assert chunks[i] in chunks;
      var r := s.Feed(chunks[i]);
      if r != Fed {
        ghost var fed := s.fed;
        assert fed <= Flatten(chunks);
        assert Flatten(chunks)[..4] == fed[..4];
        return false, s.out;
      }
    }
    FlattenAll(chunks);
    ok := s.Flush();
    plain := s.out;
  }

  // ---- downloading to a file ----

  /** What the caller of a download is told. */
  datatype Report = Complete(size: nat) | Failed

  /** The stream is long enough to show its magic, and it is another. */
  predicate WrongMagic(s: Bytes) { |s| >= 20 && s[..4] != MAGIC }

  /** A download that decrypts into a file: the verdict on the end of the stream is not looked at. So the report agrees
      with it exactly if it is good, or the magic was wrong already. */
  method DownloadFile(dec: Block -> Block, accepts: nat -> bool, chunks: seq<Bytes>) returns (r: Report, plain: Bytes)
    requires forall c :: c in chunks ==> |c| < 0x8000_0000
    ensures r.Complete? ==> r.size == |plain| && !WrongMagic(Flatten(chunks))
    ensures (forall k :: accepts(k)) ==>
              (r.Failed? <==> WrongMagic(Flatten(chunks))) && plain == Decrypted(dec, Flatten(chunks)).1 &&
              ((r.Complete? <==> Decrypted(dec, Flatten(chunks)).0) <==>
               Decrypted(dec, Flatten(chunks)).0 || WrongMagic(Flatten(chunks)))
  {
    hide Done, Decrypt, Chained, Flatten;
    var s := new Decryptor(dec, accepts);
    assert Flatten(chunks[..0]) == [] by {
      FlattenNothing(chunks);
    }
    for i := 0 to |chunks|
      invariant s.Valid() && s.dec == dec && s.accepts == accepts && s.fed == Flatten(chunks[..i])
      invariant fresh(s) && fresh(s.decBuf)
    {
      FlattenNext(chunks, i);
      assert chunks[i] in chunks;
      var f := s.Feed(chunks[i]);
      if f != Fed {
        ghost var fed := s.fed;
        assert fed <= Flatten(chunks);
        assert Flatten(chunks)[..4] == fed[..4];
        return Failed, s.out;
      }
    }
    FlattenAll(chunks);
    var _ := s.Flush();
    return Complete(|s.out|), s.out;
  }

  const HEADER: Bytes := MAGIC + [0, 0, 0, 0, 0, 0, 0, 0, 0, 0, 0, 0, 0, 0, 0, 0]

  /** A header and nothing else: the download is complete, the stream is not. */
  method HeaderOnly(dec: Block -> Block) returns (r: Report)
    ensures r == Complete(0) && !Decrypted(dec, HEADER).0
  {
    assert HEADER[..4] == MAGIC;
    FlattenOne(HEADER);
    var plain;
    r, plain := DownloadFile(dec, _ => true, [HEADER]);
    assert HEADER[20..][..Done(0)] == [];
  }

  // ---- the inverse ----

  /** 1 to 16 bytes, each holding their number, up to a whole number of blocks. */
  function Padding(n: nat): (p: Bytes)
    ensures 1 <= |p| <= 16 && (n + |p|) % 16 == 0
  {
    seq(16 - n % 16, i => (16 - n % 16) as bv8)
  }

  function Encrypted(enc: Block -> Block, iv: Block, plain: Bytes): Bytes
  {
    MAGIC + iv + Encrypt(enc, iv, plain + Padding(|plain|))
  }

  lemma PadByte(k: nat)
    requires k <= 16
    ensures (k as bv8) as int == k
  {
  }

  /** A file encrypted this way decrypts to its contents. */
  lemma DecryptedEncrypted(enc: Block -> Block, dec: Block -> Block, iv: Block, plain: Bytes)
    requires forall b: Block :: dec(enc(b)) == b
    ensures Decrypted(dec, Encrypted(enc, iv, plain)) == (true, plain)
  {
    hide Encrypt, Decrypt, Done;
    var pad := Padding(|plain|);
    var s, p := Encrypted(enc, iv, plain), plain + pad;
    PadByte(16 - |plain| % 16);
    assert s[..4] == MAGIC && HeaderIv(s) == iv && s[20..] == Encrypt(enc, iv, p);
    EncryptLength(enc, iv, p);
    DecryptEncrypt(enc, dec, iv, p);
    assert p[|p| - 1] == pad[|pad| - 1] && p[..|p| - |pad|] == plain;
  }

  lemma EncryptLength(enc: Block -> Block, iv: Block, p: Bytes)
    requires |p| % 16 == 0
    ensures |Encrypt(enc, iv, p)| == |p|
  {
  }
}
