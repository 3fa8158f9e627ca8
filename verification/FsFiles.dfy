/** Regular files and directories of the network filesystem: contents, where they come from, the handles on them, the
    block quota and the cache of loaded files. */
module FsFiles {
  import Sticky
  import opened FsNodes

  datatype OpenResult = Opened | Pending | Refused(status: Status)

  class Files {
    const blockSize: nat
    const cacheLimit: int
    const host: Host
    var maxBlocks: int
    var list: seq<nat>
    var files: map<nat, File>
    /** Loaded, unmodified files, most recently used first. */
    var cache: seq<nat>
    var cacheSize: int
    var fsBlocks: int
    var handles: map<nat, Handle>
    /** For files being loaded, the handle that will be opened when they are here. */
    var waiting: map<nat, nat>

    /** Every opened file is held and its contents are here, whatever happens to the cache. */
    ghost predicate Held()
      reads this
    {
      HeldOk(handles, waiting, files)
    }

    /** Every byte and every block is accounted for once, and no file is larger than its buffer. */
    ghost predicate Valid()
      reads this
    {
      0 < blockSize < TWO_31 && ListOk(list, files, host) && fsBlocks == Sum(InBlocks(blockSize), list, files) &&
      CacheOk(files, cache) && cacheSize == Sum(InBytes, cache, files) && fsBlocks < TWO_63 && maxBlocks < TWO_63
    }

    /** A file whose contents are here. */
    predicate Present(i: nat)
      reads this
    {
      i in files && IsPresent(files[i])
    }

    constructor (blockSize0: nat, cacheLimit0: int, maxBlocks0: int, host0: Host)
      requires 0 < blockSize0 < TWO_31 && maxBlocks0 < TWO_63
      ensures Valid() && Held() && files == map[] && handles == map[] && waiting == map[] && fsBlocks == 0 &&
              cacheSize == 0
      ensures blockSize == blockSize0 && cacheLimit == cacheLimit0 && maxBlocks == maxBlocks0 && host == host0
    {
      blockSize, cacheLimit, maxBlocks, host := blockSize0, cacheLimit0, maxBlocks0, host0;
      list, files, cache, cacheSize, fsBlocks, handles, waiting := [], map[], [], 0, 0, map[], map[];
    }

    /** Replaces a file by one that is not in the cache list; a loaded one leaves the list. */
    method Put(i: nat, f: File)
      requires Valid() && i in files && f.state != Loaded
      modifies `files, `cache, `cacheSize, `fsBlocks
      ensures files == old(files)[i := f] && (Valid() <==> FileOk(f, host) && fsBlocks < TWO_63)
      ensures fsBlocks == old(fsBlocks) - Blocks(old(files)[i].size, blockSize) + Blocks(f.size, blockSize)
      ensures cacheSize == old(cacheSize) - (if old(files)[i].state == Loaded then old(files)[i].size else 0)
      ensures cache == if old(files)[i].state == Loaded && i in old(cache) then Unlink(old(cache), i) else old(cache)
      ensures old(Held()) && KeepsHandles(old(files)[i], f, i in waiting) ==> Held()
    {
      hide ListOk, FileOk, Blocks, Sum, HeldOk, KeepsHandles;
      if Held() && KeepsHandles(files[i], f, i in waiting) {
        HeldStill(handles, waiting, files, i, f);
      }
      ListUpdate(list, files, i, f, host);
      SumUpdate(InBlocks(blockSize), list, files, i, f);
      fsBlocks := fsBlocks - Blocks(files[i].size, blockSize) + Blocks(f.size, blockSize);
      if files[i].state == Loaded {
        CacheDrop(files, cache, i, f);
        UnlinkRest(cache, i);
        cacheSize := cacheSize - files[i].size;
        cache := Unlink(cache, i);
      } else {
        CacheKeep(files, cache, i, f);
      }
      files := files[i := f];
    }

    // ---- contents ----

    /** The blocks in use if file `i` had another size. */
    function BlocksWith(i: nat, size: nat): int
      requires i in files && blockSize > 0
      reads this
    {
      fsBlocks - Blocks(files[i].size, blockSize) + Blocks(size, blockSize)
    }

    /** Changes a file's size. Memory gained from the allocator holds anything. A file that grows by half a word or more
        is taken for one that shrinks: it gets its size without the memory for it. */
    method Truncate(i: nat, size: nat, junk: nat -> bv8, allocOk: bool) returns (r: Status)
      requires Valid() && i in files && size < TWO_64
      modifies `files, `cache, `cacheSize, `fsBlocks
      ensures i in files && files == old(files)[i := files[i]] && files[i].openCount == old(files)[i].openCount
      ensures var f := old(files)[i];
              Valid() <==> !(r == Ok && IsPresent(f) && size - f.size >= host.Half() && size > |f.buf|)
      ensures old(Held()) ==> Held()
      ensures r == Ok ==> files[i].size == size && fsBlocks == old(BlocksWith(i, size))
      ensures r == Ok && old(Present(i)) ==>
                ResizedTo(old(files)[i], files[i], size, host) &&
                (0 < size - old(files)[i].size < host.Half() ==> fsBlocks <= maxBlocks)
      ensures r == Ok && old(files)[i].state == Unloaded ==>
                var state := if size == 0 && old(files)[i].size != 0 then Local else Unloaded;
                files[i] == old(files)[i].(size := size, state := state)
      ensures r == Ok && size == old(files)[i].size ==> files == old(files)
      ensures r != Ok ==> files == old(files) && fsBlocks == old(fsBlocks)
      ensures cache == if r == Ok && old(files)[i].state == Loaded && size != old(files)[i].size && i in old(cache)
                       then Unlink(old(cache), i) else old(cache)
      ensures r == EINVAL <==> old(files)[i].state == Directory
      ensures files[i].state == Directory <==> old(files)[i].state == Directory
      ensures r == EIO <==> old(files)[i].state == Loading && size < host.Word() && size != old(files)[i].size
      ensures r == ENOSPC ==>
                size >= host.Word() ||
                (old(Present(i)) && size != files[i].size &&
                 (!allocOk || (old(BlocksWith(i, size)) > maxBlocks && host.Signed(size - files[i].size) > 0)))
      ensures r == Undefined ==>
                old(BlocksWith(i, size)) >= TWO_63 || (old(Present(i)) && size - files[i].size < -host.Half())
      ensures size >= host.Word() && r != EINVAL ==> r == ENOSPC
      ensures old(Present(i)) && 0 < size - old(files)[i].size < host.Half() ==> r != Undefined
      ensures r == Ok || r == EIO || r == ENOSPC || r == EINVAL || r == Undefined
    {
      hide Sum, CacheOk, Blocks, HeldOk;
      if Held() {
        Waiting(i);
      }
      var f := files[i];
      assert FileOk(f, host);
      hide ListOk, Resized, Unlink;
      if f.state == Directory {
        return EINVAL;
      }
      if size >= host.Word() {
        return ENOSPC;
      }
      SignedIs(host, size - f.size);
      if host.Signed(size - f.size) == 0 {
        Unresized(f, host);
        return Ok;
      }
      hide Host.Signed, ResizedTo;
      if f.state == Loading {
        return EIO;
      }
      if f.state == Unloaded {
        if BlocksWith(i, size) >= TWO_63 {
          return Undefined;
        }
        Put(i, f.(size := size, state := if size == 0 then Local else Unloaded));
        return Ok;
      }
      r := Resize(i, size, junk, allocOk);
    }

    /** Changes the size of a file whose contents are here. */
    method Resize(i: nat, size: nat, junk: nat -> bv8, allocOk: bool) returns (r: Status)
      requires Valid() && Present(i) && size < host.Word() && size != files[i].size
      modifies `files, `cache, `cacheSize, `fsBlocks
      ensures i in files && files == old(files)[i := files[i]] && (old(Held()) ==> Held())
      ensures var f := old(files)[i];
              Valid() <==> !(r == Ok && size - f.size >= host.Half() && size > |f.buf|)
      ensures r == Ok ==>
                fsBlocks == old(BlocksWith(i, size)) && ResizedTo(old(files)[i], files[i], size, host) &&
                files[i].openCount == old(files)[i].openCount && files[i].size == size && files[i].state == Local &&
                (0 < size - old(files)[i].size < host.Half() ==> fsBlocks <= maxBlocks)
      ensures r != Ok ==> files == old(files) && fsBlocks == old(fsBlocks)
      ensures cache == if r == Ok && old(files)[i].state == Loaded && i in old(cache) then Unlink(old(cache), i)
                       else old(cache)
      ensures r == ENOSPC ==>
                !allocOk || (old(BlocksWith(i, size)) > maxBlocks && host.Signed(size - files[i].size) > 0)
      ensures r == Undefined ==>
                (old(BlocksWith(i, size)) >= TWO_63 || size - files[i].size < -host.Half()) &&
                !(0 < size - files[i].size < host.Half())
      ensures r == Ok || r == ENOSPC || r == Undefined
    {
      hide Sum, CacheOk, Blocks, HeldOk;
      if Held() {
        Waiting(i);
      }
      var f := files[i];
      assert FileOk(f, host);
      hide ListOk, Resized;
      SignedIs(host, size - f.size);
      var diff, blocks := host.Signed(size - f.size), BlocksWith(i, size);
      hide Host.Signed;
      if diff > 0 && blocks > maxBlocks {
        return ENOSPC;
      }
      var buf;
      r, buf := ResizeBuffer(f.buf, f.size, size, host, junk, allocOk);
      if r != Ok {
        return;
      }
      if blocks >= TWO_63 {
        return Undefined;
      }
      ResizedIff(f, size, buf, host);
      hide ZeroSlack;
      Put(i, f.(size := size, buf := buf, state := Local));
    }

    /** Only a file being loaded is waited for. */
    lemma Waiting(i: nat)
      requires Held() && i in files
      ensures i in waiting ==> files[i].state == Loading
    {
    }

    /** A live handle is counted, and an opened one finds its file. */
    lemma Holding(h: nat)
      requires Held() && h in handles
      ensures handles[h].inode in files && files[handles[h].inode].openCount > 0
      ensures handles[h].isOpened && files[handles[h].inode].state != Directory ==> Present(handles[h].inode)
    {
      hide HeldOk;
      HeldSome(handles, waiting, files, h);
    }

    /** Writes through a handle. The end of the data is computed modulo 2^64, and the file grown to that. */
    method Write(h: nat, offset: nat, data: Bytes, junk: nat -> bv8, allocOk: bool) returns (r: Status, count: nat)
      requires Valid() && Held() && h in handles && offset < TWO_64 && |data| < TWO_31
      modifies `files, `cache, `cacheSize, `fsBlocks
      ensures Held() && (r != Undefined ==> Valid()) && handles[h].inode in files && handles[h].inode in old(files)
      ensures files == old(files)[handles[h].inode := files[handles[h].inode]]
      ensures !handles[h].isOpened ==> r == EPROTO
      ensures handles[h].isOpened && (old(files)[handles[h].inode].state == Directory || !handles[h].writable) ==>
                r == EIO
      ensures r == Ok || r == ENOSPC || r == Undefined ==>
                handles[h].isOpened && handles[h].writable && old(Present(handles[h].inode))
      ensures r == Ok ==> count == |data| && Present(handles[h].inode)
      ensures r == Ok && data != [] ==>
                var f, g, e := old(files)[handles[h].inode], files[handles[h].inode], offset + |data|;
                e < TWO_64 && g.state == Local && f.size <= |f.buf| && g.size <= |g.buf| &&
                (Contents(g) == Written(Contents(f), offset, data) <==>
                 e - f.size < host.Half() || GapZero(f, offset))
      ensures (r == Ok && data == []) || (r != Ok && r != Undefined) ==>
                files == old(files) && fsBlocks == old(fsBlocks) && cache == old(cache)
      ensures cache == if old(files)[handles[h].inode].state == Loaded && handles[h].inode in old(cache) &&
                          files[handles[h].inode].state == Local
                       then Unlink(old(cache), handles[h].inode) else old(cache)
      ensures r == Undefined ==>
                var e, size := offset + |data|, old(files)[handles[h].inode].size;
                data != [] && (e >= TWO_64 || e - size >= host.Half())
      ensures r == ENOSPC ==>
                var i, e := handles[h].inode, EndOf(offset, |data|);
                e >= host.Word() || (e > files[i].size && (!allocOk || BlocksWith(i, e) > maxBlocks))
      ensures r == Ok || r == ENOSPC || r == Undefined || r == EPROTO || r == EIO
      ensures handles[h].isOpened && handles[h].writable && old(Present(handles[h].inode)) && data != [] &&
              offset + |data| >= TWO_64 ==>
                r == Undefined || r == ENOSPC
    {
      hide Sum, CacheOk, Blocks, HeldOk, ListOk, Resized, Written, GapZero, ZeroSlack, Contents, EndOf, Unlink;
      Holding(h);
      var i := handles[h].inode;
      if !handles[h].isOpened {
        return EPROTO, 0;
      }
      if files[i].state == Directory || !handles[h].writable {
        return EIO, 0;
      }
      if data == [] {
        return Ok, 0;
      }
      Fits(i);
      ghost var f := files[i];
      var e := EndOf(offset, |data|);
      Wraps(offset, |data|);
      if e > files[i].size {
        r := Truncate(i, e, junk, allocOk);
        if r != Ok {
          return r, 0;
        }
      }
      var at := offset % host.Word();
      AtOffset(offset, |data|, host);
      if at + |data| > |files[i].buf| {
        return Undefined, 0;
      }
      Fits(i);
      CopyInto(i, at, data, f);
      return Ok, |data|;
    }

    lemma Fits(i: nat)
      requires Valid() && Present(i)
      ensures files[i].size <= |files[i].buf| < host.Word()
    {
      hide Sum, CacheOk;
      assert FileOk(files[i], host);
    }

    /** Copies data into a file that is long enough; the file is local from now on. */
    method CopyInto(i: nat, offset: nat, data: Bytes, ghost f: File)
      requires Valid() && Held() && Present(i) && offset + |data| <= files[i].size <= |files[i].buf|
      requires f.size <= |f.buf| && 0 < |data| < TWO_31 && CopyReady(f, files[i], offset + |data|, host)
      modifies `files, `cache, `cacheSize, `fsBlocks
      ensures Valid() && Held() && files == old(files)[i := files[i]] && fsBlocks == old(fsBlocks)
      ensures Present(i) && files[i].state == Local && files[i].size <= |files[i].buf|
      ensures Contents(files[i]) == Written(Contents(f), offset, data) <==>
              offset + |data| - f.size < host.Half() || GapZero(f, offset)
      ensures cache == if old(files)[i].state == Loaded && i in old(cache) then Unlink(old(cache), i) else old(cache)
    {
      hide Sum, CacheOk, Blocks, HeldOk;
      Waiting(i);
      var g := files[i];
      assert FileOk(g, host);
      hide ListOk;
      var buf := g.buf[..offset] + data + g.buf[offset + |data|..];
      CopyIff(f, g, offset, data, host);
      Put(i, g.(buf := buf, state := Local));
    }

    /** Reads through a handle. */
    method Read(h: nat, offset: nat, count: nat) returns (r: Status, data: Bytes)
      requires Valid() && Held() && h in handles
      ensures handles[h].inode in files
      ensures !handles[h].isOpened ==> r == EPROTO
      ensures handles[h].isOpened && (files[handles[h].inode].state == Directory || !handles[h].readable) ==> r == EIO
      ensures handles[h].isOpened && files[handles[h].inode].state != Directory && handles[h].readable ==>
                var f := files[handles[h].inode];
                r == Ok && IsPresent(f) && f.size <= |f.buf| && data == ReadFrom(Contents(f), offset, count)
    {
      hide HeldOk, Sum, CacheOk;
      Holding(h);
      var f := files[handles[h].inode];
      assert FileOk(f, host);
      if !handles[h].isOpened {
        return EPROTO, [];
      }
      if f.state == Directory || !handles[h].readable {
        return EIO, [];
      }
      if offset >= f.size {
        return Ok, [];
      }
      var n := f.size - offset;
      n := if n < count then n else count;
      data := f.buf[offset..offset + n];
      return Ok, data;
    }

    // ---- loading and the cache ----

    /** Evicts loaded files that nobody has open, least recently used first, until `added` more bytes fit. */
    method Trim(added: int)
      requires Valid()
      modifies `files, `cache, `cacheSize, `fsBlocks
      ensures Valid() && fsBlocks == old(fsBlocks)
      ensures cache == Trimmed(old(files), old(cache), old(cacheSize) + added - cacheLimit)
      ensures OnlyEvicted(old(files), old(cache), files, cache)
      ensures cacheSize + added <= cacheLimit || forall i :: i in cache ==> files[i].openCount != 0
      ensures old(Held()) ==> Held()
    {
      hide Sum, ListOk, CacheOk, Trimmed, OnlyEvicted, Unlink, Blocks, HeldOk, AllOpen;
      ghost var files0, cache0 := files, cache;
      NoneEvicted(files, cache, cacheSize + added - cacheLimit);
      if cacheSize + added <= cacheLimit {
        return;
      }
      var k := |cache|;
      assert cache[..k] == cache && cache[k..] == [];
      while k > 0
        invariant k <= |cache| && Valid() && fsBlocks == old(fsBlocks) && cacheSize + added > cacheLimit
        invariant Trimmed(files0, cache[..k], cacheSize + added - cacheLimit) + cache[k..] ==
                  Trimmed(files0, cache0, old(cacheSize) + added - cacheLimit)
        invariant OnlyEvicted(files0, cache0, files, cache) && AllOpen(files, cache[k..])
        invariant old(Held()) ==> Held()
      {
        k := k - 1;
        TrimStep(files0, cache0, files, cache, k, cacheSize + added - cacheLimit);
        var i := cache[k];
        if files[i].openCount != 0 {
          continue;
        }
        EvictOne(i);
        if cacheSize + added <= cacheLimit {
          TrimmedNone(files0, cache, k, cacheSize + added - cacheLimit);
          return;
        }
      }
      TrimmedNone(files0, cache, 0, cacheSize + added - cacheLimit);
      OpenEach(files, cache);
    }

    method EvictOne(i: nat)
      requires Valid() && i in cache && i in files && files[i].openCount == 0
      modifies `files, `cache, `cacheSize, `fsBlocks
      ensures Valid() && i in old(files) && files == old(files)[i := Evicted(old(files)[i])] &&
              fsBlocks == old(fsBlocks)
      ensures cache == Unlink(old(cache), i) && cacheSize == old(cacheSize) - old(files)[i].size
      ensures old(Held()) ==> Held()
    {
      assert FileOk(files[i], host);
      hide Sum, ListOk, Blocks, HeldOk;
      Put(i, Evicted(files[i]));
    }

    /** Starts loading a file: room is made for it and its buffer allocated. */
    method OpenWget(i: nat, junk: nat -> bv8, allocOk: bool) returns (r: Status)
      requires Valid() && i in files && files[i].state == Unloaded
      modifies `files, `cache, `cacheSize, `fsBlocks
      ensures Valid() && fsBlocks == old(fsBlocks) && i in files
      ensures OnlyEvicted(old(files)[i := files[i]], old(cache), files, cache) &&
              (r != Ok ==> files[i] == old(files)[i])
      ensures r == if allocOk then Ok else EIO
      ensures old(Held()) ==> Held()
      ensures r == Ok ==> files[i] == Started(old(files)[i], junk)
      ensures cache == Trimmed(old(files), old(cache), old(cacheSize) + AsInt64(files[i].size) - cacheLimit)
      ensures cacheSize + AsInt64(files[i].size) <= cacheLimit || forall j :: j in cache ==> files[j].openCount != 0
    {
      hide Sum, HeldOk, CacheOk, OnlyEvicted, Trimmed, ListOk, Blocks, Unlink, AsInt64, Realloc;
      CacheLocal(files, cache, i);
      ghost var files0, cache0 := files, cache;
      Trim(AsInt64(files[i].size));
      OthersEvicted(files0, cache0, files, cache, i, Started(files0[i], junk));
      if !allocOk {
        return EIO;
      }
      StartLoading(i, junk);
      return Ok;
    }

    method StartLoading(i: nat, junk: nat -> bv8)
      requires Valid() && i in files && files[i].state == Unloaded
      modifies `files, `cache, `cacheSize, `fsBlocks
      ensures Valid() && files == old(files)[i := Started(old(files)[i], junk)]
      ensures fsBlocks == old(fsBlocks) && cache == old(cache) && cacheSize == old(cacheSize)
      ensures old(Held()) ==> Held()
    {
      if Held() {
        Waiting(i);
      }
      assert FileOk(files[i], host);
      hide Sum, HeldOk, CacheOk, ListOk, Blocks, Unlink;
      Put(i, Started(files[i], junk));
    }

    /** A piece of a file arrives; bytes beyond its size are ignored. */
    method Receive(i: nat, data: Bytes)
      requires Valid() && i in files && files[i].state == Loading
      modifies `files, `cache, `cacheSize, `fsBlocks
      ensures Valid() && files == old(files)[i := files[i]] && fsBlocks == old(fsBlocks)
      ensures var f, g := old(files)[i], files[i];
              g.state == Loading && g.size == f.size && g.buf[..g.curPos] == FirstOf(f.buf[..f.curPos] + data, f.size)
      ensures old(Held()) ==> Held()
    {
      hide Sum, HeldOk;
      var f := files[i];
      assert FileOk(f, host);
      hide ListOk;
      var len := f.size - f.curPos;
      len := if |data| < len then |data| else len;
      var buf := f.buf[..f.curPos] + data[..len] + f.buf[f.curPos + len..];
      assert buf[..f.curPos + len] == FirstOf(f.buf[..f.curPos] + data, f.size);
      Put(i, f.(buf := buf, curPos := f.curPos + len));
    }

    /** The end of a transfer: the file is loaded, and the handle that waits for it opened, if it is complete; else
        what came is dropped. */
    method Finish(i: nat) returns (r: Status)
      requires Valid() && Held() && i in files && files[i].state == Loading
      modifies `files, `cache, `cacheSize, `fsBlocks, `handles, `waiting
      ensures Valid() && Held() && files == old(files)[i := files[i]] && fsBlocks == old(fsBlocks)
      ensures r == if old(files)[i].curPos == files[i].size then Ok else EIO
      ensures r == Ok ==>
                Present(i) && Contents(files[i]) == old(files)[i].buf && cache == [i] + old(cache) &&
                cacheSize == old(cacheSize) + files[i].size
      ensures r != Ok ==> files[i] == Evicted(old(files)[i]) && cacheSize == old(cacheSize) && handles == old(handles)
      ensures waiting == old(waiting) - {i}
      ensures r == Ok ==>
                if i in old(waiting) then
                  var h := old(waiting)[i];
                  h in old(handles) && handles == old(handles)[h := old(handles)[h].(isOpened := true)]
                else handles == old(handles)
    {
      hide Sum, Blocks, HeldOk, ListOk, CacheOk;
      ghost var waits := waiting;
      NoLonger(handles, waiting, files, i);
      if files[i].curPos != files[i].size {
        waiting := waiting - {i};
        Drop(i);
        return EIO;
      }
      var loaded := files[i].(state := Loaded);
      NowHere(handles, waiting, files, i, loaded);
      if i in waiting {
        handles := handles[waiting[i] := handles[waiting[i]].(isOpened := true)];
      }
      waiting := waiting - {i};
      KeepLoaded(i, loaded);
      return Ok;
    }

    method Drop(i: nat)
      requires Valid() && Held() && i in files && files[i].state == Loading && i !in waiting
      modifies `files, `cache, `cacheSize, `fsBlocks
      ensures Valid() && Held() && files == old(files)[i := Evicted(old(files)[i])] && fsBlocks == old(fsBlocks)
      ensures cacheSize == old(cacheSize) && cache == old(cache)
    {
      assert FileOk(files[i], host);
      hide Sum, Blocks, HeldOk, ListOk, CacheOk;
      Put(i, Evicted(files[i]));
    }

    method KeepLoaded(i: nat, f: File)
      requires Valid() && i in files && files[i].state == Loading && f == files[i].(state := Loaded)
      modifies `files, `cache, `cacheSize
      ensures Valid() && files == old(files)[i := f] && cache == [i] + old(cache) &&
              cacheSize == old(cacheSize) + f.size
      ensures |f.buf| == f.size
    {
      hide Sum, Blocks;
      assert FileOk(files[i], host) && i !in cache;
      CacheAdd(files, cache, i, f);
      ListUpdate(list, files, i, f, host);
      SumUpdate(InBlocks(blockSize), list, files, i, f);
      hide ListOk, CacheOk;
      cache, cacheSize, files := [i] + cache, cacheSize + f.size, files[i := f];
    }

    /** Opening a loaded file moves it to the front of the cache list. */
    method Touch(i: nat)
      requires Valid() && i in files && files[i].state == Loaded
      modifies `cache
      ensures Valid() && i in old(cache) && cache == [i] + Unlink(old(cache), i)
    {
      hide Sum, ListOk;
      CacheFront(files, cache, i);
      cache := [i] + Unlink(cache, i);
    }

    // ---- handles ----

    /** Counts one handle more, or one less. */
    method SetOpenCount(i: nat, n: nat)
      requires Valid() && i in files
      modifies `files
      ensures Valid() && files == old(files)[i := old(files)[i].(openCount := n)]
    {
      var f := files[i].(openCount := n);
      ListUpdate(list, files, i, f, host);
      SumUpdate(InBlocks(blockSize), list, files, i, f);
      CacheSame(files, cache, i, f);
      hide ListOk, CacheOk, Sum, Blocks;
      files := files[i := f];
    }

    /** A new handle, not opened. */
    method NewHandle(h: nat, i: nat)
      requires Valid() && Held() && i in files && h !in handles
      modifies `files, `handles
      ensures Valid() && Held() && handles == old(handles)[h := Handle(i, false, false, false)]
      ensures files == old(files)[i := old(files)[i].(openCount := old(files)[i].openCount + 1)]
    {
      hide HeldOk, ListOk, CacheOk, Sum;
      HeldMore(handles, waiting, files, h, i);
      SetOpenCount(i, files[i].openCount + 1);
      handles := handles[h := Handle(i, false, false, false)];
    }

    /** Gives a handle up. An inode that nothing names or holds any more is freed, and with it the load under way for
        it. A load for a file that stays would end with a handle that is gone. */
    method DropHandle(h: nat, named: bool) returns (r: Status)
      requires Valid() && Held() && h in handles
      modifies `files, `list, `cache, `cacheSize, `fsBlocks, `handles, `waiting
      ensures handles == old(handles) - {h} && handles.Keys == old(handles.Keys) - {h}
      ensures var i := old(handles)[h].inode;
              i in old(files) && old(files)[i].openCount > 0 &&
              if named || old(files)[i].openCount > 1 then
                r == Ok && Valid() && waiting == old(waiting) &&
                files == old(files)[i := old(files)[i].(openCount := old(files)[i].openCount - 1)] &&
                (Held() <==> forall j :: j in waiting ==> waiting[j] != h)
              else if old(files)[i].state == Directory && old(files)[i].names != [] then r == Undefined
              else
                r == Ok && Valid() && Held() && waiting == old(waiting) - {i} && files == old(files) - {i} &&
                fsBlocks == old(fsBlocks) - Blocks(old(files)[i].size, blockSize)
    {
      hide HeldOk, ListOk, CacheOk, Sum, Blocks;
      var i := handles[h].inode;
      HeldSome(handles, waiting, files, h);
      if !named && files[i].openCount == 1 {
        LastHandle(handles, waiting, files, h);
        waiting := waiting - {i};
      }
      HeldLess(handles, waiting, files, h);
      SetOpenCount(i, files[i].openCount - 1);
      handles := handles - {h};
      if named || files[i].openCount > 0 {
        return Ok;
      }
      r := FreeNode(i);
    }

    method Close(h: nat)
      requires Held() && h in handles
      modifies `handles
      ensures Held() && handles == old(handles)[h := old(handles)[h].(isOpened := false)] && (old(Valid()) ==> Valid())
    {
      hide HeldOk;
      HeldSome(handles, waiting, files, h);
      HeldAgain(handles, waiting, files, h, handles[h].(isOpened := false));
      handles := handles[h := handles[h].(isOpened := false)];
    }

    /** Opens a handle: at once if the contents are here, later if they must be loaded. Whatever it was opened for
        before is closed, even if the call fails. Whether truncating succeeded is not looked at. */
    method Open(h: nat, wantDir: bool, readable: bool, writable: bool, truncate: bool, junk: nat -> bv8, allocOk: bool)
      returns (r: OpenResult)
      requires Valid() && Held() && h in handles
      modifies `files, `cache, `cacheSize, `fsBlocks, `handles, `waiting
      ensures Valid() && Held() && handles.Keys == old(handles.Keys)
      ensures handles[h].inode == old(handles)[h].inode && handles[h].inode in files && handles[h].inode in old(files)
      ensures forall g :: g in handles && g != h ==> handles[g] == old(handles)[g]
      ensures OthersKept(old(files), old(cache), files, cache, handles[h].inode)
      ensures forall g :: g in handles && handles[g].isOpened && handles[g].inode != handles[h].inode ==>
                handles[g].inode in old(files) && files[handles[g].inode] == old(files)[handles[g].inode]
      ensures handles[h].isOpened <==> r == Opened
      ensures wantDir && old(files)[handles[h].inode].state != Directory <==> r == Refused(ENOTDIR)
      ensures r == Opened ==>
                handles[h].readable == readable && handles[h].writable == writable &&
                (old(files)[handles[h].inode].state == Directory || Present(handles[h].inode))
      ensures r == Pending ==> handles[h].inode in waiting && waiting == old(waiting)[handles[h].inode := h]
      ensures r != Pending ==> waiting == old(waiting)
      ensures r == Refused(ENOTDIR) || r == Refused(Undefined) || old(files)[handles[h].inode].state == Directory ==>
                files == old(files) && fsBlocks == old(fsBlocks) && cache == old(cache)
      ensures r == Refused(Undefined) ==>
                truncate && writable && (old(BlocksWith(handles[h].inode, 0)) >= TWO_63 ||
                                         old(files)[handles[h].inode].size > host.Half())
      ensures r != Refused(ENOTDIR) && old(files)[handles[h].inode].state != Directory && !(truncate && writable) ==>
                var i := handles[h].inode;
                OpenedAs(r, old(files)[i], files[i], junk, allocOk, i in old(waiting)) && fsBlocks == old(fsBlocks)
      ensures r != Refused(ENOTDIR) && r != Refused(Undefined) && truncate && writable &&
              old(files)[handles[h].inode].state != Directory ==>
                var i, f := handles[h].inode, old(files)[handles[h].inode];
                exists g :: Emptied(f, g, allocOk, host) && OpenedAs(r, g, files[i], junk, allocOk, i in old(waiting))
    {
      hide HeldOk, ListOk, CacheOk, Sum, Blocks, OthersKept, OpenedAs, Emptied;
      Close(h);
      Holding(h);
      var i := handles[h].inode;
      NothingChanged(files, cache, i);
      OthersOpened(files, cache, i);
      if wantDir && files[i].state != Directory {
        return Refused(ENOTDIR);
      }
      SetFlags(h, readable, writable);
      if files[i].state == Directory {
        MarkOpened(h);
        return Opened;
      }
      if truncate && writable {
        r := OpenEmptied(h, junk, allocOk);
      } else {
        r := OpenFile(h, junk, allocOk);
      }
    }

    /** Cuts a file to nothing, if it can be done, and opens it. */
    method OpenEmptied(h: nat, junk: nat -> bv8, allocOk: bool) returns (r: OpenResult)
      requires Valid() && Held() && h in handles && !handles[h].isOpened
      requires handles[h].inode in files && files[handles[h].inode].state != Directory
      modifies `files, `cache, `cacheSize, `fsBlocks, `handles, `waiting
      ensures Valid() && Held() && handles.Keys == old(handles.Keys) && handles[h].inode in files
      ensures forall g :: g in handles && g != h ==> handles[g] == old(handles)[g]
      ensures handles[h] == old(handles)[h].(isOpened := r == Opened)
      ensures OthersKept(old(files), old(cache), files, cache, handles[h].inode)
      ensures forall g :: g in handles && handles[g].isOpened && handles[g].inode != handles[h].inode ==>
                handles[g].inode in old(files) && files[handles[g].inode] == old(files)[handles[g].inode]
      ensures waiting == if r == Pending then old(waiting)[handles[h].inode := h] else old(waiting)
      ensures r == Opened ==> Present(handles[h].inode)
      ensures r == Opened || r == Pending || r == Refused(EIO) || r == Refused(Undefined)
      ensures r == Refused(Undefined) ==>
                files == old(files) && fsBlocks == old(fsBlocks) && cache == old(cache) &&
                (old(BlocksWith(handles[h].inode, 0)) >= TWO_63 || files[handles[h].inode].size > host.Half())
      ensures r != Refused(Undefined) ==>
                var i := handles[h].inode;
                i in old(files) &&
                exists g :: Emptied(old(files)[i], g, allocOk, host) &&
                            OpenedAs(r, g, files[i], junk, allocOk, i in old(waiting))
    {
      hide HeldOk, ListOk, CacheOk, Sum, Blocks, OthersKept, OpenedAs, Trimmed, AsInt64, Resized, Unlink;
      var i := handles[h].inode;
      ghost var files0, cache0 := files, cache;
      NothingChanged(files, cache, i);
      OthersOpened(files, cache, i);
      var s := CutToNothing(i, junk, allocOk);
      if s == Undefined {
        return Refused(Undefined);
      }
      ghost var files1, cache1 := files, cache;
      assert Emptied(files0[i], files1[i], allocOk, host);
      r := OpenFile(h, junk, allocOk);
      KeptThrough(files0, cache0, files1, cache1, files, cache, i);
    }

    method CutToNothing(i: nat, junk: nat -> bv8, allocOk: bool) returns (s: Status)
      requires Valid() && Held() && i in files && files[i].state != Directory
      modifies `files, `cache, `cacheSize, `fsBlocks
      ensures Valid() && Held() && i in files && files[i].state != Directory && files == old(files)[i := files[i]]
      ensures s == Undefined ==>
                files == old(files) && fsBlocks == old(fsBlocks) && cache == old(cache) &&
                (old(BlocksWith(i, 0)) >= TWO_63 || files[i].size > host.Half())
      ensures s != Undefined ==> Emptied(old(files)[i], files[i], allocOk, host)
      ensures OthersKept(old(files), old(cache), files, cache, i)
      ensures forall j :: j in old(cache) && j != i ==> j in cache
    {
      assert FileOk(files[i], host);
      SignedIs(host, 0 - files[i].size);
      hide HeldOk, ListOk, CacheOk, Sum, Blocks, OthersKept, Resized, Unlink, ZeroSlack, Host.Signed;
      ghost var files0, cache0 := files, cache;
      s := Truncate(i, 0, junk, allocOk);
      OneChanged(files0, cache0, files, cache, i);
    }

    method SetFlags(h: nat, readable: bool, writable: bool)
      requires Held() && h in handles && !handles[h].isOpened
      modifies `handles
      ensures Held() && (old(Valid()) ==> Valid())
      ensures handles == old(handles)[h := old(handles)[h].(readable := readable, writable := writable)]
    {
      hide HeldOk;
      var handle := handles[h].(readable := readable, writable := writable);
      HeldSome(handles, waiting, files, h);
      HeldAgain(handles, waiting, files, h, handle);
      handles := handles[h := handle];
    }

    /** Marks a handle opened on a directory, or on a file whose contents are here. */
    method MarkOpened(h: nat)
      requires Held() && h in handles && handles[h].inode in files
      requires files[handles[h].inode].state == Directory || Present(handles[h].inode)
      modifies `handles
      ensures Held() && (old(Valid()) ==> Valid()) && handles == old(handles)[h := old(handles)[h].(isOpened := true)]
    {
      var handle := handles[h].(isOpened := true);
      NotWaiting(handles, waiting, files, h);
      hide HeldOk;
      HeldAgain(handles, waiting, files, h, handle);
      handles := handles[h := handle];
    }

    /** The four states a regular file can be in when it is opened. */
    method OpenFile(h: nat, junk: nat -> bv8, allocOk: bool) returns (r: OpenResult)
      requires Valid() && Held() && h in handles && !handles[h].isOpened
      requires handles[h].inode in files && files[handles[h].inode].state != Directory
      modifies `files, `cache, `cacheSize, `fsBlocks, `handles, `waiting
      ensures Valid() && Held() && handles.Keys == old(handles.Keys) && handles[h].inode in files
      ensures forall g :: g in handles && g != h ==> handles[g] == old(handles)[g]
      ensures handles[h] == old(handles)[h].(isOpened := r == Opened)
      ensures OthersKept(old(files), old(cache), files, cache, handles[h].inode) && fsBlocks == old(fsBlocks)
      ensures forall g :: g in handles && handles[g].isOpened && handles[g].inode != handles[h].inode ==>
                handles[g].inode in old(files) && files[handles[g].inode] == old(files)[handles[g].inode]
      ensures waiting == if r == Pending then old(waiting)[handles[h].inode := h] else old(waiting)
      ensures (r == Opened ==> Present(handles[h].inode)) && (r == Opened || r == Pending || r == Refused(EIO))
      ensures var i := handles[h].inode;
              i in old(files) && OpenedAs(r, old(files)[i], files[i], junk, allocOk, i in old(waiting)) &&
              cache == match old(files)[i].state
                       case Unloaded =>
                         Trimmed(old(files), old(cache), old(cacheSize) + AsInt64(old(files)[i].size) - cacheLimit)
                       case Loaded => if i in old(cache) then [i] + Unlink(old(cache), i) else old(cache)
                       case _ => old(cache)
    {
      hide HeldOk, ListOk, CacheOk, Sum, Blocks, OnlyEvicted, OthersKept, Trimmed, AsInt64;
      var i := handles[h].inode;
      ghost var files0, cache0 := files, cache;
      NothingChanged(files, cache, i);
      OthersOpened(files, cache, i);
      if files[i].state == Unloaded {
        Waiting(i);
        var s := OpenWget(i, junk, allocOk);
        EvictedOthers(files0, cache0, files, cache, i);
        OthersOpened(files0, cache0, i);
        if s != Ok {
          return Refused(s);
        }
        WaitFor(i, h);
        return Pending;
      }
      if files[i].state == Loading {
        if i in waiting {
          return Refused(EIO);
        }
        WaitFor(i, h);
        return Pending;
      }
      if files[i].state == Loaded {
        Touch(i);
        TouchedOthers(files, cache0, cache, i);
      }
      MarkOpened(h);
      return Opened;
    }

    /** What open handles see survives the trimming. */
    lemma OthersOpened(files0: map<nat, File>, cache0: seq<nat>, i: nat)
      requires Held() && OthersKept(files0, cache0, files, cache, i) && CacheOk(files0, cache0)
      ensures forall g :: g in handles && handles[g].isOpened && handles[g].inode != i ==>
                handles[g].inode in files0 && handles[g].inode in files &&
                files[handles[g].inode] == files0[handles[g].inode]
    {
      hide HeldOk, OthersKept, CacheOk;
      forall g | g in handles && handles[g].isOpened && handles[g].inode != i
        ensures handles[g].inode in files0 && handles[g].inode in files
        ensures files[handles[g].inode] == files0[handles[g].inode]
      {
        HeldSome(handles, waiting, files, g);
        OpenedKept(files0, cache0, files, cache, i, handles, waiting, g);
      }
    }

    method WaitFor(i: nat, h: nat)
      requires Held() && i in files && files[i].state == Loading && i !in waiting && h in handles &&
               handles[h].inode == i
      requires !handles[h].isOpened
      modifies `waiting
      ensures Held() && (old(Valid()) ==> Valid()) && waiting == old(waiting)[i := h]
    {
      waiting := waiting[i := h];
    }

    // ---- inodes and entries ----

    /** A new, empty file or directory. */
    method NewNode(i: nat, isDir: bool)
      requires Valid() && i !in files
      modifies `files, `list
      ensures Valid() && files == old(files)[i := if isDir then NEW_DIRECTORY else NEW_FILE]
      ensures old(Held()) && (forall h :: h in handles ==> handles[h].inode != i) ==> Held()
    {
      hide Blocks, ListOk, CacheOk, HeldOk, Sum;
      var f := if isDir then NEW_DIRECTORY else NEW_FILE;
      if Held() && (forall h :: h in handles ==> handles[h].inode != i) {
        HeldNew(handles, waiting, files, i, f);
      }
      Insert(i, f);
    }

    method Insert(i: nat, f: File)
      requires Valid() && i !in files && (f == NEW_FILE || f == NEW_DIRECTORY)
      modifies `files, `list
      ensures Valid() && files == old(files)[i := f]
    {
      NoBlocks(blockSize);
      hide Blocks, CacheOk;
      SumOther(InBlocks(blockSize), list, files, i, f);
      ListAdd(list, files, i, f, host);
      hide ListOk;
      CacheKeepNew(files, cache, i, f);
      assert ([i] + list)[1..] == list;
      list, files := [i] + list, files[i := f];
    }

    /** Frees an inode nobody names or holds; a directory must have lost its entries. */
    method FreeNode(i: nat) returns (r: Status)
      requires Valid() && Held() && i in files && files[i].openCount == 0
      modifies `files, `list, `cache, `cacheSize, `fsBlocks
      ensures r == if old(files)[i].state == Directory && old(files)[i].names != [] then Undefined else Ok
      ensures r == Ok ==>
                Valid() && Held() && files == old(files) - {i} &&
                fsBlocks == old(fsBlocks) - Blocks(old(files)[i].size, blockSize)
    {
      hide Blocks, ListOk, CacheOk, Sum, HeldOk;
      if files[i].state == Directory && files[i].names != [] {
        return Undefined;
      }
      Clear(i);
      HeldGone(handles, waiting, files, i);
      DropEmpty(i);
      return Ok;
    }

    /** Takes everything from an inode nobody holds. */
    method Clear(i: nat)
      requires Valid() && Held() && i in files && files[i].openCount == 0
      modifies `files, `cache, `cacheSize, `fsBlocks
      ensures Valid() && Held() && files == old(files)[i := NEW_FILE]
      ensures fsBlocks == old(fsBlocks) - Blocks(old(files)[i].size, blockSize)
    {
      NoBlocks(blockSize);
      hide Blocks, ListOk, CacheOk, Sum, HeldOk;
      Put(i, NEW_FILE);
    }

    method DropEmpty(i: nat)
      requires Valid() && i in files && files[i] == NEW_FILE
      modifies `files, `list
      ensures Valid() && files == old(files) - {i}
    {
      hide Blocks, ListOk, CacheOk, Sum, Unlink, Weight;
      EmptyFile(files, cache, blockSize, i);
      ListRemove(list, files, i, host);
      SumUnlink(InBlocks(blockSize), list, files, i);
      SumMissing(InBlocks(blockSize), Unlink(list, i), files, i);
      CacheRemove(files, cache, i);
      SumMissing(InBytes, cache, files, i);
      list, files := Unlink(list, i), files - {i};
    }

    /** A directory gets an entry, at the end of its list. */
    method AddEntry(d: nat, name: string) returns (r: Status)
      requires Valid() && d in files && files[d].state == Directory
      modifies `files, `cache, `cacheSize, `fsBlocks
      ensures Valid() && (old(Held()) ==> Held())
      ensures var size := old(files)[d].size + EntrySize(name, host.entrySize);
              if size >= TWO_31 || old(BlocksWith(d, size)) >= TWO_63 then r == Undefined && files == old(files)
              else
                r == Ok && files == old(files)[d := files[d]] && files[d].names == old(files)[d].names + [name] &&
                files[d].state == Directory && files[d].size == size && fsBlocks == old(BlocksWith(d, size))
    {
      hide CacheOk, Sum, Blocks, HeldOk;
      var f := files[d];
      assert FileOk(f, host);
      hide ListOk;
      DirSizeAppend(f.names, [name], host.entrySize);
      DirSizeOne(name, host.entrySize);
      if Held() {
        Waiting(d);
      }
      var size := f.size + EntrySize(name, host.entrySize);
      if size >= TWO_31 || BlocksWith(d, size) >= TWO_63 {
        return Undefined;
      }
      Put(d, f.(size := size, names := f.names + [name]));
      return Ok;
    }

    /** A directory loses entry `k`. */
    method DeleteEntry(d: nat, k: nat)
      requires Valid() && d in files && files[d].state == Directory && k < |files[d].names|
      modifies `files, `cache, `cacheSize, `fsBlocks
      ensures Valid() && (old(Held()) ==> Held())
      ensures var names := old(files)[d].names;
              files == old(files)[d := files[d]] && files[d].state == Directory &&
              files[d].names == names[..k] + names[k + 1..] &&
              files[d].size + EntrySize(names[k], host.entrySize) == old(files)[d].size
      ensures fsBlocks == old(fsBlocks) - Blocks(old(files)[d].size, blockSize) + Blocks(files[d].size, blockSize)
    {
      hide CacheOk, Sum, Blocks, HeldOk;
      var f := files[d];
      assert FileOk(f, host);
      hide ListOk;
      DirSizeWithout(f.names, k, host.entrySize);
      BlocksMono(f.size - EntrySize(f.names[k], host.entrySize), f.size, blockSize);
      if Held() {
        Waiting(d);
      }
      Put(d, f.(size := f.size - EntrySize(f.names[k], host.entrySize), names := f.names[..k] + f.names[k + 1..]));
    }

    /** Gives an empty local file contents on the network. The size is kept in a word, its blocks are those of the
        whole number. Opened handles find their contents afterwards if and only if there were none on this file. */
    method SetUrl(i: nat, size: nat) returns (r: Status)
      requires Valid() && i in files && size < TWO_64
      modifies `files, `cache, `cacheSize, `fsBlocks
      ensures i in files && files == old(files)[i := files[i]]
      ensures r == if old(files)[i].state != Local || old(files)[i].buf != [] then EIO
                   else if old(fsBlocks) + Blocks(size, blockSize) >= TWO_63 then Undefined else Ok
      ensures r == Ok && size > 0 ==>
                files[i] == old(files)[i].(state := Unloaded, size := size % host.Word()) &&
                fsBlocks == old(fsBlocks) + Blocks(size, blockSize) &&
                (Valid() <==> Blocks(size % host.Word(), blockSize) == Blocks(size, blockSize))
      ensures r != Ok || size == 0 ==> Valid() && files == old(files) && (old(Held()) ==> Held())
      ensures r == Ok && size > 0 && old(Held()) ==>
                (Held() <==> forall h :: h in handles && handles[h].inode == i ==> !handles[h].isOpened)
    {
      var f := files[i];
      assert FileOk(f, host);
      hide ListOk, Blocks, CacheOk;
      if f.state != Local || |f.buf| != 0 {
        return EIO;
      }
      if fsBlocks + Blocks(size, blockSize) >= TWO_63 {
        return Undefined;
      }
      if size > 0 {
        NoBlocks(blockSize);
        var g := f.(state := Unloaded, size := size % host.Word());
        ghost var files0 := files;
        Account(i, g, Blocks(size, blockSize));
        if old(Held()) {
          Unopened(handles, waiting, files0, i, g);
        }
      }
      return Ok;
    }

    /** Replaces an empty file and adds `blocks` to those in use. */
    method Account(i: nat, g: File, blocks: nat)
      requires Valid() && i in files && files[i].state == Local && files[i].size == 0 && g.state == Unloaded
      requires FileOk(g, host) && fsBlocks + blocks < TWO_63
      modifies `files, `cache, `cacheSize, `fsBlocks
      ensures files == old(files)[i := g] && fsBlocks == old(fsBlocks) + blocks
      ensures Valid() <==> Blocks(g.size, blockSize) == blocks
    {
      hide ListOk, Blocks, CacheOk;
      NoBlocks(blockSize);
      ListUpdate(list, files, i, g, host);
      SumUpdate(InBlocks(blockSize), list, files, i, g);
      CacheLocal(files, cache, i);
      CacheKeep(files, cache, i, g);
      hide Sum;
      files, fsBlocks := files[i := g], fsBlocks + blocks;
    }
  }

  /** A 64-bit number as a signed one. */
  function AsInt64(size: nat): int { if size < TWO_63 then size else size - TWO_64 }

  lemma CacheLocal(files: map<nat, File>, cache: seq<nat>, i: nat)
    requires CacheOk(files, cache) && i in files && files[i].state != Loaded
    ensures i !in cache
  {
  }

  /** How opening a regular file ends: what was said, and what became of the file. */
  predicate OpenedAs(r: OpenResult, f: File, g: File, junk: nat -> bv8, allocOk: bool, isWaitedFor: bool)
  {
    match f.state
    case Unloaded => if allocOk then r == Pending && g == Started(f, junk) else r == Refused(EIO) && g == f
    case Loading => (r == if isWaitedFor then Refused(EIO) else Pending) && g == f
    case _ => r == Opened && g == f
  }

  /** A file cut to nothing on opening, unless it is being loaded or its buffer cannot be resized. */
  predicate Emptied(f: File, g: File, allocOk: bool, host: Host)
  {
    g.openCount == f.openCount && g.curPos == f.curPos &&
    if f.size == 0 || f.state == Loading then g == f
    else if f.state == Unloaded then g == f.(size := 0, state := Local)
    else (g == f && (!allocOk || f.size > host.Half())) || (g.state == Local && g.size == 0)
  }

  /** A file whose transfer begins, with a buffer of the right size. */
  function Started(f: File, junk: nat -> bv8): File
  {
    f.(state := Loading, buf := Realloc(f.buf, f.size, junk), curPos := 0)
  }

  lemma EmptyFile(files: map<nat, File>, cache: seq<nat>, blockSize: nat, i: nat)
    requires 0 < blockSize < TWO_31 && CacheOk(files, cache) && i in files && files[i] == NEW_FILE
    ensures Weight(InBlocks(blockSize), files[i]) == 0 && i !in cache
  {
    NoBlocks(blockSize);
  }

  // ---- machine words ----

  /** Where writing ends, as a 64-bit number. */
  function EndOf(offset: nat, count: nat): nat { (offset + count) % 0x1_0000_0000_0000_0000 }

  lemma Wraps(offset: nat, count: nat)
    requires offset < TWO_64 && count < TWO_31
    ensures EndOf(offset, count) == if offset + count < TWO_64 then offset + count else offset + count - TWO_64
  {
  }

  /** The offset as a word: where the data is copied. It is off exactly where the end wrapped around. */
  lemma AtOffset(offset: nat, count: nat, host: Host)
    requires offset < TWO_64 && 0 < count < TWO_31
    ensures offset + count >= TWO_64 ==> offset % host.Word() + count >= host.Word()
    ensures offset < host.Word() ==> offset % host.Word() == offset
  {
  }

  /** Between the contents and the place written to, memory holds zeros. */
  predicate GapZero(f: File, offset: nat) { forall k :: f.size <= k < offset && k < |f.buf| ==> f.buf[k] == 0 }

  /** A file whose size was changed. Its contents are the old ones, cut or filled with zeros, if and only if it did not
      grow by half a word or more, or the memory behind it was there and held zeros. */
  ghost predicate ResizedTo(f: File, g: File, size: nat, host: Host)
  {
    g == f.(size := size, buf := g.buf, state := if size == f.size then f.state else Local) && f.size <= |f.buf| &&
    (size <= |g.buf| && Contents(g) == Resized(Contents(f), size) <==>
     size - f.size < host.Half() || ZeroSlack(f, size)) &&
    (size - f.size >= host.Half() ==> g.buf <= f.buf)
  }

  lemma Unresized(f: File, host: Host)
    ensures f.size <= |f.buf| ==> ResizedTo(f, f, f.size, host)
  {
  }

  /** The resized buffer holds the resized contents if the size did not grow by half a word, or by luck. */
  lemma ResizedIff(f: File, size: nat, buf: Bytes, host: Host)
    requires f.size <= |f.buf|
    requires size - f.size < host.Half() ==> size <= |buf| && buf[..size] == Resized(Contents(f), size)
    requires size - f.size >= host.Half() ==> buf <= f.buf && (size <= |buf| <==> size <= |f.buf|)
    ensures size <= |buf| && buf[..size] == Resized(Contents(f), size) <==>
            size - f.size < host.Half() || ZeroSlack(f, size)
  {
    if size - f.size >= host.Half() && size <= |buf| {
      var r := Resized(Contents(f), size);
      assert forall k :: 0 <= k < f.size ==> buf[k] == r[k];
      assert forall k :: f.size <= k < size ==> buf[k] == f.buf[k] && r[k] == 0;
      if ZeroSlack(f, size) {
        assert buf[..size] == r;
      } else {
        var k :| f.size <= k < size && f.buf[k] != 0;
        assert buf[..size][k] != r[k];
      }
    }
  }

  /** A file about to take data that ends at `e`. */
  predicate CopyReady(f: File, g: File, e: nat, host: Host)
    requires f.size <= |f.buf| && g.size <= |g.buf|
  {
    if e <= f.size then g == f
    else
      g.size == e && (e - f.size < host.Half() ==> Contents(g) == Resized(Contents(f), e)) &&
      (e - f.size >= host.Half() ==> g.buf <= f.buf)
  }

  lemma CopyIff(f: File, g: File, offset: nat, data: Bytes, host: Host)
    requires f.size <= |f.buf| && g.size <= |g.buf| && offset + |data| <= g.size && 0 < |data| < TWO_31
    requires CopyReady(f, g, offset + |data|, host)
    ensures (g.buf[..offset] + data + g.buf[offset + |data|..])[..g.size] == Written(Contents(f), offset, data) <==>
            offset + |data| - f.size < host.Half() || GapZero(f, offset)
  {
    var e, c := offset + |data|, Contents(f);
    if e - f.size < host.Half() {
      WriteInto(c, g.buf, g.size, offset, data);
    } else {
      var x, y := g.buf[..offset] + data + g.buf[e..], Written(c, offset, data);
      assert x[..g.size] == g.buf[..offset] + data;
      assert y == Resized(c, e)[..offset] + data;
      assert forall k :: 0 <= k < offset ==> x[..g.size][k] == f.buf[k];
      assert forall k :: 0 <= k < offset ==> y[k] == if k < f.size then f.buf[k] else 0;
      if GapZero(f, offset) {
        assert x[..g.size] == y;
      } else {
        var k :| f.size <= k < offset && k < |f.buf| && f.buf[k] != 0;
        assert x[..g.size][k] != y[k];
      }
    }
  }

  lemma BlocksMono(a: nat, b: nat, bs: nat)
    requires a <= b < TWO_31 && 0 < bs < TWO_31
    ensures Blocks(a, bs) <= Blocks(b, bs)
  {
    BlocksHold(a, bs);
    BlocksHold(b, bs);
    if Blocks(a, bs) > Blocks(b, bs) {
      Sticky.MulOrder(Blocks(b, bs) + 1, Blocks(a, bs), bs);
      Sticky.DistributeRight(Blocks(b, bs), 1, bs);
    }
  }

  // ---- frames ----

  lemma NothingChanged(files: map<nat, File>, cache: seq<nat>, i: nat)
    ensures OthersKept(files, cache, files, cache, i)
  {
  }

  lemma OneChanged(files0: map<nat, File>, cache0: seq<nat>, files: map<nat, File>, cache: seq<nat>, i: nat)
    requires i in files0 && i in files && files == files0[i := files[i]] && CacheOk(files0, cache0)
    requires cache == cache0 || (i in cache0 && cache == Unlink(cache0, i))
    ensures OthersKept(files0, cache0, files, cache, i)
    ensures forall j :: j in cache0 && j != i ==> j in cache
  {
    if i in cache0 {
      UnlinkRest(cache0, i);
    }
  }

  lemma EvictedOthers(files0: map<nat, File>, cache0: seq<nat>, files: map<nat, File>, cache: seq<nat>, i: nat)
    requires i in files0 && i in files && OnlyEvicted(files0[i := files[i]], cache0, files, cache)
    ensures OthersKept(files0, cache0, files, cache, i)
  {
  }

  lemma TouchedOthers(files: map<nat, File>, cache0: seq<nat>, cache: seq<nat>, i: nat)
    requires i in cache0 && CacheOk(files, cache0) && cache == [i] + Unlink(cache0, i)
    ensures OthersKept(files, cache0, files, cache, i)
  {
    UnlinkRest(cache0, i);
  }

  lemma KeptThrough(files0: map<nat, File>, cache0: seq<nat>, files1: map<nat, File>, cache1: seq<nat>,
                    files: map<nat, File>, cache: seq<nat>, i: nat)
    requires OthersKept(files0, cache0, files1, cache1, i) && OthersKept(files1, cache1, files, cache, i)
    requires forall j :: j in cache0 && j != i ==> j in cache1
    ensures OthersKept(files0, cache0, files, cache, i)
  {
  }

  /** The last handle on an inode: no load is under way for any other. */
  lemma LastHandle(handles: map<nat, Handle>, waiting: map<nat, nat>, files: map<nat, File>, h: nat)
    requires HeldOk(handles, waiting, files) && h in handles
    ensures HeldOk(handles, waiting - {handles[h].inode}, files)
    ensures forall j :: j in waiting - {handles[h].inode} ==> waiting[j] != h
  {
    hide Holders;
    forall j | j in waiting
      ensures waiting[j] == h ==> j == handles[h].inode
    {
      assert WaitOk(j, waiting[j], handles, files);
    }
  }

  // ---- inputs that go wrong ----

  /** In a new file system: an empty file, opened for reading and writing. */
  method OpenEmpty() returns (fs: Files)
    ensures fresh(fs) && fs.Valid() && fs.Held() && fs.host == Bits64(24) && fs.blockSize == 4096
    ensures fs.maxBlocks == 0x4_0000 && fs.fsBlocks == 0 && 0 in fs.files && fs.files[0] == NEW_FILE.(openCount := 1)
    ensures fs.handles == map[0 := Handle(0, true, true, true)] && fs.waiting == map[]
  {
    hide HeldOk, ListOk, CacheOk, Sum, Blocks;
    fs := new Files(4096, 0, 0x4_0000, Bits64(24));
    fs.NewNode(0, false);
    fs.NewHandle(0, 0);
    var o := fs.Open(0, false, true, true, false, _ => 0, true);
  }

  /** Two bytes are written at the very end of the address space. */
  method WriteAtEnd() returns (r: Status)
    ensures r == Undefined
  {
    hide HeldOk, ListOk, CacheOk, Sum;
    var fs := OpenEmpty();
    var count;
    r, count := fs.Write(0, 0xFFFF_FFFF_FFFF_FFFF, [0, 0], _ => 0, true);
  }

  /** A file is given the size 2^63. */
  method GrowByHalf() returns (fs: Files, r: Status)
    ensures r == Ok && 0 in fs.files && fs.files[0].size == 0x8000_0000_0000_0000 && !fs.Valid()
  {
    hide HeldOk, ListOk, CacheOk, Sum;
    fs := OpenEmpty();
    r := fs.Truncate(0, 0x8000_0000_0000_0000, _ => 0, true);
  }

  /** A file is opened, and its contents are then said to be on the network. */
  method UrlWhileOpen() returns (fs: Files, r: Status)
    ensures r == Ok && !fs.Held()
  {
    hide HeldOk, ListOk, CacheOk, Sum;
    fs := OpenEmpty();
    r := fs.SetUrl(0, 1);
    assert fs.handles[0].inode == 0 && fs.handles[0].isOpened;
  }

  /** A handle is given up while its file is being loaded. */
  method DropWhileLoading() returns (fs: Files)
    ensures !fs.Held()
  {
    hide HeldOk, ListOk, CacheOk, Sum;
    fs := new Files(4096, 0, 0, Bits64(24));
    fs.NewNode(0, false);
    var r := fs.SetUrl(0, 1);
    fs.NewHandle(0, 0);
    var o := fs.OpenFile(0, _ => 0, true);
    assert 0 in fs.waiting && fs.waiting[0] == 0;
    r := fs.DropHandle(0, true);
  }

  /** Opened handles mind if, and only if, their contents go. */
  lemma Unopened(handles: map<nat, Handle>, waiting: map<nat, nat>, files: map<nat, File>, i: nat, f: File)
    requires HeldOk(handles, waiting, files) && i in files && files[i].state == Local && f.state == Unloaded
    requires f.openCount == files[i].openCount
    ensures HeldOk(handles, waiting, files[i := f]) <==> forall h :: h in handles && handles[h].inode == i ==>
              !handles[h].isOpened
  {
    hide Holders;
    var files' := files[i := f];
    if h :| h in handles && handles[h].inode == i && handles[h].isOpened {
      assert !HandleOk(handles[h], files');
    } else {
      assert forall j :: j in waiting ==> j != i;
    }
  }

  /** Nobody waits for file `i` any more. */
  lemma NoLonger(handles: map<nat, Handle>, waiting: map<nat, nat>, files: map<nat, File>, i: nat)
    requires HeldOk(handles, waiting, files) && i in files && files[i].state == Loading
    ensures HeldOk(handles, waiting - {i}, files)
    ensures i in waiting ==> waiting[i] in handles && handles[waiting[i]].inode == i && !handles[waiting[i]].isOpened
    ensures KeepsHandles(files[i], Evicted(files[i]), false)
  {
    hide Holders;
  }

  /** File `i` is here: the handle that waited for it is opened. */
  lemma NowHere(handles: map<nat, Handle>, waiting: map<nat, nat>, files: map<nat, File>, i: nat, f: File)
    requires HeldOk(handles, waiting, files) && i in files && files[i].state == Loading &&
             f == files[i].(state := Loaded)
    ensures i in waiting ==> waiting[i] in handles
    ensures var handles' := if i in waiting then handles[waiting[i] := handles[waiting[i]].(isOpened := true)]
            else handles;
            HeldOk(handles', waiting - {i}, files[i := f])
  {
    hide Holders;
    var files' := files[i := f];
    NoLonger(handles, waiting, files, i);
    HeldStill(handles, waiting - {i}, files, i, f);
    if i in waiting {
      var h := waiting[i];
      OneWait(handles, waiting, files, i);
      HeldAgain(handles, waiting - {i}, files', h, handles[h].(isOpened := true));
    }
  }

  /** A handle waits for its own file only. */
  lemma OneWait(handles: map<nat, Handle>, waiting: map<nat, nat>, files: map<nat, File>, i: nat)
    requires HeldOk(handles, waiting, files) && i in waiting
    ensures forall j :: j in waiting && j != i ==> waiting[j] != waiting[i]
  {
    hide Holders;
    forall j | j in waiting && j != i
      ensures waiting[j] != waiting[i]
    {
      assert WaitOk(j, waiting[j], handles, files) && WaitOk(i, waiting[i], handles, files);
    }
  }

  lemma NotWaiting(handles: map<nat, Handle>, waiting: map<nat, nat>, files: map<nat, File>, h: nat)
    requires HeldOk(handles, waiting, files) && h in handles && handles[h].inode in files
    requires files[handles[h].inode].state != Loading
    ensures forall i :: i in waiting ==> waiting[i] != h
  {
    hide Holders;
    forall i | i in waiting
      ensures waiting[i] != h
    {
      assert WaitOk(i, waiting[i], handles, files);
    }
  }

  lemma HeldNew(handles: map<nat, Handle>, waiting: map<nat, nat>, files: map<nat, File>, i: nat, f: File)
    requires HeldOk(handles, waiting, files) && i !in files && f.openCount == 0
    requires forall h :: h in handles ==> handles[h].inode != i
    ensures HeldOk(handles, waiting, files[i := f])
  {
    assert Holders(handles, i) == {};
    hide Holders;
  }

  lemma HeldGone(handles: map<nat, Handle>, waiting: map<nat, nat>, files: map<nat, File>, i: nat)
    requires HeldOk(handles, waiting, files) && i in files && files[i].openCount == 0
    ensures HeldOk(handles, waiting, files - {i})
  {
    hide Holders;
    var files' := files - {i};
    forall h | h in handles
      ensures HandleOk(handles[h], files')
    {
      HeldSome(handles, waiting, files, h);
    }
    forall j | j in waiting
      ensures WaitOk(j, waiting[j], handles, files')
    {
      HeldSome(handles, waiting, files, waiting[j]);
    }
  }
}
