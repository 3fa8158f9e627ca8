/** The inodes of the network filesystem that take up space: regular files with their contents, directories with
    their entries; sums over them, the handles that hold them, and what trimming the cache does to them. */
module FsNodes {
  import Sticky

  type Bytes = seq<bv8>

  datatype State = Local | Unloaded | Loading | Loaded | Directory

  /** For a file, `buf` is the whole allocation, and its first `size` bytes are the contents. For a directory,
      `names` are its entries, and `size` is what they take up. */
  datatype File = File(state: State, size: nat, buf: Bytes, openCount: nat, curPos: nat, names: seq<string>)

  const NEW_FILE: File := File(Local, 0, [], 0, 0, [])
  const NEW_DIRECTORY: File := File(Directory, 0, [], 0, 0, [])

  /** `Undefined`: an assertion fails, or the language gives no meaning to what comes next. */
  datatype Status = Ok | EIO | ENOSPC | EPROTO | EINVAL | ENOTDIR | Undefined

  const TWO_31: nat := 0x8000_0000
  const TWO_63: nat := 0x8000_0000_0000_0000
  const TWO_64: nat := 0x1_0000_0000_0000_0000

  /** The machine the emulator runs on: how wide its addresses are, and what a directory entry takes besides its
      name. */
  datatype Host = Bits32(entrySize: nat) | Bits64(entrySize: nat) {
    /** Sizes in memory are below this. */
    function Word(): int { if Bits32? then 0x1_0000_0000 else 0x1_0000_0000_0000_0000 }

    /** Signed differences are below this. */
    function Half(): int { if Bits32? then 0x8000_0000 else 0x8000_0000_0000_0000 }

    /** A number as a signed word. */
    function Signed(x: int): int
    {
      var m := if Bits32? then x % 0x1_0000_0000 else x % 0x1_0000_0000_0000_0000;
      if m < Half() then m else m - Word()
    }
  }

  /** The difference of two sizes as a signed word: off by a whole word if it is too large. */
  lemma SignedIs(host: Host, d: int)
    requires -host.Word() < d < host.Word()
    ensures host.Signed(d) == if d < -host.Half() then d + host.Word()
                              else if d >= host.Half() then d - host.Word() else d
  {
    var q := if d < 0 then -1 else 0;
    Sticky.DivModUnique(d, host.Word(), q, d - q * host.Word());
  }

  // ---- contents ----

  function Contents(f: File): Bytes
    requires f.size <= |f.buf|
  {
    f.buf[..f.size]
  }

  function Zeros(n: nat): (z: Bytes)
    ensures |z| == n
  {
    seq(n, i => 0)
  }

  /** A file cut short, or filled up with zeros. */
  function Resized(c: Bytes, size: nat): (r: Bytes)
    ensures |r| == size
  {
    if size <= |c| then c[..size] else c + Zeros(size - |c|)
  }

  /** A file after writing `data` at `offset`; a gap before it is filled with zeros. */
  function Written(c: Bytes, offset: nat, data: Bytes): (r: Bytes)
  {
    var e := offset + |data|;
    var c1 := if e > |c| then Resized(c, e) else c;
    c1[..offset] + data + c1[e..]
  }

  /** What reading returns: as much as there is. */
  function ReadFrom(c: Bytes, offset: nat, count: nat): Bytes
  {
    if offset >= |c| then [] else if count < |c| - offset then c[offset..offset + count] else c[offset..]
  }

  /** Reading back what was just written, and around it. */
  lemma WrittenRead(c: Bytes, offset: nat, data: Bytes, i: nat)
    requires data != []
    ensures ReadFrom(Written(c, offset, data), offset, |data|) == data
    ensures i < |c| && (i < offset || i >= offset + |data|) ==>
              i < |Written(c, offset, data)| && Written(c, offset, data)[i] == c[i]
    ensures |c| <= i < offset ==> Written(c, offset, data)[i] == 0
  {
    var e := offset + |data|;
    var c1 := if e > |c| then Resized(c, e) else c;
    assert Written(c, offset, data)[offset..offset + |data|] == data;
  }

  /** Copying into the buffer of a file that is long enough. */
  lemma WriteInto(c: Bytes, buf: Bytes, size: nat, offset: nat, data: Bytes)
    requires offset + |data| <= size <= |buf|
    requires buf[..size] == if offset + |data| > |c| then Resized(c, offset + |data|) else c
    ensures (buf[..offset] + data + buf[offset + |data|..])[..size] == Written(c, offset, data)
  {
    var e, c1 := offset + |data|, buf[..size];
    assert c1[..offset] == buf[..offset] && c1[e..] == buf[e..size];
  }

  /** Cut short and grown again, a file shows zeros where it was cut. */
  lemma ShrinkGrow(c: Bytes, a: nat, b: nat)
    requires a <= |c| && a <= b
    ensures Resized(Resized(c, a), b) == c[..a] + Zeros(b - a)
  {
    assert a == b ==> c[..a] + Zeros(0) == c[..a];
  }

  // ---- sums over the inode list ----

  datatype Measure = InBytes | InBlocks(blockSize: nat)

  /** The blocks a size takes; the sum wraps around at 2^64. */
  function Blocks(size: nat, bs: nat): nat
    requires bs > 0
  {
    (size + bs - 1) % 0x1_0000_0000_0000_0000 / bs
  }

  /** They hold the size, with less than a block to spare, if and only if the sum does not wrap around. */
  lemma BlocksHold(size: nat, bs: nat)
    requires 0 < bs < TWO_31 && size < TWO_64
    ensures Blocks(size, bs) * bs >= size <==> size + bs <= TWO_64 || size == 0
    ensures size + bs <= TWO_64 ==> Blocks(size, bs) * bs < size + bs
  {
    var t := size + bs - 1;
    if t < TWO_64 {
      Sticky.DivModUnique(t, 0x1_0000_0000_0000_0000, 0, t);
      Sticky.DivModIs(t, bs);
    } else {
      Sticky.DivModUnique(t, 0x1_0000_0000_0000_0000, 1, t - TWO_64);
      Sticky.DivModUnique(t - TWO_64, bs, 0, t - TWO_64);
    }
  }

  function Weight(m: Measure, f: File): nat
  {
    match m
    case InBytes => f.size
    case InBlocks(bs) => if bs == 0 then 0 else Blocks(f.size, bs)
  }

  function Sum(m: Measure, list: seq<nat>, files: map<nat, File>): nat
  {
    if list == [] then 0 else Sum(m, list[1..], files) + (if list[0] in files then Weight(m, files[list[0]]) else 0)
  }

  ghost predicate Distinct(list: seq<nat>) { forall i, j :: 0 <= i < j < |list| ==> list[i] != list[j] }

  lemma {:induction false} SumOther(m: Measure, list: seq<nat>, files: map<nat, File>, i: nat, f: File)
    requires i !in list
    ensures Sum(m, list, files[i := f]) == Sum(m, list, files)
  {
    if list != [] {
      SumOther(m, list[1..], files, i, f);
    }
  }

  /** Changing one file changes the sum by the difference. */
  lemma {:induction false} SumUpdate(m: Measure, list: seq<nat>, files: map<nat, File>, i: nat, f: File)
    requires Distinct(list) && i in list && i in files
    ensures Sum(m, list, files[i := f]) == Sum(m, list, files) - Weight(m, files[i]) + Weight(m, f)
  {
    hide Weight;
    if list[0] == i {
      SumOther(m, list[1..], files, i, f);
    } else {
      SumUpdate(m, list[1..], files, i, f);
    }
  }

  function Index(list: seq<nat>, i: nat): (k: nat)
    requires i in list
    ensures k < |list| && list[k] == i
  {
    if list[0] == i then 0 else 1 + Index(list[1..], i)
  }

  /** The list without `i`. */
  function Unlink(list: seq<nat>, i: nat): (r: seq<nat>)
    requires i in list
  {
    var k := Index(list, i);
    list[..k] + list[k + 1..]
  }

  lemma {:induction false} SumAppend(m: Measure, x: seq<nat>, y: seq<nat>, files: map<nat, File>)
    ensures Sum(m, x + y, files) == Sum(m, x, files) + Sum(m, y, files)
  {
    if x == [] {
      assert x + y == y;
    } else {
      assert (x + y)[1..] == x[1..] + y;
      SumAppend(m, x[1..], y, files);
    }
  }

  lemma SumUnlink(m: Measure, list: seq<nat>, files: map<nat, File>, i: nat)
    requires i in list && i in files
    ensures Sum(m, Unlink(list, i), files) == Sum(m, list, files) - Weight(m, files[i])
  {
    hide Weight;
    var k := Index(list, i);
    assert list == list[..k] + ([i] + list[k + 1..]);
    SumAppend(m, list[..k], [i] + list[k + 1..], files);
    SumAppend(m, list[..k], list[k + 1..], files);
    assert ([i] + list[k + 1..])[1..] == list[k + 1..];
  }

  lemma UnlinkRest(list: seq<nat>, i: nat)
    requires Distinct(list) && i in list
    ensures Distinct(Unlink(list, i)) && i !in Unlink(list, i)
    ensures forall j :: j in list && j != i <==> j in Unlink(list, i)
  {
    var k, r := Index(list, i), Unlink(list, i);
    forall j | j in list && j != i
      ensures j in r
    {
      var p :| 0 <= p < |list| && list[p] == j;
      assert r[if p < k then p else p - 1] == j;
    }
  }

  // ---- directories ----

  /** An entry takes a fixed part, its name and the name's final zero. */
  function EntrySize(name: string, entrySize: nat): nat { entrySize + |name| + 1 }

  function DirSize(names: seq<string>, entrySize: nat): nat
  {
    if names == [] then 0 else EntrySize(names[0], entrySize) + DirSize(names[1..], entrySize)
  }

  lemma {:induction false} DirSizeAppend(x: seq<string>, y: seq<string>, entrySize: nat)
    ensures DirSize(x + y, entrySize) == DirSize(x, entrySize) + DirSize(y, entrySize)
  {
    if x == [] {
      assert x + y == y;
    } else {
      assert (x + y)[1..] == x[1..] + y;
      DirSizeAppend(x[1..], y, entrySize);
    }
  }

  lemma DirSizeOne(name: string, entrySize: nat)
    ensures DirSize([name], entrySize) == EntrySize(name, entrySize)
  {
    assert [name][1..] == [];
  }

  /** An entry's size is part of its directory's. */
  lemma DirSizeWithout(names: seq<string>, k: nat, entrySize: nat)
    requires k < |names|
    ensures DirSize(names[..k] + names[k + 1..], entrySize) + EntrySize(names[k], entrySize) ==
            DirSize(names, entrySize)
  {
    assert names == names[..k] + ([names[k]] + names[k + 1..]);
    DirSizeAppend(names[..k], [names[k]] + names[k + 1..], entrySize);
    DirSizeAppend([names[k]], names[k + 1..], entrySize);
    DirSizeAppend(names[..k], names[k + 1..], entrySize);
    DirSizeOne(names[k], entrySize);
  }

  // ---- the device ----

  /** What each state means for the buffer. */
  predicate FileOk(f: File, host: Host)
  {
    f.size < host.Word() && |f.buf| < host.Word() &&
    match f.state
    case Directory => f.buf == [] && f.size == DirSize(f.names, host.entrySize) && f.size < TWO_31
    case Local => f.size <= |f.buf|
    case Loaded => f.size <= |f.buf|
    case Loading => f.size == |f.buf| && f.curPos <= f.size
    case Unloaded => f.buf == []
  }

  /** The cache list holds exactly the loaded files. */
  ghost predicate CacheOk(files: map<nat, File>, cache: seq<nat>)
  {
    Distinct(cache) && (forall i :: i in cache ==> i in files && files[i].state == Loaded) &&
    forall i :: i in files && files[i].state == Loaded ==> i in cache
  }

  ghost predicate ListOk(list: seq<nat>, files: map<nat, File>, host: Host)
  {
    Distinct(list) && (forall i :: i in list <==> i in files) && forall i :: i in files ==> FileOk(files[i], host)
  }

  predicate IsPresent(f: File) { f.state == Local || f.state == Loaded }

  // ---- handles ----

  /** An open or closed handle, and how it was opened. */
  datatype Handle = Handle(inode: nat, isOpened: bool, readable: bool, writable: bool)

  ghost function Holders(handles: map<nat, Handle>, i: nat): set<nat> { set h | h in handles && handles[h].inode == i }

  /** A handle is on an inode that exists; opened on a file, the contents are here. */
  predicate HandleOk(handle: Handle, files: map<nat, File>)
  {
    handle.inode in files &&
    (handle.isOpened && files[handle.inode].state != Directory ==> IsPresent(files[handle.inode]))
  }

  /** A file being loaded for somebody: the handle is live, on that file and not opened yet. */
  predicate WaitOk(i: nat, h: nat, handles: map<nat, Handle>, files: map<nat, File>)
  {
    i in files && files[i].state == Loading && h in handles && handles[h].inode == i && !handles[h].isOpened
  }

  ghost predicate CountsOk(handles: map<nat, Handle>, files: map<nat, File>)
  {
    forall i :: i in files ==> files[i].openCount == |Holders(handles, i)|
  }

  /** Handles are counted, and every opened file has its contents, whatever happens to the cache. */
  ghost predicate HeldOk(handles: map<nat, Handle>, waiting: map<nat, nat>, files: map<nat, File>)
  {
    CountsOk(handles, files) && (forall h :: h in handles ==> HandleOk(handles[h], files)) &&
    forall i :: i in waiting ==> WaitOk(i, waiting[i], handles, files)
  }

  /** A change of a file that its handles do not mind. */
  predicate KeepsHandles(f: File, g: File, isWaiting: bool)
  {
    g.openCount == f.openCount &&
    (f.openCount == 0 || ((IsPresent(f) ==> IsPresent(g)) && (f.state == Directory ==> g.state == Directory) &&
                          (isWaiting ==> g.state == Loading)))
  }

  lemma HeldSome(handles: map<nat, Handle>, waiting: map<nat, nat>, files: map<nat, File>, h: nat)
    requires HeldOk(handles, waiting, files) && h in handles
    ensures handles[h].inode in files && files[handles[h].inode].openCount > 0 && HandleOk(handles[h], files)
  {
    assert h in Holders(handles, handles[h].inode);
  }

  lemma HeldStill(handles: map<nat, Handle>, waiting: map<nat, nat>, files: map<nat, File>, i: nat, f: File)
    requires HeldOk(handles, waiting, files) && i in files && KeepsHandles(files[i], f, i in waiting)
    ensures HeldOk(handles, waiting, files[i := f])
  {
    hide Holders, IsPresent;
    var files' := files[i := f];
    forall h | h in handles
      ensures HandleOk(handles[h], files')
    {
      HeldSome(handles, waiting, files, h);
    }
    forall j | j in waiting
      ensures WaitOk(j, waiting[j], handles, files')
    {
      HeldSome(handles, waiting, files, waiting[j]);
    }
  }

  lemma HolderAdd(handles: map<nat, Handle>, h: nat, handle: Handle, i: nat)
    requires h !in handles
    ensures |Holders(handles[h := handle], i)| == |Holders(handles, i)| + (if handle.inode == i then 1 else 0)
  {
    assert Holders(handles[h := handle], i) == if handle.inode == i then Holders(handles, i) + {h}
           else Holders(handles, i);
  }

  lemma HolderRemove(handles: map<nat, Handle>, h: nat, i: nat)
    requires h in handles
    ensures |Holders(handles - {h}, i)| == |Holders(handles, i)| - (if handles[h].inode == i then 1 else 0)
  {
    assert Holders(handles - {h}, i) == if handles[h].inode == i then Holders(handles, i) - {h}
           else Holders(handles, i);
  }

  lemma HolderSame(handles: map<nat, Handle>, h: nat, handle: Handle, i: nat)
    requires h in handles && handle.inode == handles[h].inode
    ensures Holders(handles[h := handle], i) == Holders(handles, i)
  {
  }

  /** A new handle. */
  lemma HeldMore(handles: map<nat, Handle>, waiting: map<nat, nat>, files: map<nat, File>, h: nat, i: nat)
    requires HeldOk(handles, waiting, files) && h !in handles && i in files
    ensures HeldOk(handles[h := Handle(i, false, false, false)], waiting,
                   files[i := files[i].(openCount := files[i].openCount + 1)])
  {
    hide Holders;
    var handle := Handle(i, false, false, false);
    var files' := files[i := files[i].(openCount := files[i].openCount + 1)];
    forall j | j in files'
      ensures files'[j].openCount == |Holders(handles[h := handle], j)|
    {
      HolderAdd(handles, h, handle, j);
    }
    forall j | j in waiting
      ensures WaitOk(j, waiting[j], handles[h := handle], files')
    {
      assert WaitOk(j, waiting[j], handles, files);
    }
  }

  /** A handle given up: no harm if, and only if, no load is under way for it. */
  lemma HeldLess(handles: map<nat, Handle>, waiting: map<nat, nat>, files: map<nat, File>, h: nat)
    requires HeldOk(handles, waiting, files) && h in handles
    ensures var i := handles[h].inode;
            i in files && files[i].openCount > 0 &&
            (HeldOk(handles - {h}, waiting, files[i := files[i].(openCount := files[i].openCount - 1)]) <==>
             forall j :: j in waiting ==> waiting[j] != h)
  {
    hide Holders;
    var i := handles[h].inode;
    HeldSome(handles, waiting, files, h);
    var files' := files[i := files[i].(openCount := files[i].openCount - 1)];
    forall j | j in files'
      ensures files'[j].openCount == |Holders(handles - {h}, j)|
    {
      HolderRemove(handles, h, j);
    }
    forall g | g in handles - {h}
      ensures HandleOk((handles - {h})[g], files')
    {
      assert HandleOk(handles[g], files);
    }
    forall j | j in waiting
      ensures WaitOk(j, waiting[j], handles - {h}, files') <==> waiting[j] != h
    {
      assert WaitOk(j, waiting[j], handles, files);
    }
  }

  /** Another state of a handle on the same inode. */
  lemma HeldAgain(handles: map<nat, Handle>, waiting: map<nat, nat>, files: map<nat, File>, h: nat, handle: Handle)
    requires HeldOk(handles, waiting, files) && h in handles && handle.inode == handles[h].inode &&
             HandleOk(handle, files)
    requires handle.isOpened ==> forall i :: i in waiting ==> waiting[i] != h
    ensures HeldOk(handles[h := handle], waiting, files)
  {
    hide Holders, HandleOk;
    forall i | i in files
      ensures files[i].openCount == |Holders(handles[h := handle], i)|
    {
      HolderSame(handles, h, handle, i);
    }
    forall i | i in waiting
      ensures WaitOk(i, waiting[i], handles[h := handle], files)
    {
      assert WaitOk(i, waiting[i], handles, files);
    }
  }

  lemma ListUpdate(list: seq<nat>, files: map<nat, File>, i: nat, f: File, host: Host)
    requires ListOk(list, files, host) && i in files
    ensures (ListOk(list, files[i := f], host) <==> FileOk(f, host)) && i in list && Distinct(list)
  {
    hide FileOk;
    assert ListOk(list, files[i := f], host) ==> FileOk(files[i := f][i], host);
  }

  lemma CacheKeep(files: map<nat, File>, cache: seq<nat>, i: nat, f: File)
    requires CacheOk(files, cache) && i !in cache && f.state != Loaded
    ensures CacheOk(files[i := f], cache) && Sum(InBytes, cache, files[i := f]) == Sum(InBytes, cache, files)
  {
    SumOther(InBytes, cache, files, i, f);
  }

  lemma ListAdd(list: seq<nat>, files: map<nat, File>, i: nat, f: File, host: Host)
    requires ListOk(list, files, host) && i !in files && FileOk(f, host)
    ensures ListOk([i] + list, files[i := f], host) && i !in list
  {
    hide FileOk;
  }

  lemma ListRemove(list: seq<nat>, files: map<nat, File>, i: nat, host: Host)
    requires ListOk(list, files, host) && i in files
    ensures i in list && ListOk(Unlink(list, i), files - {i}, host) && i !in Unlink(list, i)
  {
    hide FileOk, Unlink;
    UnlinkRest(list, i);
  }

  lemma CacheRemove(files: map<nat, File>, cache: seq<nat>, i: nat)
    requires CacheOk(files, cache) && i !in cache
    ensures CacheOk(files - {i}, cache)
  {
  }

  lemma CacheKeepNew(files: map<nat, File>, cache: seq<nat>, i: nat, f: File)
    requires CacheOk(files, cache) && i !in files && f.state != Loaded
    ensures CacheOk(files[i := f], cache) && Sum(InBytes, cache, files[i := f]) == Sum(InBytes, cache, files)
  {
    CacheKeep(files, cache, i, f);
  }

  lemma CacheSame(files: map<nat, File>, cache: seq<nat>, i: nat, f: File)
    requires CacheOk(files, cache) && i in files && f.state == files[i].state && f.size == files[i].size
    ensures CacheOk(files[i := f], cache) && Sum(InBytes, cache, files[i := f]) == Sum(InBytes, cache, files)
  {
    if i in cache {
      SumUpdate(InBytes, cache, files, i, f);
    } else {
      SumOther(InBytes, cache, files, i, f);
    }
  }

  lemma CacheDrop(files: map<nat, File>, cache: seq<nat>, i: nat, f: File)
    requires CacheOk(files, cache) && i in cache && f.state != Loaded
    ensures CacheOk(files[i := f], Unlink(cache, i))
    ensures Sum(InBytes, Unlink(cache, i), files[i := f]) == Sum(InBytes, cache, files) - files[i].size
  {
    UnlinkRest(cache, i);
    SumUnlink(InBytes, cache, files, i);
    SumOther(InBytes, Unlink(cache, i), files, i, f);
  }

  lemma CacheAdd(files: map<nat, File>, cache: seq<nat>, i: nat, f: File)
    requires CacheOk(files, cache) && i !in cache && f.state == Loaded
    ensures CacheOk(files[i := f], [i] + cache)
    ensures Sum(InBytes, [i] + cache, files[i := f]) == Sum(InBytes, cache, files) + f.size
  {
    SumOther(InBytes, cache, files, i, f);
    assert ([i] + cache)[1..] == cache;
  }

  lemma CacheFront(files: map<nat, File>, cache: seq<nat>, i: nat)
    requires CacheOk(files, cache) && i in cache
    ensures CacheOk(files, [i] + Unlink(cache, i)) &&
            Sum(InBytes, [i] + Unlink(cache, i), files) == Sum(InBytes, cache, files)
  {
    UnlinkRest(cache, i);
    SumUnlink(InBytes, cache, files, i);
    assert ([i] + Unlink(cache, i))[1..] == Unlink(cache, i);
  }

  lemma {:induction false} SumMissing(m: Measure, list: seq<nat>, files: map<nat, File>, i: nat)
    requires i !in list
    ensures Sum(m, list, files - {i}) == Sum(m, list, files)
  {
    if list != [] {
      SumMissing(m, list[1..], files, i);
    }
  }

  function FirstOf(s: Bytes, n: nat): Bytes { if |s| <= n then s else s[..n] }

  lemma NoBlocks(bs: nat)
    requires 0 < bs < TWO_31
    ensures Blocks(0, bs) == 0
  {
    Sticky.DivModUnique(bs - 1, 0x1_0000_0000_0000_0000, 0, bs - 1);
    Sticky.DivModUnique(bs - 1, bs, 0, bs - 1);
  }

  /** Contents dropped, to be loaded again when needed. */
  function Evicted(f: File): File { f.(state := Unloaded, buf := []) }

  // ---- trimming ----

  /** The cache list after making `excess` bytes of room: closed files go, from the back, until that is enough. */
  function Trimmed(files: map<nat, File>, cache: seq<nat>, excess: int): (r: seq<nat>)
  {
    if excess <= 0 || cache == [] then cache
    else
      var n := |cache| - 1;
      var i := cache[n];
      if i in files && files[i].openCount == 0 then Trimmed(files, cache[..n], excess - files[i].size)
      else Trimmed(files, cache[..n], excess) + [i]
  }

  /** Trimming drops no open file, and drops closed ones only behind all those it keeps. */
  lemma {:induction false} TrimmedKeeps(files: map<nat, File>, cache: seq<nat>, excess: int, i: nat, j: nat)
    requires Distinct(cache) && i < |cache| && cache[i] in files
    ensures files[cache[i]].openCount != 0 ==> cache[i] in Trimmed(files, cache, excess)
    ensures i < j < |cache| && cache[j] in files && files[cache[j]].openCount == 0 &&
            cache[j] in Trimmed(files, cache, excess) ==>
              cache[i] in Trimmed(files, cache, excess)
  {
    if excess > 0 {
      var n := |cache| - 1;
      var last := cache[n];
      var drop := last in files && files[last].openCount == 0;
      TrimmedFrom(files, cache[..n], if drop then excess - files[last].size else excess);
      if i < n {
        TrimmedKeeps(files, cache[..n], if drop then excess - files[last].size else excess, i, j);
      }
    }
  }

  lemma {:induction false} TrimmedFrom(files: map<nat, File>, cache: seq<nat>, excess: int)
    ensures forall i :: i in Trimmed(files, cache, excess) ==> i in cache
  {
    if excess > 0 && cache != [] {
      var n := |cache| - 1;
      TrimmedFrom(files, cache[..n], excess);
      TrimmedFrom(files, cache[..n], if cache[n] in files then excess - files[cache[n]].size else excess);
    }
  }

  lemma TrimmedNone(files: map<nat, File>, cache: seq<nat>, k: nat, excess: int)
    requires k <= |cache| && (excess <= 0 || k == 0)
    ensures Trimmed(files, cache[..k], excess) + cache[k..] == cache
  {
    assert cache[..k] + cache[k..] == cache;
  }

  lemma NoneEvicted(files: map<nat, File>, cache: seq<nat>, excess: int)
    ensures OnlyEvicted(files, cache, files, cache) && AllOpen(files, [])
    ensures excess <= 0 ==> Trimmed(files, cache, excess) == cache
    ensures Trimmed(files, cache, excess) + [] == Trimmed(files, cache, excess)
  {
  }

  ghost predicate AllOpen(files: map<nat, File>, s: seq<nat>)
  {
    forall i :: i in s ==> i in files && files[i].openCount != 0
  }

  lemma OpenEach(files: map<nat, File>, cache: seq<nat>)
    requires AllOpen(files, cache[0..])
    ensures forall i :: i in cache ==> i in files && files[i].openCount != 0
  {
    assert cache[0..] == cache;
  }

  lemma TrimmedLast(files: map<nat, File>, cache: seq<nat>, k: nat, excess: int)
    requires k < |cache| && cache[k] in files && excess > 0
    ensures var i, t := cache[k], Trimmed(files, cache[..k + 1], excess) + cache[k + 1..];
            if files[i].openCount == 0 then t == Trimmed(files, cache[..k], excess - files[i].size) + cache[k + 1..]
            else t == Trimmed(files, cache[..k], excess) + cache[k..]
  {
    assert cache[..k + 1][..k] == cache[..k];
    assert cache[k..] == [cache[k]] + cache[k + 1..];
  }

  lemma OthersEvicted(files0: map<nat, File>, cache0: seq<nat>, files: map<nat, File>, cache: seq<nat>, i: nat, f: File)
    requires OnlyEvicted(files0, cache0, files, cache) && i !in cache0 && i in files0
    ensures i in files && files[i] == files0[i]
    ensures OnlyEvicted(files0[i := f], cache0, files[i := f], cache)
    ensures files0[i := files0[i]] == files0
  {
  }

  /** One file further: an open one stays, a closed one goes. */
  lemma TrimStep(files0: map<nat, File>, cache0: seq<nat>, files: map<nat, File>, cache: seq<nat>, k: nat, excess: int)
    requires OnlyEvicted(files0, cache0, files, cache) && CacheOk(files, cache) && k < |cache| && excess > 0
    requires AllOpen(files, cache[k + 1..])
    ensures cache[k] in files && cache[k] in cache && files[cache[k]].state == Loaded
    ensures var i, t := cache[k], Trimmed(files0, cache[..k + 1], excess) + cache[k + 1..];
            if files[i].openCount != 0 then AllOpen(files, cache[k..]) &&
              Trimmed(files0, cache[..k], excess) + cache[k..] == t
            else
              var c', files' := Unlink(cache, i), files[i := Evicted(files[i])];
              k <= |c'| && OnlyEvicted(files0, cache0, files', c') && AllOpen(files', c'[k..]) &&
              Trimmed(files0, c'[..k], excess - files[i].size) + c'[k..] == t
  {
    hide Trimmed, OnlyEvicted, Unlink;
    EvictedNext(files0, cache0, files, cache, k);
    TrimmedLast(files0, cache, k, excess);
    UnlinkAt(cache, k);
    var c' := Unlink(cache, cache[k]);
    assert c'[..k] == cache[..k] && c'[k..] == cache[k + 1..];
    assert cache[k..] == [cache[k]] + cache[k + 1..];
  }

  lemma UnlinkAt(list: seq<nat>, k: nat)
    requires Distinct(list) && k < |list|
    ensures Unlink(list, list[k]) == list[..k] + list[k + 1..]
  {
    assert Index(list, list[k]) == k;
  }

  /** The files that left the cache list were evicted; the others are as they were. */
  ghost predicate OnlyEvicted(files0: map<nat, File>, cache0: seq<nat>, files: map<nat, File>, cache: seq<nat>)
  {
    files.Keys == files0.Keys && (forall i :: i in cache ==> i in cache0) &&
    forall i :: i in files0 ==> files[i] == if i in cache0 && i !in cache then Evicted(files0[i]) else files0[i]
  }

  /** The same, with nothing said of file `i`. */
  ghost predicate OthersKept(files0: map<nat, File>, cache0: seq<nat>, files: map<nat, File>, cache: seq<nat>, i: nat)
  {
    files.Keys == files0.Keys && (forall j :: j in cache && j != i ==> j in cache0) &&
    forall j :: j in files0 && j != i ==>
      files[j] == if j in cache0 && j !in cache then Evicted(files0[j]) else files0[j]
  }

  /** Files that are open are not among those evicted. */
  lemma OpenedKept(files0: map<nat, File>, cache0: seq<nat>, files: map<nat, File>, cache: seq<nat>, i: nat,
                   handles: map<nat, Handle>, waiting: map<nat, nat>, h: nat)
    requires OthersKept(files0, cache0, files, cache, i) && HeldOk(handles, waiting, files) && h in handles
    requires handles[h].isOpened && handles[h].inode != i && CacheOk(files0, cache0)
    ensures handles[h].inode in files0 && files[handles[h].inode] == files0[handles[h].inode]
  {
    HeldSome(handles, waiting, files, h);
  }

  lemma EvictedNext(files0: map<nat, File>, cache0: seq<nat>, files: map<nat, File>, cache: seq<nat>, k: nat)
    requires OnlyEvicted(files0, cache0, files, cache) && CacheOk(files, cache) && k < |cache|
    ensures cache[k] in files && cache[k] in files0 && files[cache[k]] == files0[cache[k]]
    ensures OnlyEvicted(files0, cache0, files[cache[k] := Evicted(files[cache[k]])], cache[..k] + cache[k + 1..])
  {
    var i, rest := cache[k], cache[..k] + cache[k + 1..];
    assert i in cache;
    UnlinkAt(cache, k);
    UnlinkRest(cache, i);
    assert forall j :: j in rest <==> j in cache && j != i;
  }

  /** The memory behind the contents, up to a new size, is there and holds zeros. */
  predicate ZeroSlack(f: File, size: nat) { size <= |f.buf| && forall k :: f.size <= k < size ==> f.buf[k] == 0 }

  /** The buffer for a new size: grown by at least a quarter and filled with zeros, or shrunk by a fifth. Which of the
      two is told by the difference as a signed word. */
  method ResizeBuffer(buf0: Bytes, size0: nat, size: nat, host: Host, junk: nat -> bv8, allocOk: bool)
    returns (r: Status, buf: Bytes)
    requires size0 <= |buf0| < host.Word() && size < host.Word()
    ensures |buf| < host.Word() && (r == Ok || r == ENOSPC || r == Undefined) && (r == ENOSPC ==> !allocOk)
    ensures r == Undefined <==> size - size0 < -host.Half()
    ensures r == Ok && size - size0 < host.Half() ==> size <= |buf| && buf[..size] == Resized(buf0[..size0], size)
    ensures r == Ok && size - size0 >= host.Half() ==> buf <= buf0 && (size <= |buf| <==> size <= |buf0|)
  {
    SignedIs(host, size - size0);
    buf := buf0;
    var diff := host.Signed(size - size0);
    if diff > 0 {
      if size > |buf| {
        var alloc := |buf| * 5 % host.Word() / 4;
        alloc := if size > alloc then size else alloc;
        if !allocOk {
          return ENOSPC, buf;
        }
        buf := Realloc(buf, alloc, junk);
      }
      if size0 + diff > |buf| {
        return Undefined, buf;
      }
      buf := buf[..size0] + Zeros(diff) + buf[size0 + diff..];
    } else {
      var alloc := |buf| * 4 % host.Word() / 5;
      Shrinks(|buf|, host);
      if size <= alloc {
        if !allocOk {
          return ENOSPC, buf;
        }
        buf := Realloc(buf, alloc, junk);
      }
    }
    return Ok, buf;
  }

  lemma Shrinks(n: nat, host: Host)
    ensures n * 4 % host.Word() / 5 <= n
  {
    Sticky.DivModIs(n * 4, host.Word());
  }

  function Realloc(buf: Bytes, n: nat, junk: nat -> bv8): (r: Bytes)
    ensures |r| == n && forall i :: 0 <= i < n && i < |buf| ==> r[i] == buf[i]
  {
    if n <= |buf| then buf[..n] else buf + seq(n - |buf|, i requires 0 <= i => junk(i))
  }
}
