/** Directories, links and open handles of the in-memory filesystem, and the counts that decide when an inode is
    freed. */
module FsTree {
  datatype Kind = Dir | Reg | Lnk | Special

  datatype Inode = Inode(kind: Kind, refcount: int, openCount: int)

  /** A directory entry is known by its directory and its name. */
  datatype Key = Key(dir: nat, name: string)

  /** `Undefined`: an assertion fails, or the language gives no meaning to what comes next. */
  datatype Status = Ok | ENOENT | EEXIST | ENOTDIR | ENOTEMPTY | EPERM | EINVAL | Undefined

  // ---- counting ----

  ghost function Naming(entries: map<Key, nat>, i: nat): set<Key> { set k | k in entries && entries[k] == i }

  ghost function Holding(handles: map<nat, nat>, i: nat): set<nat> { set h | h in handles && handles[h] == i }

  lemma NamingAdd(entries: map<Key, nat>, k: Key, j: nat, i: nat)
    requires k !in entries
    ensures |Naming(entries[k := j], i)| == |Naming(entries, i)| + (if i == j then 1 else 0)
  {
    assert Naming(entries[k := j], i) == if i == j then Naming(entries, i) + {k} else Naming(entries, i);
  }

  lemma NamingRemove(entries: map<Key, nat>, k: Key, i: nat)
    requires k in entries
    ensures |Naming(entries - {k}, i)| == |Naming(entries, i)| - (if i == entries[k] then 1 else 0)
  {
    assert Naming(entries - {k}, i) == if i == entries[k] then Naming(entries, i) - {k} else Naming(entries, i);
  }

  lemma NamedOnce(entries: map<Key, nat>, k: Key)
    requires k in entries
    ensures |Naming(entries, entries[k])| >= 1
  {
    assert k in Naming(entries, entries[k]);
  }

  lemma HoldingAdd(handles: map<nat, nat>, h: nat, j: nat, i: nat)
    requires h !in handles
    ensures |Holding(handles[h := j], i)| == |Holding(handles, i)| + (if i == j then 1 else 0)
  {
    assert Holding(handles[h := j], i) == if i == j then Holding(handles, i) + {h} else Holding(handles, i);
  }

  lemma HoldingRemove(handles: map<nat, nat>, h: nat, i: nat)
    requires h in handles
    ensures |Holding(handles - {h}, i)| == |Holding(handles, i)| - (if handles[h] == i then 1 else 0)
  {
    assert Holding(handles - {h}, i) == if handles[h] == i then Holding(handles, i) - {h} else Holding(handles, i);
  }

  lemma HeldOnce(handles: map<nat, nat>, h: nat)
    requires h in handles
    ensures |Holding(handles, handles[h])| >= 1
  {
    assert h in Holding(handles, handles[h]);
  }

  /** A directory is linked as long as it names itself. */
  ghost predicate Linked(entries: map<Key, nat>, d: nat) { Key(d, ".") in entries && entries[Key(d, ".")] == d }

  /** Counts are right, and nothing with both counts zero is left. */
  ghost predicate CountOk(n: Inode, i: nat, entries: map<Key, nat>, handles: map<nat, nat>, root: nat)
  {
    n.refcount == |Naming(entries, i)| + (if i == root then 1 else 0) && n.openCount == |Holding(handles, i)| &&
    n.refcount + n.openCount > 0
  }

  ghost predicate CountsOk(inodes: map<nat, Inode>, entries: map<Key, nat>, handles: map<nat, nat>, root: nat)
  {
    forall i :: i in inodes ==> CountOk(inodes[i], i, entries, handles, root)
  }

  /** Entries name inodes that exist, and only linked directories, or the one being taken apart, have any. */
  ghost predicate EntriesOk(inodes: map<nat, Inode>, entries: map<Key, nat>, apart: set<nat>)
  {
    forall k :: k in entries ==> EntryOk(inodes, entries, apart, k)
  }

  ghost predicate EntryOk(inodes: map<nat, Inode>, entries: map<Key, nat>, apart: set<nat>, k: Key)
    requires k in entries
  {
    entries[k] in inodes && IsDir(inodes, k.dir) && (Linked(entries, k.dir) || k.dir in apart)
  }

  predicate IsDir(inodes: map<nat, Inode>, i: nat) { i in inodes && inodes[i].kind == Dir }

  ghost predicate HandlesOk(inodes: map<nat, Inode>, handles: map<nat, nat>)
  {
    forall h :: h in handles ==> handles[h] in inodes
  }

  ghost predicate Counted(inodes: map<nat, Inode>, entries: map<Key, nat>, handles: map<nat, nat>, root: nat,
                          apart: set<nat>)
  {
    CountsOk(inodes, entries, handles, root) && EntriesOk(inodes, entries, apart) && HandlesOk(inodes, handles) &&
      IsDir(inodes, root)
  }

  /** What lowering a count does: an inode that nothing names or holds any more is gone. */
  function Lowered(inodes: map<nat, Inode>, i: nat, n: Inode): map<nat, Inode>
  {
    if n.refcount <= 0 && n.openCount <= 0 then inodes - {i} else inodes[i := n]
  }

  function LessOne(inodes: map<nat, Inode>, i: nat): map<nat, Inode>
    requires i in inodes
  {
    Lowered(inodes, i, inodes[i].(refcount := inodes[i].refcount - 1))
  }

  /** No inode appeared, and the ones left are of the kind they were. */
  ghost predicate KindsKept(before: map<nat, Inode>, after: map<nat, Inode>)
  {
    forall i :: i in after ==> i in before && after[i].kind == before[i].kind
  }

  lemma RemoveCounts(inodes: map<nat, Inode>, entries: map<Key, nat>, handles: map<nat, nat>, root: nat, k: Key)
    requires CountsOk(inodes, entries, handles, root) && k in entries && entries[k] in inodes
    ensures CountsOk(LessOne(inodes, entries[k]), entries - {k}, handles, root)
    ensures root in inodes ==> root in LessOne(inodes, entries[k])
  {
    hide Naming, Holding;
    NamedOnce(entries, k);
    assert CountOk(inodes[entries[k]], entries[k], entries, handles, root);
    var inodes' := LessOne(inodes, entries[k]);
    forall j | j in inodes'
      ensures CountOk(inodes'[j], j, entries - {k}, handles, root)
    {
      assert CountOk(inodes[j], j, entries, handles, root);
      NamingRemove(entries, k, j);
    }
  }

  /** Another entry survives: what it names and where it is are still counted. */
  lemma OtherEntry(inodes: map<nat, Inode>, entries: map<Key, nat>, handles: map<nat, nat>, root: nat, apart: set<nat>,
                   k: Key, e: Key)
    requires CountsOk(inodes, entries, handles, root) && k in entries && e in entries && e != k
    requires EntryOk(inodes, entries, apart, e) && entries[k] in inodes
    requires k.name != "." || k.dir in apart
    requires entries[k] in apart ==> |Naming(entries, entries[k])| >= 2 || entries[k] == root || e.dir != entries[k]
    ensures EntryOk(LessOne(inodes, entries[k]), entries - {k}, apart, e)
  {
    hide Naming, Holding;
    var i, entries' := entries[k], entries - {k};
    assert CountOk(inodes[i], i, entries, handles, root);
    NamingRemove(entries, k, i);
    NamedOnce(entries', e);
    if e.dir == i && Linked(entries', i) {
      NamedOnce(entries', Key(i, "."));
    }
    assert Linked(entries, e.dir) && Key(e.dir, ".") != k ==> Linked(entries', e.dir);
    assert Linked(entries, e.dir) && Key(e.dir, ".") == k ==> e.dir in apart;
  }

  lemma RemoveEntries(inodes: map<nat, Inode>, entries: map<Key, nat>, handles: map<nat, nat>, root: nat,
                      apart: set<nat>, k: Key)
    requires CountsOk(inodes, entries, handles, root) && EntriesOk(inodes, entries, apart) && k in entries
    requires k.name != "." || k.dir in apart
    requires entries[k] in apart ==>
               |Naming(entries, entries[k])| >= 2 || entries[k] == root ||
               forall e :: e in entries ==> e.dir != entries[k]
    ensures EntriesOk(LessOne(inodes, entries[k]), entries - {k}, apart)
  {
    hide Naming, CountsOk, LessOne;
    assert EntryOk(inodes, entries, apart, k);
    forall e | e in entries - {k}
      ensures EntryOk(LessOne(inodes, entries[k]), entries - {k}, apart, e)
    {
      assert EntryOk(inodes, entries, apart, e);
      OtherEntry(inodes, entries, handles, root, apart, k, e);
    }
  }

  lemma RemoveHandles(inodes: map<nat, Inode>, entries: map<Key, nat>, handles: map<nat, nat>, root: nat, i: nat)
    requires CountsOk(inodes, entries, handles, root) && HandlesOk(inodes, handles) && i in inodes
    ensures HandlesOk(LessOne(inodes, i), handles)
  {
    hide Naming, Holding;
    assert CountOk(inodes[i], i, entries, handles, root);
    forall h | h in handles
      ensures handles[h] in LessOne(inodes, i)
    {
      HeldOnce(handles, h);
    }
  }

  /** Deleting an entry lowers the count of what it named. */
  lemma RemoveEntry(inodes: map<nat, Inode>, entries: map<Key, nat>, handles: map<nat, nat>, root: nat, apart: set<nat>,
                    k: Key)
    requires Counted(inodes, entries, handles, root, apart) && k in entries
    requires k.name != "." || k.dir in apart
    requires entries[k] in apart ==>
               |Naming(entries, entries[k])| >= 2 || entries[k] == root ||
               forall e :: e in entries ==> e.dir != entries[k]
    ensures entries[k] in inodes && Counted(LessOne(inodes, entries[k]), entries - {k}, handles, root, apart)
  {
    hide CountsOk, HandlesOk;
    assert EntryOk(inodes, entries, apart, k);
    RemoveCounts(inodes, entries, handles, root, k);
    RemoveEntries(inodes, entries, handles, root, apart, k);
    RemoveHandles(inodes, entries, handles, root, entries[k]);
  }

  function MoreOne(inodes: map<nat, Inode>, i: nat): map<nat, Inode>
    requires i in inodes
  {
    inodes[i := inodes[i].(refcount := inodes[i].refcount + 1)]
  }

  /** Counts are right and handles live, wherever the entries are. */
  ghost predicate Tallied(inodes: map<nat, Inode>, entries: map<Key, nat>, handles: map<nat, nat>, root: nat)
  {
    CountsOk(inodes, entries, handles, root) && HandlesOk(inodes, handles)
  }

  lemma TalliedIs(inodes: map<nat, Inode>, entries: map<Key, nat>, handles: map<nat, nat>, root: nat, apart: set<nat>)
    requires Counted(inodes, entries, handles, root, apart)
    ensures Tallied(inodes, entries, handles, root)
  {
  }

  /** Adding an entry raises the count of what it names. */
  lemma AddEntryTally(inodes: map<nat, Inode>, entries: map<Key, nat>, handles: map<nat, nat>, root: nat, k: Key,
                      i: nat)
    requires Tallied(inodes, entries, handles, root) && k !in entries && i in inodes
    ensures Tallied(MoreOne(inodes, i), entries[k := i], handles, root)
  {
    hide Naming, Holding;
    var inodes', entries' := MoreOne(inodes, i), entries[k := i];
    forall j | j in inodes'
      ensures CountOk(inodes'[j], j, entries', handles, root)
    {
      assert CountOk(inodes[j], j, entries, handles, root);
      NamingAdd(entries, k, i, j);
    }
  }

  /** It is where it belongs if its directory is linked. */
  lemma AddEntry(inodes: map<nat, Inode>, entries: map<Key, nat>, handles: map<nat, nat>, root: nat, k: Key, i: nat)
    requires Counted(inodes, entries, handles, root, {}) && k !in entries && i in inodes && IsDir(inodes, k.dir)
    requires Linked(entries[k := i], k.dir)
    ensures Counted(MoreOne(inodes, i), entries[k := i], handles, root, {})
  {
    hide CountsOk;
    AddEntryTally(inodes, entries, handles, root, k, i);
    var inodes', entries' := MoreOne(inodes, i), entries[k := i];
    forall e | e in entries'
      ensures EntryOk(inodes', entries', {}, e)
    {
      if e != k {
        assert EntryOk(inodes, entries, {}, e);
      }
    }
  }

  /** An entry added to a directory that is not linked belongs nowhere. */
  lemma Stray(inodes: map<nat, Inode>, entries: map<Key, nat>, handles: map<nat, nat>, root: nat, k: Key)
    requires k in entries && !Linked(entries, k.dir)
    ensures !Counted(inodes, entries, handles, root, {})
  {
    assert !EntryOk(inodes, entries, {}, k);
  }

  /** Nothing names or holds what does not exist. */
  lemma Unknown(inodes: map<nat, Inode>, entries: map<Key, nat>, handles: map<nat, nat>, i: nat)
    requires EntriesOk(inodes, entries, {}) && HandlesOk(inodes, handles) && i !in inodes
    ensures |Naming(entries, i)| == 0 && |Holding(handles, i)| == 0
  {
    hide Linked;
    forall k | k in entries
      ensures entries[k] != i
    {
      assert EntryOk(inodes, entries, {}, k);
    }
    assert Naming(entries, i) == {} && Holding(handles, i) == {};
  }

  lemma AddNewTally(inodes: map<nat, Inode>, entries: map<Key, nat>, handles: map<nat, nat>, root: nat, k: Key, i: nat,
                    kind: Kind)
    requires Counted(inodes, entries, handles, root, {}) && k !in entries && i !in inodes
    ensures Tallied(inodes[i := Inode(kind, 1, 0)], entries[k := i], handles, root)
  {
    hide Naming, Holding;
    var inodes', entries' := inodes[i := Inode(kind, 1, 0)], entries[k := i];
    Unknown(inodes, entries, handles, i);
    forall j | j in inodes'
      ensures CountOk(inodes'[j], j, entries', handles, root)
    {
      if j != i {
        assert CountOk(inodes[j], j, entries, handles, root);
      }
      NamingAdd(entries, k, i, j);
    }
  }

  /** A new inode with its first entry. */
  lemma AddNew(inodes: map<nat, Inode>, entries: map<Key, nat>, handles: map<nat, nat>, root: nat, k: Key, i: nat,
               kind: Kind)
    requires Counted(inodes, entries, handles, root, {}) && k !in entries && i !in inodes && IsDir(inodes, k.dir) &&
             Linked(entries, k.dir)
    ensures Counted(inodes[i := Inode(kind, 1, 0)], entries[k := i], handles, root, {})
  {
    hide CountsOk;
    AddNewTally(inodes, entries, handles, root, k, i, kind);
    var inodes', entries' := inodes[i := Inode(kind, 1, 0)], entries[k := i];
    forall e | e in entries'
      ensures EntryOk(inodes', entries', {}, e)
    {
      if e != k {
        assert EntryOk(inodes, entries, {}, e);
      }
    }
  }

  lemma AddHandle(inodes: map<nat, Inode>, entries: map<Key, nat>, handles: map<nat, nat>, root: nat, h: nat, i: nat)
    requires Counted(inodes, entries, handles, root, {}) && h !in handles && i in inodes
    ensures Counted(inodes[i := inodes[i].(openCount := inodes[i].openCount + 1)], entries, handles[h := i], root, {})
  {
    hide Naming, Holding;
    var inodes' := inodes[i := inodes[i].(openCount := inodes[i].openCount + 1)];
    forall j | j in inodes'
      ensures CountOk(inodes'[j], j, entries, handles[h := i], root)
    {
      assert CountOk(inodes[j], j, entries, handles, root);
      HoldingAdd(handles, h, i, j);
    }
    forall e | e in entries
      ensures EntryOk(inodes', entries, {}, e)
    {
      assert EntryOk(inodes, entries, {}, e);
    }
  }

  function ClosedOne(inodes: map<nat, Inode>, i: nat): map<nat, Inode>
    requires i in inodes
  {
    Lowered(inodes, i, inodes[i].(openCount := inodes[i].openCount - 1))
  }

  lemma RemoveHandle(inodes: map<nat, Inode>, entries: map<Key, nat>, handles: map<nat, nat>, root: nat, h: nat)
    requires Counted(inodes, entries, handles, root, {}) && h in handles
    ensures Counted(ClosedOne(inodes, handles[h]), entries, handles - {h}, root, {})
  {
    hide Naming, Holding;
    var i := handles[h];
    var inodes' := ClosedOne(inodes, i);
    HeldOnce(handles, h);
    assert CountOk(inodes[i], i, entries, handles, root);
    forall j | j in inodes'
      ensures CountOk(inodes'[j], j, entries, handles - {h}, root)
    {
      assert CountOk(inodes[j], j, entries, handles, root);
      HoldingRemove(handles, h, j);
    }
    forall e | e in entries
      ensures EntryOk(inodes', entries, {}, e)
    {
      assert EntryOk(inodes, entries, {}, e);
      NamedOnce(entries, e);
      if Linked(entries, e.dir) {
        NamedOnce(entries, Key(e.dir, "."));
      }
    }
    forall g | g in handles - {h}
      ensures handles[g] in inodes'
    {
      assert handles[g] == (handles - {h})[g];
      HoldingRemove(handles, h, i);
      HeldOnce(handles - {h}, g);
    }
  }

  /** Entries of a directory other than the two every directory has. */
  ghost predicate IsEmptyDir(entries: map<Key, nat>, d: nat)
  {
    forall k :: k in entries && k.dir == d ==> k.name == "." || k.name == ".."
  }

  /** The entries without those of directory `d`. */
  function Without(entries: map<Key, nat>, d: nat): map<Key, nat>
  {
    map k | k in entries && k.dir != d :: entries[k]
  }

  class Tree {
    const root: nat
    var inodes: map<nat, Inode>
    var entries: map<Key, nat>
    /** Live handles. */
    var handles: map<nat, nat>
    var nextIno: nat
    var nextHandle: nat

    ghost predicate Valid()
      reads this
    {
      Counted(inodes, entries, handles, root, {}) && Fresh()
    }

    /** Every count is right, wherever the entries are. */
    ghost predicate Counts()
      reads this
    {
      Tallied(inodes, entries, handles, root)
    }

    ghost predicate Fresh()
      reads this
    {
      (forall i :: i in inodes ==> i < nextIno) && forall h :: h in handles ==> h < nextHandle
    }

    /** The root, which is its own parent. */
    constructor ()
      ensures Valid() && handles == map[] && entries == map[Key(root, ".") := root, Key(root, "..") := root]
      ensures inodes == map[root := Inode(Dir, 3, 0)]
    {
      root := 0;
      inodes := map[0 := Inode(Dir, 3, 0)];
      entries := map[Key(0, ".") := 0, Key(0, "..") := 0];
      handles, nextIno, nextHandle := map[], 1, 0;
      new;
      assert Naming(entries, 0) == {Key(0, "."), Key(0, "..")};
    }

    /** A new handle on an inode. */
    method FidCreate(i: nat) returns (h: nat)
      requires Valid() && i in inodes
      modifies `inodes, `handles, `nextHandle
      ensures Valid() && h !in old(handles) && handles == old(handles)[h := i]
      ensures inodes == old(inodes)[i := old(inodes)[i].(openCount := old(inodes)[i].openCount + 1)]
      ensures KindsKept(old(inodes), inodes)
    {
      hide Counted;
      h := nextHandle;
      AddHandle(inodes, entries, handles, root, h, i);
      inodes := inodes[i := inodes[i].(openCount := inodes[i].openCount + 1)];
      handles, nextHandle := handles[h := i], h + 1;
    }

    method Attach() returns (h: nat)
      requires Valid()
      modifies `inodes, `handles, `nextHandle
      ensures Valid() && h !in old(handles) && handles == old(handles)[h := root] && root in old(inodes)
      ensures inodes == old(inodes)[root := old(inodes)[root].(openCount := old(inodes)[root].openCount + 1)]
      ensures KindsKept(old(inodes), inodes)
    {
      h := FidCreate(root);
    }

    /** Follows names as far as they lead; the new handle is on the last inode reached. */
    method Walk(f: nat, names: seq<string>) returns (h: nat, count: nat)
      requires Valid() && f in handles
      modifies `inodes, `handles, `nextHandle
      ensures Valid() && count <= |names| && h !in old(handles)
      ensures handles == old(handles)[h := Reached(entries, old(handles)[f], names[..count])]
      ensures count < |names| ==> Key(handles[h], names[count]) !in entries
      ensures KindsKept(old(inodes), inodes)
    {
      var n := handles[f];
      count := 0;
      while count < |names| && Key(n, names[count]) in entries
        invariant unchanged(this) && count <= |names| && n in inodes &&
                  n == Reached(entries, handles[f], names[..count])
      {
        assert EntryOk(inodes, entries, {}, Key(n, names[count]));
        assert names[..count + 1][..count] == names[..count];
        n := entries[Key(n, names[count])];
        count := count + 1;
      }
      h := FidCreate(n);
    }

    /** Gives up a handle. */
    method Delete(f: nat)
      requires Valid() && f in handles
      modifies `inodes, `handles
      ensures Valid() && handles == old(handles) - {f} && old(handles)[f] in old(inodes)
      ensures inodes == ClosedOne(old(inodes), old(handles)[f])
      ensures KindsKept(old(inodes), inodes)
    {
      hide Counted;
      RemoveHandle(inodes, entries, handles, root, f);
      assert handles[f] in inodes by {
        HandleLive(inodes, entries, handles, root, f);
      }
      inodes := ClosedOne(inodes, handles[f]);
      handles := handles - {f};
    }

    /** A new inode under a new name: regular files, links and special files alike. Entries stay where they belong
        exactly if the directory is still linked. That there is a directory is only asserted. */
    method MakeNode(f: nat, name: string, kind: Kind) returns (r: Status, i: nat)
      requires Valid() && f in handles
      modifies `inodes, `entries, `nextIno
      ensures Counts()
      ensures r == if kind == Dir then EINVAL
                   else if old(Key(handles[f], name) in entries) then EEXIST
                   else if old(IsDir(inodes, handles[f])) then Ok else Undefined
      ensures r == Ok ==>
                i == old(nextIno) && i !in old(inodes) && entries == old(entries)[Key(handles[f], name) := i] &&
                inodes == old(inodes)[i := Inode(kind, 1, 0)] && (Valid() <==> old(Linked(entries, handles[f])))
      ensures r != Ok ==> entries == old(entries) && inodes == old(inodes) && Valid()
    {
      hide Counted, Tallied;
      var k := Key(handles[f], name);
      i := nextIno;
      TalliedIs(inodes, entries, handles, root, {});
      if kind == Dir {
        return EINVAL, i;
      }
      if k in entries {
        return EEXIST, i;
      }
      if !IsDir(inodes, k.dir) {
        return Undefined, i;
      }
      AddNewTally(inodes, entries, handles, root, k, i, kind);
      if Linked(entries, k.dir) {
        AddNew(inodes, entries, handles, root, k, i, kind);
      } else {
        Stray(inodes[i := Inode(kind, 1, 0)], entries[k := i], handles, root, k);
      }
      inodes, entries, nextIno := inodes[i := Inode(kind, 1, 0)], entries[k := i], i + 1;
      return Ok, i;
    }

    method Mkdir(f: nat, name: string) returns (r: Status)
      requires Valid() && f in handles
      modifies `inodes, `entries, `nextIno
      ensures Counts()
      ensures r == if !old(IsDir(inodes, handles[f])) then ENOTDIR
                   else if old(Key(handles[f], name) in entries) then EEXIST else Ok
      ensures r != Ok ==> entries == old(entries) && inodes == old(inodes) && Valid()
      ensures r == Ok ==>
                entries == DirEntries(old(entries), Key(handles[f], name), old(nextIno)) &&
                old(nextIno) !in old(inodes) &&
                KindsKept(old(inodes)[old(nextIno) := Inode(Dir, 2, 0)], inodes) &&
                (Valid() <==> old(Linked(entries, handles[f])))
      ensures r == Ok ==>
                var d, i := handles[f], old(nextIno);
                IsDirectoryIn(old(entries), entries, d, name, i) && IsCountedTwice(old(inodes), inodes, d, i)
    {
      hide Counted, DirEntries, Tallied, IsDirectoryIn, KindsKept;
      var d := handles[f];
      TalliedIs(inodes, entries, handles, root, {});
      if !IsDir(inodes, d) {
        return ENOTDIR;
      }
      var k, i := Key(d, name), nextIno;
      if k in entries {
        return EEXIST;
      }
      NewDirectoryTally(inodes, entries, handles, root, k, i);
      if Linked(entries, d) {
        NewDirectory(inodes, entries, handles, root, k, i);
      } else {
        StrayDirectory(inodes, entries, handles, root, k, i);
      }
      MadeDirectory(inodes, entries, handles, root, k, i);
      inodes, entries, nextIno := DirInodes(inodes, d, i), DirEntries(entries, k, i), i + 1;
      assert KindsKept(old(inodes)[i := Inode(Dir, 2, 0)], inodes) by {
        SameKinds(old(inodes), d, i);
      }
      return Ok;
    }

    /** Creates a regular file and moves the handle to it. In a directory that is no longer linked, giving up the
        handle may free the directory with the new entry in it. */
    method Create(f: nat, name: string) returns (r: Status)
      requires Valid() && f in handles
      modifies `inodes, `entries, `handles, `nextIno
      ensures r == if !old(IsDir(inodes, handles[f])) then ENOTDIR
                   else if old(Key(handles[f], name) in entries) then EEXIST else Ok
      ensures r == Ok ==>
                entries == old(entries)[Key(old(handles[f]), name) := old(nextIno)] &&
                handles == old(handles)[f := old(nextIno)] &&
                old(nextIno) !in old(inodes) && KindsKept(old(inodes)[old(nextIno) := Inode(Reg, 1, 1)], inodes) &&
                (Valid() <==> old(Linked(entries, handles[f])))
      ensures r != Ok ==> entries == old(entries) && inodes == old(inodes) && handles == old(handles) && Valid()
    {
      hide Counted, Tallied;
      if !IsDir(inodes, handles[f]) {
        return ENOTDIR;
      }
      ghost var linked := Linked(entries, handles[f]);
      var i, d := 0, handles[f];
      r, i := MakeNode(f, name, Reg);
      if r != Ok {
        return;
      }
      if linked {
        RemoveHandle(inodes, entries, handles, root, f);
        AddHandle(ClosedOne(inodes, d), entries, handles - {f}, root, f, i);
      } else {
        var inodes' := ClosedOne(inodes, d);
        Stray(inodes'[i := inodes'[i].(openCount := inodes'[i].openCount + 1)], entries, handles[f := i], root,
              Key(d, name));
      }
      inodes := ClosedOne(inodes, d);
      inodes := inodes[i := inodes[i].(openCount := inodes[i].openCount + 1)];
      assert (handles - {f})[f := i] == handles[f := i];
      handles := handles[f := i];
    }

    /** Another name for a file. */
    method Link(df: nat, f: nat, name: string) returns (r: Status)
      requires Valid() && df in handles && f in handles
      modifies `inodes, `entries
      ensures Counts()
      ensures r == if old(IsDir(inodes, handles[f])) then EPERM
                   else if old(Key(handles[df], name) in entries) then EEXIST
                   else if old(IsDir(inodes, handles[df])) then Ok else Undefined
      ensures r == Ok ==>
                entries == old(entries)[Key(handles[df], name) := handles[f]] &&
                (Valid() <==> old(Linked(entries, handles[df])))
      ensures r != Ok ==> entries == old(entries) && inodes == old(inodes) && Valid()
      ensures KindsKept(old(inodes), inodes)
    {
      hide Counted, Tallied;
      HandleLive(inodes, entries, handles, root, f);
      TalliedIs(inodes, entries, handles, root, {});
      var n, k := handles[f], Key(handles[df], name);
      if IsDir(inodes, n) {
        return EPERM;
      }
      if k in entries {
        return EEXIST;
      }
      if !IsDir(inodes, k.dir) {
        return Undefined;
      }
      AddEntryTally(inodes, entries, handles, root, k, n);
      if Linked(entries, k.dir) {
        LinkedStill(entries, k, n);
        AddEntry(inodes, entries, handles, root, k, n);
      } else {
        Stray(MoreOne(inodes, n), entries[k := n], handles, root, k);
      }
      inodes, entries := MoreOne(inodes, n), entries[k := n];
      return Ok;
    }

    /** Deletes every entry of directory `n`, which `k` still names. */
    method FlushDir(n: nat, ghost k: Key)
      requires Valid() && k in entries && entries[k] == n && k.dir != n && IsDir(inodes, n)
      modifies `inodes, `entries
      ensures Valid() && entries == Without(old(entries), n)
      ensures KindsKept(old(inodes), inodes)
    {
      hide Counted;
      var left := set e | e in entries && e.dir == n;
      ApartMore(inodes, entries, handles, root, n);
      while left != {}
        invariant Counted(inodes, entries, handles, root, {n}) && Fresh()
        invariant k in entries && entries[k] == n && left == (set e | e in entries && e.dir == n)
        invariant Without(entries, n) == Without(old(entries), n)
        invariant KindsKept(old(inodes), inodes)
        decreases |left|
      {
        var e :| e in left;
        NamedTwice(entries, e, k);
        RemoveEntry(inodes, entries, handles, root, {n}, e);
        inodes := LessOne(inodes, entries[e]);
        entries := entries - {e};
        left := left - {e};
      }
      assert forall e :: e in entries && e.dir == n ==> e in left;
      assert entries == Without(entries, n);
      ApartDone(inodes, entries, handles, root, n);
    }

    /** Removes a name; a directory must be empty, and loses its own entries with it. */
    method Unlink(f: nat, name: string) returns (r: Status)
      requires Valid() && f in handles
      modifies `inodes, `entries
      ensures Valid()
      ensures var k := Key(handles[f], name);
              r == if name == "." || name == ".." || k !in old(entries) then ENOENT
                   else if old(IsDir(inodes, entries[k]) && !IsEmptyDir(entries, entries[k])) then ENOTEMPTY else Ok
      ensures r == Ok ==>
                var k := Key(handles[f], name);
                entries == (if old(IsDir(inodes, entries[k])) then Without(old(entries), old(entries)[k])
                            else old(entries)) - {k}
      ensures r != Ok ==> entries == old(entries) && inodes == old(inodes)
      ensures KindsKept(old(inodes), inodes)
    {
      hide Counted;
      var k := Key(handles[f], name);
      if name == "." || name == ".." || k !in entries {
        return ENOENT;
      }
      var n := entries[k];
      if IsDir(inodes, n) {
        if exists e :: e in entries && e.dir == n && e.name != "." && e.name != ".." {
          return ENOTEMPTY;
        }
        FlushDir(n, k);
      }
      RemoveEntry(inodes, entries, handles, root, {}, k);
      inodes := LessOne(inodes, n);
      entries := entries - {k};
      return Ok;
    }

    /** Moves a name, replacing a file of the new name. Renaming a file to itself deletes its entry first and then
        looks at it; that the target is a directory is only asserted. Moving a directory's own entry leaves its other
        entries where they do not belong. */
    method Rename(f: nat, name: string, nf: nat, newName: string) returns (r: Status)
      requires Valid() && f in handles && nf in handles
      modifies `inodes, `entries
      ensures var k, k1 := Key(handles[f], name), Key(handles[nf], newName);
              r == if k !in old(entries) then ENOENT
                   else if k1 in old(entries) && old(IsDir(inodes, entries[k1])) then EEXIST
                   else if k == k1 || !old(IsDir(inodes, handles[nf])) then Undefined else Ok
      ensures r == Ok ==>
                var k, k1 := Key(handles[f], name), Key(handles[nf], newName);
                k1 != k && entries == old(entries)[k1 := old(entries)[k]] - {k} && Counts() &&
                (Valid() <==> TargetOk(old(entries), k, k1) && !LosesDot(old(entries), k, k1))
      ensures r == Ok ==> KindsKept(old(inodes), inodes)
      ensures r == ENOENT || r == EEXIST ==> entries == old(entries) && inodes == old(inodes) && Valid()
    {
      hide Counted, Tallied;
      var k, k1 := Key(handles[f], name), Key(handles[nf], newName);
      if k !in entries {
        return ENOENT;
      }
      var n, n1, replaced := entries[k], 0, k1 in entries;
      if replaced {
        n1 := entries[k1];
        if IsDir(inodes, n1) {
          return EEXIST;
        }
      }
      ghost var entries0, inodes0 := entries, inodes;
      if replaced {
        entries := entries - {k1};
      }
      if k !in entries || !IsDir(inodes, k1.dir) {
        return Undefined;
      }
      RenamedTally(inodes0, entries0, handles, root, k, k1);
      inodes, entries := MoreOne(inodes, n), entries[k1 := n];
      inodes, entries := LessOne(inodes, n), entries - {k};
      assert entries == old(entries)[k1 := n] - {k};
      if replaced {
        inodes := LessOne(inodes, n1);
      }
      RenamedWell(inodes0, entries0, handles, root, k, k1);
      return Ok;
    }
  }

  /** In a new tree: a file, and its renaming to its own name. */
  method RenameToItself() returns (r: Status)
    ensures r == Undefined
  {
    hide CountsOk, EntriesOk, Tallied;
    var t := new Tree();
    var h := t.Attach();
    var g := t.Attach();
    r := t.Create(g, "a");
    assert t.handles[h] == t.root && Key(t.root, "a") in t.entries;
    assert t.entries[Key(t.root, "a")] != t.root;
    r := t.Rename(h, "a", h, "a");
  }

  /** In a new tree: a directory is made, and a handle put on it. */
  method HoldDirectory() returns (t: Tree, h: nat, d: nat)
    ensures fresh(t) && t.Valid() && h in t.handles && d in t.handles && h != d &&
            t.handles[h] == t.root != t.handles[d]
    ensures t.entries == DirEntries(map[Key(t.root, ".") := t.root, Key(t.root, "..") := t.root], Key(t.root, "d"),
                                    t.handles[d])
    ensures IsDir(t.inodes, t.handles[d])
  {
    t := new Tree();
    hide Counted;
    h := t.Attach();
    ghost var i := t.nextIno;
    var r := t.Mkdir(h, "d");
    var count;
    d, count := t.Walk(h, ["d"]);
    DirHas(map[Key(t.root, ".") := t.root, Key(t.root, "..") := t.root], Key(t.root, "d"), i);
    assert Reached(t.entries, t.root, ["d"][..0]) == t.root;
    assert count == 1 && ["d"][..1] == ["d"] && ["d"][..0] == [];
    assert t.handles[d] == i;
    CountedDir(t.inodes, t.entries, t.handles, t.root, i);
  }

  lemma DirHas(entries: map<Key, nat>, k: Key, i: nat)
    requires k.dir != i
    ensures k in DirEntries(entries, k, i) && DirEntries(entries, k, i)[k] == i && Linked(DirEntries(entries, k, i), i)
    ensures forall e :: e in DirEntries(entries, k, i) ==>
              e in entries || e == k || e == Key(i, ".") || e == Key(i, "..")
  {
    DotNames(i, k);
  }

  /** A directory is removed while a handle is on it, and a file is made in it all the same. */
  method CreateInRemoved() returns (t: Tree, r: Status)
    ensures r == Ok && !t.Valid()
  {
    var h, d;
    t, h, d := HoldDirectory();
    hide Counted, DirEntries;
    ghost var top := map[Key(t.root, ".") := t.root, Key(t.root, "..") := t.root];
    DirHas(top, Key(t.root, "d"), t.handles[d]);
    assert "d" != "." && "d" != "..";
    r := t.Unlink(h, "d");
    assert Key(t.handles[d], ".") !in t.entries && Key(t.handles[d], "a") !in t.entries;
    HandleLive(t.inodes, t.entries, t.handles, t.root, d);
    var i;
    r, i := t.MakeNode(d, "a", Reg);
  }

  lemma NamedTwice(entries: map<Key, nat>, e: Key, k: Key)
    requires e in entries && k in entries && e != k
    ensures entries[e] == entries[k] ==> |Naming(entries, entries[k])| >= 2
  {
    if entries[e] == entries[k] {
      assert {e, k} <= Naming(entries, entries[k]);
      Bigger({e, k}, Naming(entries, entries[k]));
    }
  }

  lemma Bigger(a: set<Key>, b: set<Key>)
    requires a <= b
    ensures |a| <= |b|
  {
    assert b == a + (b - a);
  }

  lemma ApartMore(inodes: map<nat, Inode>, entries: map<Key, nat>, handles: map<nat, nat>, root: nat, n: nat)
    requires Counted(inodes, entries, handles, root, {})
    ensures Counted(inodes, entries, handles, root, {n})
  {
    forall k | k in entries
      ensures EntryOk(inodes, entries, {n}, k)
    {
      assert EntryOk(inodes, entries, {}, k);
    }
  }

  lemma ApartDone(inodes: map<nat, Inode>, entries: map<Key, nat>, handles: map<nat, nat>, root: nat, n: nat)
    requires Counted(inodes, entries, handles, root, {n}) && forall k :: k in entries ==> k.dir != n
    ensures Counted(inodes, entries, handles, root, {})
  {
    forall k | k in entries
      ensures EntryOk(inodes, entries, {}, k)
    {
      assert EntryOk(inodes, entries, {n}, k);
    }
  }

  lemma RaiseLower(inodes: map<nat, Inode>, n: nat)
    requires n in inodes && inodes[n].refcount >= 1
    ensures LessOne(MoreOne(inodes, n), n) == inodes
  {
  }

  /** The counts after a rename, with the replaced file's count lowered last. */
  lemma RenamedTally(inodes: map<nat, Inode>, entries: map<Key, nat>, handles: map<nat, nat>, root: nat, k: Key,
                     k1: Key)
    requires Counted(inodes, entries, handles, root, {}) && k in entries && k != k1
    ensures entries[k] in inodes && LessOne(MoreOne(inodes, entries[k]), entries[k]) == inodes
    ensures k1 in entries ==> entries[k1] in inodes
    ensures Tallied(if k1 in entries then LessOne(inodes, entries[k1]) else inodes, entries[k1 := entries[k]] - {k},
                    handles, root)
  {
    hide CountsOk, HandlesOk;
    var n := entries[k];
    assert EntryOk(inodes, entries, {}, k);
    NamedMore(inodes, entries, handles, root, k);
    RaiseLower(inodes, n);
    var inodes1, entries1 := inodes, entries;
    if k1 in entries {
      assert EntryOk(inodes, entries, {}, k1);
      RemoveTally(inodes, entries, handles, root, k1);
      inodes1, entries1 := LessOne(inodes, entries[k1]), entries - {k1};
      StillNamed(inodes, entries, handles, root, k, k1);
    }
    NamedMore(inodes1, entries1, handles, root, k);
    RaiseLower(inodes1, n);
    hide LessOne, MoreOne;
    AddEntryTally(inodes1, entries1, handles, root, k1, n);
    RemoveTally(MoreOne(inodes1, n), entries1[k1 := n], handles, root, k);
    assert entries1[k1 := n] - {k} == entries[k1 := n] - {k};
  }

  lemma RemoveTally(inodes: map<nat, Inode>, entries: map<Key, nat>, handles: map<nat, nat>, root: nat, k: Key)
    requires Tallied(inodes, entries, handles, root) && k in entries && entries[k] in inodes
    ensures Tallied(LessOne(inodes, entries[k]), entries - {k}, handles, root)
  {
    hide CountsOk, HandlesOk;
    RemoveCounts(inodes, entries, handles, root, k);
    RemoveHandles(inodes, entries, handles, root, entries[k]);
  }

  /** What another entry names survives. */
  lemma StillNamed(inodes: map<nat, Inode>, entries: map<Key, nat>, handles: map<nat, nat>, root: nat, k: Key, k1: Key)
    requires CountsOk(inodes, entries, handles, root) && k in entries && k1 in entries && k != k1
    requires entries[k] in inodes && entries[k1] in inodes
    ensures entries[k] in LessOne(inodes, entries[k1])
  {
    hide Naming, Holding;
    if entries[k] == entries[k1] {
      NamedTwice(entries, k, k1);
      assert CountOk(inodes[entries[k]], entries[k], entries, handles, root);
    }
  }

  /** The new entry will be in a linked directory: it is one, or the entry is what links it again. */
  ghost predicate TargetOk(entries: map<Key, nat>, k: Key, k1: Key)
    requires k in entries
  {
    Linked(entries, k1.dir) || (k1.name == "." && entries[k] == k1.dir)
  }

  /** The directory that loses the entry loses its link with it, and has other entries. */
  ghost predicate LosesDot(entries: map<Key, nat>, k: Key, k1: Key)
  {
    k.name == "." && (k1.dir == k.dir || exists e :: e in entries && e != k && e != k1 && e.dir == k.dir)
  }

  /** Where the entries belong after a rename: all is well exactly if the target is linked and no directory lost
      its own entry while it has others. */
  lemma RenamedWell(inodes: map<nat, Inode>, entries: map<Key, nat>, handles: map<nat, nat>, root: nat, k: Key, k1: Key)
    requires Counted(inodes, entries, handles, root, {}) && k in entries && k != k1 && IsDir(inodes, k1.dir)
    requires k1 in entries ==> entries[k1] in inodes && !IsDir(inodes, entries[k1])
    ensures var inodes' := if k1 in entries then LessOne(inodes, entries[k1]) else inodes;
            var entries' := entries[k1 := entries[k]] - {k};
            Counted(inodes', entries', handles, root, {}) <==> TargetOk(entries, k, k1) && !LosesDot(entries, k, k1)
  {
    var inodes' := if k1 in entries then LessOne(inodes, entries[k1]) else inodes;
    var entries' := entries[k1 := entries[k]] - {k};
    if !TargetOk(entries, k, k1) {
      StrayTarget(inodes, entries, handles, root, k, k1);
      Stray(inodes', entries', handles, root, k1);
    } else if LosesDot(entries, k, k1) {
      var e := LeftBehind(entries, k, k1);
      Stray(inodes', entries', handles, root, e);
    } else {
      RenamedTally(inodes, entries, handles, root, k, k1);
      RenamedRoot(inodes, entries, handles, root, k1);
      forall e | e in entries'
        ensures EntryOk(inodes', entries', {}, e)
      {
        RenamedEntry(inodes, entries, handles, root, k, k1, e);
      }
    }
  }

  lemma StrayTarget(inodes: map<nat, Inode>, entries: map<Key, nat>, handles: map<nat, nat>, root: nat, k: Key, k1: Key)
    requires Counted(inodes, entries, handles, root, {}) && k in entries && k != k1 && !TargetOk(entries, k, k1)
    ensures var entries' := entries[k1 := entries[k]] - {k}; k1 in entries' && !Linked(entries', k1.dir)
  {
    hide Counted;
    DotLinks(inodes, entries, handles, root, k1.dir);
  }

  lemma DotLinks(inodes: map<nat, Inode>, entries: map<Key, nat>, handles: map<nat, nat>, root: nat, d: nat)
    requires Counted(inodes, entries, handles, root, {})
    ensures Key(d, ".") in entries ==> Linked(entries, d)
  {
    hide CountsOk, HandlesOk;
    if Key(d, ".") in entries {
      assert EntryOk(inodes, entries, {}, Key(d, "."));
    }
  }

  lemma LeftBehind(entries: map<Key, nat>, k: Key, k1: Key) returns (e: Key)
    requires k in entries && k != k1 && LosesDot(entries, k, k1)
    ensures var entries' := entries[k1 := entries[k]] - {k}; e in entries' && !Linked(entries', e.dir)
  {
    if k1.dir == k.dir {
      e := k1;
    } else {
      e :| e in entries && e != k && e != k1 && e.dir == k.dir;
    }
    assert Key(e.dir, ".") == k;
  }

  lemma RenamedRoot(inodes: map<nat, Inode>, entries: map<Key, nat>, handles: map<nat, nat>, root: nat, k1: Key)
    requires Counted(inodes, entries, handles, root, {})
    requires k1 in entries ==> entries[k1] in inodes && !IsDir(inodes, entries[k1])
    ensures IsDir(if k1 in entries then LessOne(inodes, entries[k1]) else inodes, root)
  {
  }

  lemma RenamedEntry(inodes: map<nat, Inode>, entries: map<Key, nat>, handles: map<nat, nat>, root: nat, k: Key,
                     k1: Key, e: Key)
    requires Counted(inodes, entries, handles, root, {}) && k in entries && k != k1 && IsDir(inodes, k1.dir)
    requires k1 in entries ==> entries[k1] in inodes && !IsDir(inodes, entries[k1])
    requires TargetOk(entries, k, k1) && !LosesDot(entries, k, k1) && e in entries[k1 := entries[k]] - {k}
    ensures EntryOk(if k1 in entries then LessOne(inodes, entries[k1]) else inodes, entries[k1 := entries[k]] - {k}, {},
                    e)
  {
    hide CountsOk, HandlesOk;
    var named := if e == k1 then k else e;
    assert EntryOk(inodes, entries, {}, named) && EntryOk(inodes, entries, {}, k);
    if k1 in entries {
      StillNamed(inodes, entries, handles, root, named, k1);
    }
    RenamedLinked(entries, k, k1, e);
  }

  lemma RenamedLinked(entries: map<Key, nat>, k: Key, k1: Key, e: Key)
    requires k in entries && k != k1 && TargetOk(entries, k, k1) && !LosesDot(entries, k, k1)
    requires e == k1 || (e in entries && e != k && Linked(entries, e.dir))
    requires k1 in entries && k1.name == "." ==> entries[k1] != k1.dir
    ensures Linked(entries[k1 := entries[k]] - {k}, e.dir)
  {
    assert Key(e.dir, ".") == k ==> k.name == "." && k.dir == e.dir;
  }

  lemma NamedMore(inodes: map<nat, Inode>, entries: map<Key, nat>, handles: map<nat, nat>, root: nat, k: Key)
    requires CountsOk(inodes, entries, handles, root) && k in entries && entries[k] in inodes
    ensures inodes[entries[k]].refcount >= 1
  {
    hide Naming, Holding;
    assert CountOk(inodes[entries[k]], entries[k], entries, handles, root);
    NamedOnce(entries, k);
  }

  /** A linked directory exists. */
  lemma CountedDir(inodes: map<nat, Inode>, entries: map<Key, nat>, handles: map<nat, nat>, root: nat, d: nat)
    requires Counted(inodes, entries, handles, root, {}) && Linked(entries, d)
    ensures IsDir(inodes, d)
  {
    assert EntryOk(inodes, entries, {}, Key(d, "."));
  }

  lemma HandleLive(inodes: map<nat, Inode>, entries: map<Key, nat>, handles: map<nat, nat>, root: nat, f: nat)
    requires Counted(inodes, entries, handles, root, {}) && f in handles
    ensures handles[f] in inodes
  {
  }

  lemma LinkedStill(entries: map<Key, nat>, k: Key, i: nat)
    requires Linked(entries, k.dir) && k !in entries
    ensures Linked(entries[k := i], k.dir)
  {
  }

  /** Where a path leads, or as far as it goes. */
  function Reached(entries: map<Key, nat>, n: nat, names: seq<string>): nat
    decreases |names|
  {
    if names == [] then n
    else
      var k := Key(Reached(entries, n, names[..|names| - 1]), names[|names| - 1]);
      if k in entries then entries[k] else k.dir
  }

  /** A directory with its own two entries, under entry `k`. */
  function DirEntries(entries: map<Key, nat>, k: Key, i: nat): map<Key, nat>
  {
    entries[k := i][Key(i, ".") := i][Key(i, "..") := k.dir]
  }

  function DirInodes(inodes: map<nat, Inode>, d: nat, i: nat): map<nat, Inode>
    requires d in inodes && d != i
  {
    MoreOne(inodes[i := Inode(Dir, 2, 0)], d)
  }

  /** Directory `i` is found by `name` in `d`, and finds itself and `d`; every other name leads where it did. */
  ghost predicate IsDirectoryIn(before: map<Key, nat>, entries: map<Key, nat>, d: nat, name: string, i: nat)
  {
    Reached(entries, d, [name]) == i && Reached(entries, d, [name, "."]) == i &&
    Reached(entries, d, [name, ".."]) == d &&
    (forall e :: e in before ==> e in entries && entries[e] == before[e]) &&
    forall e :: e in entries && e !in before ==> e == Key(d, name) || e == Key(i, ".") || e == Key(i, "..")
  }

  /** The new directory has two names, its parent one more than before, and nothing else changes. */
  ghost predicate IsCountedTwice(before: map<nat, Inode>, inodes: map<nat, Inode>, d: nat, i: nat)
  {
    i !in before && d in before && inodes.Keys == before.Keys + {i} && inodes[i] == Inode(Dir, 2, 0) &&
    inodes[d].refcount == before[d].refcount + 1 && inodes[d].kind == before[d].kind &&
    inodes[d].openCount == before[d].openCount && forall j :: j in before && j != d ==> inodes[j] == before[j]
  }

  lemma TwoSteps(entries: map<Key, nat>, d: nat, a: string, b: string)
    requires Key(d, a) in entries && Key(entries[Key(d, a)], b) in entries
    ensures Reached(entries, d, [a]) == entries[Key(d, a)]
    ensures Reached(entries, d, [a, b]) == entries[Key(entries[Key(d, a)], b)]
  {
    assert [a][..0] == [] && [a, b][..1] == [a];
  }

  lemma MadeDirectory(inodes: map<nat, Inode>, entries: map<Key, nat>, handles: map<nat, nat>, root: nat, k: Key,
                      i: nat)
    requires Counted(inodes, entries, handles, root, {}) && k !in entries && i !in inodes && IsDir(inodes, k.dir)
    ensures IsDirectoryIn(entries, DirEntries(entries, k, i), k.dir, k.name, i)
    ensures IsCountedTwice(inodes, DirInodes(inodes, k.dir, i), k.dir, i)
  {
    NoEntriesIn(inodes, entries, i);
    hide Counted, IsDirectoryIn, DirEntries;
    FoundDirectory(entries, k, i);
  }

  lemma FoundDirectory(entries: map<Key, nat>, k: Key, i: nat)
    requires k !in entries && k.dir != i && forall e :: e in entries ==> e.dir != i
    ensures IsDirectoryIn(entries, DirEntries(entries, k, i), k.dir, k.name, i)
  {
    DotNames(i, k);
    var entries' := DirEntries(entries, k, i);
    TwoSteps(entries', k.dir, k.name, ".");
    TwoSteps(entries', k.dir, k.name, "..");
    hide Reached;
  }

  lemma SameKinds(inodes: map<nat, Inode>, d: nat, i: nat)
    requires d in inodes && i !in inodes
    ensures KindsKept(inodes[i := Inode(Dir, 2, 0)], DirInodes(inodes, d, i))
  {
  }

  lemma NewDirectory(inodes: map<nat, Inode>, entries: map<Key, nat>, handles: map<nat, nat>, root: nat, k: Key, i: nat)
    requires Counted(inodes, entries, handles, root, {}) && k !in entries && i !in inodes && IsDir(inodes, k.dir) &&
             Linked(entries, k.dir)
    ensures Counted(DirInodes(inodes, k.dir, i), DirEntries(entries, k, i), handles, root, {})
  {
    AddNew(inodes, entries, handles, root, k, i, Dir);
    NoEntriesIn(inodes, entries, i);
    hide Counted, MoreOne, Linked;
    var inodes1, entries1 := inodes[i := Inode(Dir, 1, 0)], entries[k := i];
    DotNames(i, k);
    LinkedByDot(entries1, i);
    AddEntry(inodes1, entries1, handles, root, Key(i, "."), i);
    var inodes2, entries2 := MoreOne(inodes1, i), entries1[Key(i, ".") := i];
    assert inodes2 == inodes[i := Inode(Dir, 2, 0)] by {
      RaiseNew(inodes, i);
    }
    LinkedStill(entries2, Key(i, ".."), k.dir);
    AddEntry(inodes2, entries2, handles, root, Key(i, ".."), k.dir);
  }

  lemma NewDirectoryTally(inodes: map<nat, Inode>, entries: map<Key, nat>, handles: map<nat, nat>, root: nat, k: Key,
                          i: nat)
    requires Counted(inodes, entries, handles, root, {}) && k !in entries && i !in inodes && k.dir in inodes
    ensures Tallied(DirInodes(inodes, k.dir, i), DirEntries(entries, k, i), handles, root)
  {
    NoEntriesIn(inodes, entries, i);
    AddNewTally(inodes, entries, handles, root, k, i, Dir);
    hide Counted, MoreOne, Tallied;
    var inodes1, entries1 := inodes[i := Inode(Dir, 1, 0)], entries[k := i];
    DotNames(i, k);
    AddEntryTally(inodes1, entries1, handles, root, Key(i, "."), i);
    RaiseNew(inodes, i);
    AddEntryTally(MoreOne(inodes1, i), entries1[Key(i, ".") := i], handles, root, Key(i, ".."), k.dir);
  }

  lemma StrayDirectory(inodes: map<nat, Inode>, entries: map<Key, nat>, handles: map<nat, nat>, root: nat, k: Key,
                       i: nat)
    requires k !in entries && i !in inodes && k.dir in inodes && !Linked(entries, k.dir)
    ensures !Counted(DirInodes(inodes, k.dir, i), DirEntries(entries, k, i), handles, root, {})
  {
    hide Counted;
    DotNames(i, k);
    Stray(DirInodes(inodes, k.dir, i), DirEntries(entries, k, i), handles, root, k);
  }

  lemma DotNames(i: nat, k: Key)
    requires k.dir != i
    ensures Key(i, ".") != Key(i, "..") && Key(i, ".") != k && Key(i, "..") != k
  {
    assert |"."| != |".."|;
  }

  lemma LinkedByDot(entries: map<Key, nat>, i: nat)
    ensures Linked(entries[Key(i, ".") := i], i)
  {
  }

  lemma RaiseNew(inodes: map<nat, Inode>, i: nat)
    ensures MoreOne(inodes[i := Inode(Dir, 1, 0)], i) == inodes[i := Inode(Dir, 2, 0)]
  {
  }

  lemma NoEntriesIn(inodes: map<nat, Inode>, entries: map<Key, nat>, i: nat)
    requires EntriesOk(inodes, entries, {}) && i !in inodes
    ensures forall k :: k in entries ==> k.dir != i
  {
    forall k | k in entries
      ensures k.dir != i
    {
      assert EntryOk(inodes, entries, {}, k);
    }
  }
}
