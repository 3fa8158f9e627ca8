/** The two halves of the file system side by side: the tree with its names and counts, and the files with their
    contents. They keep one set of handles and one set of inodes. */
module FsDevice {
  import T = FsTree
  import F = FsNodes
  import opened FsFiles

  /** The same handles on the same inodes, and the same entries. */
  ghost predicate Matched(inodes: map<nat, T.Inode>, entries: map<T.Key, nat>, handles: map<nat, nat>,
                          open: map<nat, F.Handle>, files: map<nat, F.File>)
  {
    open.Keys == handles.Keys && (forall h :: h in handles ==> open[h].inode == handles[h]) &&
    files.Keys == inodes.Keys && forall i :: i in inodes ==> SameNode(inodes, entries, files[i], i)
  }

  ghost predicate SameNode(inodes: map<nat, T.Inode>, entries: map<T.Key, nat>, f: F.File, i: nat)
  {
    (T.IsDir(inodes, i) <==> f.state == F.Directory) &&
    (T.IsDir(inodes, i) ==> forall name: string :: name in f.names <==> T.Key(i, name) in entries)
  }

  ghost predicate Agree(t: T.Tree, fs: Files)
    reads t, fs
  {
    t.Valid() && fs.Valid() && Matched(t.inodes, t.entries, t.handles, fs.handles, fs.files)
  }

  /** Both halves count the same handles on an inode. */
  lemma SameCounts(t: T.Tree, fs: Files, i: nat)
    requires Agree(t, fs) && fs.Held() && i in t.inodes
    ensures i in fs.files && fs.files[i].openCount == t.inodes[i].openCount && t.inodes[i].refcount >= 0
  {
    assert T.Holding(t.handles, i) == F.Holders(fs.handles, i);
    assert T.CountOk(t.inodes[i], i, t.entries, t.handles, t.root);
  }

  /** A directory that nothing names any more has no entries. */
  lemma NamelessEmpty(t: T.Tree, fs: Files, i: nat)
    requires Agree(t, fs) && i in t.inodes && i in fs.files && t.inodes[i].refcount <= 0
    ensures fs.files[i].state == F.Directory ==> fs.files[i].names == []
  {
    hide T.Naming;
    assert T.CountOk(t.inodes[i], i, t.entries, t.handles, t.root);
    if fs.files[i].state == F.Directory && fs.files[i].names != [] {
      var name := fs.files[i].names[0];
      assert T.EntryOk(t.inodes, t.entries, {}, T.Key(i, name));
      T.NamedOnce(t.entries, T.Key(i, "."));
    }
  }

  lemma HandleMatched(t: T.Tree, fs: Files, h: nat)
    requires Agree(t, fs) && h in t.handles
    ensures t.handles[h] in t.inodes && h in fs.handles && fs.handles[h].inode == t.handles[h]
  {
    hide T.CountsOk, T.EntriesOk;
  }

  lemma MatchedMore(inodes: map<nat, T.Inode>, entries: map<T.Key, nat>, handles: map<nat, nat>,
                    open: map<nat, F.Handle>, files: map<nat, F.File>, h: nat, i: nat, n: T.Inode, f: F.File)
    requires Matched(inodes, entries, handles, open, files) && i in inodes && i in files
    requires n == inodes[i].(openCount := n.openCount) && f == files[i].(openCount := f.openCount)
    ensures Matched(inodes[i := n], entries, handles[h := i], open[h := F.Handle(i, false, false, false)],
                    files[i := f])
  {
    hide SameNode;
    forall j | j in inodes
      ensures SameNode(inodes[i := n], entries, files[i := f][j], j)
    {
      SameStill(inodes, entries, files[j], inodes[i := n], files[i := f][j], j);
    }
  }

  lemma MatchedLess(inodes: map<nat, T.Inode>, entries: map<T.Key, nat>, handles: map<nat, nat>,
                    open: map<nat, F.Handle>, files: map<nat, F.File>, h: nat, i: nat, n: T.Inode, f: F.File)
    requires Matched(inodes, entries, handles, open, files) && i in inodes && i in files
    requires n == inodes[i].(openCount := n.openCount) && f == files[i].(openCount := f.openCount)
    ensures Matched(inodes - {i}, entries, handles - {h}, open - {h}, files - {i})
    ensures Matched(inodes[i := n], entries, handles - {h}, open - {h}, files[i := f])
  {
    hide SameNode;
    forall j | j in inodes
      ensures SameNode(inodes[i := n], entries, files[i := f][j], j)
      ensures j != i ==> SameNode(inodes - {i}, entries, files[j], j)
    {
      SameStill(inodes, entries, files[j], inodes[i := n], files[i := f][j], j);
      if j != i {
        SameStill(inodes, entries, files[j], inodes - {i}, files[j], j);
      }
    }
  }

  lemma SameStill(inodes: map<nat, T.Inode>, entries: map<T.Key, nat>, f: F.File, inodes': map<nat, T.Inode>,
                  f': F.File, i: nat)
    requires SameNode(inodes, entries, f, i) && f'.state == f.state && f'.names == f.names
    requires T.IsDir(inodes', i) <==> T.IsDir(inodes, i)
    ensures SameNode(inodes', entries, f', i)
  {
  }

  /** A client attaches: a handle on the root, in both halves. */
  method Attach(t: T.Tree, fs: Files) returns (h: nat)
    requires Agree(t, fs) && fs.Held()
    modifies t, fs
    ensures Agree(t, fs) && fs.Held() && h !in old(t.handles) && t.handles == old(t.handles)[h := t.root]
  {
    hide T.Counted, F.HeldOk, F.ListOk, F.CacheOk, F.Sum, F.Blocks, SameNode;
    ghost var inodes, files := t.inodes, fs.files;
    h := t.Attach();
    fs.NewHandle(h, t.root);
    MatchedMore(inodes, t.entries, old(t.handles), old(fs.handles), files, h, t.root, t.inodes[t.root],
                fs.files[t.root]);
  }

  /** A client gives up a handle. An inode is freed in both halves or in neither, and the process does not end. */
  method Clunk(t: T.Tree, fs: Files, h: nat) returns (r: F.Status)
    requires Agree(t, fs) && fs.Held() && h in t.handles
    modifies t, fs
    ensures r == F.Ok && Agree(t, fs) && t.handles == old(t.handles) - {h}
    ensures fs.Held() <==> old(t.handles)[h] !in t.inodes || forall j :: j in fs.waiting ==> fs.waiting[j] != h
  {
    hide T.Counted, F.HeldOk, F.ListOk, F.CacheOk, F.Sum, F.Blocks, Matched;
    HandleMatched(t, fs, h);
    var i := t.handles[h];
    SameCounts(t, fs, i);
    var named := t.inodes[i].refcount > 0;
    if !named {
      NamelessEmpty(t, fs, i);
    }
    MatchedLess(t.inodes, t.entries, t.handles, fs.handles, fs.files, h, i,
                t.inodes[i].(openCount := t.inodes[i].openCount - 1),
                fs.files[i].(openCount := if fs.files[i].openCount > 0 then fs.files[i].openCount - 1 else 0));
    r := fs.DropHandle(h, named);
    t.Delete(h);
  }
}
