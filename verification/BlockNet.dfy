/** A block device over HTTP: sectors come from a remote image through a cache of blocks; written data is
    kept in clusters of eight sectors that shadow the image. */
module BlockNet {
  import opened Options
  import opened Powers
  import Sticky

  datatype Sector = Sector(bytes: seq<bv8>)

  datatype CachedBlock = CachedBlock(num: nat, loaded: bool, data: seq<Sector>)

  type Clusters = seq<Option<seq<Sector>>>

  // ---- contents ----

  /** Every written cluster is complete, and there are none unless blocks are a whole number of clusters. */
  ghost predicate Shape(image: seq<Sector>, bs: nat, clusters: Clusters)
  {
    bs > 0 && |image| % bs == 0 && |clusters| == (|image| + 7) / 8 &&
    forall c :: 0 <= c < |clusters| && clusters[c].Some? ==> bs % 8 == 0 && |clusters[c].value| == 8
  }

  predicate IsWritten(clusters: Clusters, t: nat) { t / 8 < |clusters| && clusters[t / 8].Some? }

  /** The latest contents of sector `t`: what was written, else the image. */
  function Latest(image: seq<Sector>, clusters: Clusters, t: nat): Sector
    requires t < |image|
  {
    if IsWritten(clusters, t) && |clusters[t / 8].value| == 8 then clusters[t / 8].value[t % 8] else image[t]
  }

  /** The whole disk as a reader should see it. */
  function Disk(image: seq<Sector>, clusters: Clusters): (d: seq<Sector>)
    ensures |d| == |image|
  {
    seq(|image|, t requires 0 <= t < |image| => Latest(image, clusters, t))
  }

  function Overlay(disk: seq<Sector>, start: nat, data: seq<Sector>): (d: seq<Sector>)
    requires start + |data| <= |disk|
    ensures |d| == |disk|
  {
    disk[..start] + data + disk[start + |data|..]
  }

  // ---- what a read returns ----

  /** Sector `t` of a read starting at `start` is taken from a cached block: the read meets an unwritten
      sector of the same block at or before it. */
  ghost predicate FromBlock(clusters: Clusters, bs: nat, start: nat, t: nat)
    requires bs > 0
  {
    exists u :: start <= u <= t && SameBlock(bs, u, t) && !IsWritten(clusters, u)
  }

  predicate SameBlock(bs: nat, u: nat, t: nat)
    requires bs > 0
  {
    Sticky.Quot(u, bs) == Sticky.Quot(t, bs)
  }

  ghost function ReadOf(image: seq<Sector>, clusters: Clusters, bs: nat, start: nat, t: nat): Sector
    requires bs > 0 && t < |image|
  {
    if FromBlock(clusters, bs, start, t) then image[t] else Latest(image, clusters, t)
  }

  /** A read within one cluster returns the latest data. */
  lemma OneClusterRead(image: seq<Sector>, clusters: Clusters, bs: nat, start: nat, t: nat)
    requires bs > 0 && t < |image| && start <= t && start / 8 == t / 8
    ensures ReadOf(image, clusters, bs, start, t) == Latest(image, clusters, t)
  {
    hide SameBlock;
    if FromBlock(clusters, bs, start, t) {
      var u :| start <= u <= t && SameBlock(bs, u, t) && !IsWritten(clusters, u);
      assert u / 8 == t / 8;
    }
  }

  /** The clusters with every written one replaced by other data. */
  function Rewritten(clusters: Clusters, x: Sector): (r: Clusters)
    ensures |r| == |clusters|
  {
    seq(|clusters|, c requires 0 <= c < |clusters| => if clusters[c].Some? then Some(seq(8, i => x)) else None)
  }

  /** Whatever was written, a read returns the latest data, if and only if no written sector of it follows an
      unwritten one in the same block. */
  lemma ReadsLatest(image: seq<Sector>, clusters: Clusters, bs: nat, start: nat, n: nat)
    requires bs > 0 && start + n <= |image|
    ensures (forall x: Sector, t :: start <= t < start + n ==>
              ReadOf(image, Rewritten(clusters, x), bs, start, t) == Latest(image, Rewritten(clusters, x), t)) <==>
            (forall t :: start <= t < start + n && FromBlock(clusters, bs, start, t) ==> !IsWritten(clusters, t))
  {
    hide SameBlock;
    if t :| start <= t < start + n && FromBlock(clusters, bs, start, t) && IsWritten(clusters, t) {
      var x := Sector(image[t].bytes + [0]);
      SameWritten(clusters, bs, start, x, t);
      assert Latest(image, Rewritten(clusters, x), t) == x != image[t];
      assert ReadOf(image, Rewritten(clusters, x), bs, start, t) == image[t];
    } else {
      forall x: Sector, t | start <= t < start + n
        ensures ReadOf(image, Rewritten(clusters, x), bs, start, t) == Latest(image, Rewritten(clusters, x), t)
      {
        SameWritten(clusters, bs, start, x, t);
      }
    }
  }

  /** A read of two clusters of one block, the second of them written, misses what was written. */
  lemma StaleRead(x: Sector, y: Sector)
    requires x != y
    ensures var image, clusters := seq(16, i => x), [None, Some(seq(8, i => y))];
            Shape(image, 16, clusters) && Latest(image, clusters, 8) == y && ReadOf(image, clusters, 16, 0, 8) == x
  {
    var clusters := [None, Some(seq(8, i => y))];
    assert SameBlock(16, 0, 8) && !IsWritten(clusters, 0);
  }

  lemma SameWritten(clusters: Clusters, bs: nat, start: nat, x: Sector, t: nat)
    requires bs > 0
    ensures IsWritten(Rewritten(clusters, x), t) == IsWritten(clusters, t)
    ensures FromBlock(Rewritten(clusters, x), bs, start, t) == FromBlock(clusters, bs, start, t)
  {
    hide SameBlock;
    assert forall u: nat :: IsWritten(Rewritten(clusters, x), u) == IsWritten(clusters, u);
  }

  // ---- sectors, clusters and blocks ----

  /** The block a sector is in holds it at its offset, and holds its whole cluster. */
  lemma SectorInBlock(bs: nat, t: nat)
    requires bs > 0 && bs % 8 == 0
    ensures var b, o, base := Sticky.Quot(t, bs), Sticky.Rem(t, bs), t - t % 8;
            b * bs + o == t && Sticky.Quot(base, bs) == b && Sticky.Rem(base, bs) == o - t % 8 && o - t % 8 + 8 <= bs
  {
    hide Sticky.Quot, Sticky.Rem;
    Sticky.QuotRem(t, bs);
    var b, o, k := Sticky.Quot(t, bs), Sticky.Rem(t, bs), bs / 8;
    assert b * bs == 8 * (b * k);
    Sticky.DivModUnique(t, 8, b * k + o / 8, o % 8);
    assert 8 * (o / 8) + 8 <= 8 * k;
    Sticky.QuotRemUnique(t - t % 8, bs, b, o - o % 8);
  }

  /** Sectors up to the end of a block are in that block; the next one is not. */
  lemma BlockRun(bs: nat, t: nat, i: nat)
    requires bs > 0
    ensures SameBlock(bs, t, t + i) <==> Sticky.Rem(t, bs) + i < bs
    ensures Sticky.Rem(t, bs) + i < bs ==> Sticky.Rem(t + i, bs) == Sticky.Rem(t, bs) + i
  {
    hide Sticky.Quot, Sticky.Rem;
    Sticky.QuotRem(t, bs);
    var b, o := Sticky.Quot(t, bs), Sticky.Rem(t, bs);
    if o + i < bs {
      Sticky.QuotRemUnique(t + i, bs, b, o + i);
    } else {
      Sticky.QuotRem(t + i, bs);
    }
  }

  lemma BlockEnd(bs: nat, size: nat, t: nat)
    requires bs > 0 && size % bs == 0 && t < size
    ensures (Sticky.Quot(t, bs) + 1) * bs <= size
  {
    hide Sticky.Quot, Sticky.Rem;
    Sticky.QuotRem(t, bs);
    var b, k := Sticky.Quot(t, bs), size / bs;
    Sticky.DivModIs(size, bs);
    if b + 1 > k {
      Sticky.MulOrder(k, b, bs);
    }
    Sticky.MulOrder(b + 1, k, bs);
  }

  /** Block `b` of the image. */
  function BlockData(image: seq<Sector>, bs: nat, b: nat): (d: seq<Sector>)
    requires (b + 1) * bs <= |image|
    ensures |d| == bs
  {
    assert (b + 1) * bs == b * bs + bs;
    image[b * bs..(b + 1) * bs]
  }

  lemma BlockSector(image: seq<Sector>, bs: nat, t: nat)
    requires bs > 0 && |image| % bs == 0 && t < |image|
    ensures (Sticky.Quot(t, bs) + 1) * bs <= |image|
    ensures BlockData(image, bs, Sticky.Quot(t, bs))[Sticky.Rem(t, bs)] == image[t]
  {
    hide Sticky.Quot, Sticky.Rem;
    BlockEnd(bs, |image|, t);
    Sticky.QuotRem(t, bs);
  }

  // ---- the cache ----

  /** Blocks are cached once each, and a loaded one holds its part of the image. */
  ghost predicate CacheOk(image: seq<Sector>, bs: nat, cached: seq<CachedBlock>)
  {
    (forall i, j :: 0 <= i < j < |cached| ==> cached[i].num != cached[j].num) &&
    forall b :: b in cached ==> BlockOk(image, bs, b)
  }

  ghost predicate BlockOk(image: seq<Sector>, bs: nat, b: CachedBlock)
  {
    b.loaded ==> (b.num + 1) * bs <= |image| && b.data == BlockData(image, bs, b.num)
  }

  ghost predicate IsLoading(cached: seq<CachedBlock>, num: int)
  {
    exists i :: 0 <= i < |cached| && cached[i].num == num && !cached[i].loaded
  }

  /** A block is in the cache with its data. */
  ghost predicate IsHeld(cached: seq<CachedBlock>, num: int)
  {
    exists b :: b in cached && b.num == num && b.loaded
  }

  /** Nothing new is being loaded that was in the cache. */
  ghost predicate OnlyNew(before: seq<CachedBlock>, cached: seq<CachedBlock>)
  {
    forall m: int :: IsLoading(cached, m) && !IsLoading(before, m) ==> forall b :: b in before ==> b.num != m
  }

  /** The same blocks, in whatever order. */
  ghost predicate SameBlocks(before: seq<CachedBlock>, cached: seq<CachedBlock>)
  {
    |cached| == |before| && forall b :: b in cached <==> b in before
  }

  ghost predicate KeepsLoaded(before: seq<CachedBlock>, cached: seq<CachedBlock>)
  {
    forall b :: b in before && b.loaded ==> b in cached
  }

  lemma SameHolds(before: seq<CachedBlock>, cached: seq<CachedBlock>)
    requires SameBlocks(before, cached)
    ensures forall m: int :: IsHeld(before, m) == IsHeld(cached, m)
    ensures forall m: int :: IsLoading(before, m) == IsLoading(cached, m)
  {
    forall m: int
      ensures IsLoading(before, m) == IsLoading(cached, m)
    {
      LoadingIn(before, m);
      LoadingIn(cached, m);
    }
  }

  lemma LoadingIn(cached: seq<CachedBlock>, m: int)
    ensures IsLoading(cached, m) <==> exists b :: b in cached && b.num == m && !b.loaded
  {
    if b :| b in cached && b.num == m && !b.loaded {
      var i :| 0 <= i < |cached| && cached[i] == b;
    }
    if i :| 0 <= i < |cached| && cached[i].num == m && !cached[i].loaded {
      assert cached[i] in cached;
    }
  }

  lemma SameOnlyNew(before: seq<CachedBlock>, between: seq<CachedBlock>, cached: seq<CachedBlock>)
    requires SameBlocks(before, between) && OnlyNew(between, cached)
    ensures OnlyNew(before, cached)
  {
    hide IsLoading;
    SameHolds(before, between);
  }

  /** A new block is asked for where it was missing. */
  lemma AskedOnlyNew(before: seq<CachedBlock>, num: nat, kept: seq<CachedBlock>)
    requires (forall b :: b in before ==> b.num != num) && forall b :: b in kept ==> b in before
    ensures OnlyNew(before, [CachedBlock(num, false, [])] + kept)
  {
    var cached := [CachedBlock(num, false, [])] + kept;
    forall m: int | IsLoading(cached, m) && !IsLoading(before, m)
      ensures m == num
    {
      hide IsLoading;
      LoadingIn(cached, m);
      LoadingIn(before, m);
    }
  }

  /** Drops loaded blocks, least recently used first, until `excess` are gone or none are left. */
  function Evict(cached: seq<CachedBlock>, excess: int): (r: seq<CachedBlock>)
    ensures forall b :: b in r ==> b in cached
  {
    if excess <= 0 || cached == [] then cached
    else
      var n := |cached| - 1;
      if cached[n].loaded then Evict(cached[..n], excess - 1) else Evict(cached[..n], excess) + [cached[n]]
  }

  /** Evicting drops no block that is being loaded, keeps the others apart, and makes the room it can. */
  lemma {:induction false} EvictKeeps(cached: seq<CachedBlock>, excess: int)
    requires forall i, j :: 0 <= i < j < |cached| ==> cached[i].num != cached[j].num
    ensures var r := Evict(cached, excess);
            (forall i, j :: 0 <= i < j < |r| ==> r[i].num != r[j].num) &&
            (forall b :: b in cached && !b.loaded ==> b in r) &&
            (|r| <= |cached| - excess || forall b :: b in r ==> !b.loaded)
  {
    if excess > 0 && cached != [] {
      var n := |cached| - 1;
      var front, last := cached[..n], cached[n];
      assert cached == front + [last];
      var e := if last.loaded then excess - 1 else excess;
      EvictKeeps(front, e);
      var r := Evict(front, e);
      forall i | 0 <= i < |r|
        ensures r[i].num != last.num
      {
        assert r[i] in front;
        var k :| 0 <= k < n && front[k] == r[i];
        assert cached[k].num != cached[n].num;
      }
    }
  }

  /** Least recently used first: a loaded block outlasts every loaded block behind it. */
  lemma {:induction false} EvictOldest(cached: seq<CachedBlock>, excess: int, i: nat, j: nat)
    requires forall i, j :: 0 <= i < j < |cached| ==> cached[i].num != cached[j].num
    requires i < j < |cached| && cached[i].loaded && cached[j].loaded && cached[j] in Evict(cached, excess)
    ensures cached[i] in Evict(cached, excess)
  {
    if excess > 0 {
      var n := |cached| - 1;
      if j < n {
        EvictOldest(cached[..n], if cached[n].loaded then excess - 1 else excess, i, j);
      }
    }
  }

  /** The list after block `i` of it was used. */
  function ToFront(cached: seq<CachedBlock>, i: nat): (r: seq<CachedBlock>)
    requires i < |cached|
    ensures |r| == |cached|
  {
    [cached[i]] + cached[..i] + cached[i + 1..]
  }

  /** The code takes any power of two as the block size. Copying a cluster out of a cached block stays inside the
      block, for every cluster, if and only if a block holds a whole cluster. */
  lemma ClusterCopyFits(k: nat)
    requires k >= 1
    ensures (forall c: nat :: CopyInside(Pow2(k), c)) <==> k >= 3
  {
    if k >= 3 {
      WholeClusters(k);
      AlwaysInside(Pow2(k), Pow2(k - 3));
    } else {
      NeverInside(k, 0);
    }
  }

  /** Where a block is no whole number of clusters, none can be copied out of it. */
  lemma NeverInside(k: nat, c: nat)
    requires 1 <= k < 3
    ensures Pow2(k) < 8 && Pow2(k) % 8 != 0 && !CopyInside(Pow2(k), c)
  {
    assert Pow2(1) == 2 && Pow2(2) == 4;
  }

  lemma WholeClusters(k: nat)
    requires k >= 3
    ensures Pow2(k) == 8 * Pow2(k - 3) && Pow2(k) >= 8 && Pow2(k) % 8 == 0
  {
    Pow2Add(3, k - 3);
    assert Pow2(3) == 8;
  }

  lemma AlwaysInside(bs: nat, clusters: nat)
    requires bs > 0 && bs == 8 * clusters
    ensures forall c: nat :: CopyInside(bs, c)
  {
    hide Sticky.Quot, Sticky.Rem;
    forall c: nat
      ensures CopyInside(bs, c)
    {
      SectorInBlock(bs, 8 * c);
    }
  }

  predicate CopyInside(bs: nat, c: nat)
    requires bs > 0
  {
    Sticky.Rem(8 * c, bs) + 8 <= bs
  }

  // ---- the request in progress ----

  /** Reads met so far: everything earlier in the block of `t` is written. */
  ghost predicate Placed(clusters: Clusters, bs: nat, start: nat, t: nat)
    requires bs > 0
  {
    forall u :: start <= u < t && SameBlock(bs, u, t) ==> IsWritten(clusters, u)
  }

  /** What a read starting at `start` returns for the `n` sectors at `t`. */
  ghost function ReadsOf(image: seq<Sector>, clusters: Clusters, bs: nat, start: nat, t: nat, n: nat): (r: seq<Sector>)
    requires bs > 0 && t + n <= |image|
    ensures |r| == n
  {
    seq(n, i requires 0 <= i < n => ReadOf(image, clusters, bs, start, t + i))
  }

  lemma ReadsMore(image: seq<Sector>, clusters: Clusters, bs: nat, start: nat, t: nat, a: nat, b: nat)
    requires bs > 0 && t + a + b <= |image|
    ensures ReadsOf(image, clusters, bs, start, t, a + b) ==
            ReadsOf(image, clusters, bs, start, t, a) + ReadsOf(image, clusters, bs, start, t + a, b)
  {
    hide ReadOf;
  }

  lemma SameCluster(clusters: Clusters, bs: nat, t: nat, i: nat)
    requires bs > 0 && bs % 8 == 0 && t % 8 + i < 8
    ensures (t + i) / 8 == t / 8 && (t + i) % 8 == t % 8 + i && SameBlock(bs, t, t + i)
  {
    hide Sticky.Quot, Sticky.Rem;
    Sticky.DivModUnique(t + i, 8, t / 8, t % 8 + i);
    SectorInBlock(bs, t);
    SectorInBlock(bs, t + i);
  }

  /** Reading on from a written sector, within its cluster. */
  lemma ReadClusterAt(image: seq<Sector>, clusters: Clusters, bs: nat, start: nat, t: nat, i: nat)
    requires Shape(image, bs, clusters) && start <= t && t + i < |image| && IsWritten(clusters, t) && t % 8 + i < 8
    requires Placed(clusters, bs, start, t)
    ensures ReadOf(image, clusters, bs, start, t + i) == clusters[t / 8].value[t % 8 + i]
  {
    hide SameBlock;
    SameCluster(clusters, bs, t, i);
    if FromBlock(clusters, bs, start, t + i) {
      var u :| start <= u <= t + i && SameBlock(bs, u, t + i) && !IsWritten(clusters, u);
      if u < t {
        Between(bs, u, t, t + i);
      } else {
        SameCluster(clusters, bs, t, u - t);
      }
    }
  }

  lemma ReadCluster(image: seq<Sector>, clusters: Clusters, bs: nat, start: nat, t: nat, n: nat)
    requires Shape(image, bs, clusters) && start <= t && t + n <= |image| && IsWritten(clusters, t) && t % 8 + n <= 8
    requires Placed(clusters, bs, start, t)
    ensures ReadsOf(image, clusters, bs, start, t, n) == clusters[t / 8].value[t % 8..t % 8 + n]
    ensures Placed(clusters, bs, start, t + n)
  {
    hide SameBlock, ReadOf;
    forall i | 0 <= i < n
      ensures ReadsOf(image, clusters, bs, start, t, n)[i] == clusters[t / 8].value[t % 8..t % 8 + n][i]
    {
      ReadClusterAt(image, clusters, bs, start, t, i);
    }
    forall u | start <= u < t + n && SameBlock(bs, u, t + n)
      ensures IsWritten(clusters, u)
    {
      if u < t {
        Between(bs, u, t, t + n);
      } else {
        SameCluster(clusters, bs, t, u - t);
      }
    }
  }

  lemma Between(bs: nat, u: nat, t: nat, v: nat)
    requires bs > 0 && u <= t <= v && SameBlock(bs, u, v)
    ensures SameBlock(bs, u, t)
  {
    BlockRun(bs, u, t - u);
    BlockRun(bs, u, v - u);
  }

  /** Reading on from an unwritten sector, up to the end of its block. */
  lemma ReadBlock(image: seq<Sector>, clusters: Clusters, bs: nat, start: nat, t: nat, n: nat)
    requires Shape(image, bs, clusters) && start <= t < |image| && t + n <= |image| && !IsWritten(clusters, t)
    requires Sticky.Rem(t, bs) + n <= bs
    ensures (Sticky.Quot(t, bs) + 1) * bs <= |image|
    ensures ReadsOf(image, clusters, bs, start, t, n) ==
            BlockData(image, bs, Sticky.Quot(t, bs))[Sticky.Rem(t, bs)..Sticky.Rem(t, bs) + n]
    ensures Sticky.Rem(t, bs) + n == bs ==> Placed(clusters, bs, start, t + n)
  {
    hide Sticky.Quot, Sticky.Rem, BlockData, ReadOf;
    BlockSector(image, bs, t);
    var b, o := BlockData(image, bs, Sticky.Quot(t, bs)), Sticky.Rem(t, bs);
    forall i | 0 <= i < n
      ensures ReadsOf(image, clusters, bs, start, t, n)[i] == b[o..o + n][i]
    {
      ReadBlockAt(image, clusters, bs, start, t, i);
    }
    if o + n == bs {
      var v := t + n;
      forall u | start <= u < v
        ensures !SameBlock(bs, u, v)
      {
        NextBlock(bs, t, n, u);
      }
    }
  }

  lemma ReadBlockAt(image: seq<Sector>, clusters: Clusters, bs: nat, start: nat, t: nat, i: nat)
    requires Shape(image, bs, clusters) && start <= t && t + i < |image| && !IsWritten(clusters, t)
    requires Sticky.Rem(t, bs) + i < bs
    ensures (Sticky.Quot(t, bs) + 1) * bs <= |image|
    ensures ReadOf(image, clusters, bs, start, t + i) == BlockData(image, bs, Sticky.Quot(t, bs))[Sticky.Rem(t, bs) + i]
  {
    hide Sticky.Quot, Sticky.Rem, BlockData;
    BlockRun(bs, t, i);
    assert SameBlock(bs, t, t + i);
    BlockSector(image, bs, t + i);
  }

  lemma NextBlock(bs: nat, t: nat, n: nat, u: nat)
    requires bs > 0 && Sticky.Rem(t, bs) + n == bs && u < t + n
    ensures !SameBlock(bs, u, t + n)
  {
    hide Sticky.Quot, Sticky.Rem;
    BlockRun(bs, t, n);
    if u < t {
      if SameBlock(bs, u, t + n) {
        Between(bs, u, t, t + n);
      }
    } else {
      BlockRun(bs, t, u - t);
    }
  }

  lemma FullCluster(image: seq<Sector>, clusters: Clusters, bs: nat, t: nat)
    requires Shape(image, bs, clusters) && IsWritten(clusters, t)
    ensures |clusters[t / 8].value| == 8
  {
  }

  /** Writing into a cluster changes exactly those sectors. */
  lemma WriteCluster(image: seq<Sector>, clusters: Clusters, bs: nat, t: nat, data: seq<Sector>, c: seq<Sector>)
    requires Shape(image, bs, clusters) && IsWritten(clusters, t) && t % 8 + |data| <= 8 && t + |data| <= |image|
    requires c == clusters[t / 8].value[..t % 8] + data + clusters[t / 8].value[t % 8 + |data|..]
    ensures Shape(image, bs, clusters[t / 8 := Some(c)])
    ensures Disk(image, clusters[t / 8 := Some(c)]) == Overlay(Disk(image, clusters), t, data)
  {
    var clusters' := clusters[t / 8 := Some(c)];
    forall u: nat | u < |image|
      ensures Latest(image, clusters', u) == Overlay(Disk(image, clusters), t, data)[u]
    {
      if u / 8 == t / 8 {
        assert u - t == u % 8 - t % 8;
      }
    }
  }

  lemma OverlayMore(disk: seq<Sector>, start: nat, data: seq<Sector>, i: nat, n: nat)
    requires i + n <= |data| && start + |data| <= |disk|
    ensures Overlay(Overlay(disk, start, data[..i]), start + i, data[i..i + n]) == Overlay(disk, start, data[..i + n])
  {
  }

  /** A new cluster starts as a copy of the image, so nothing changes. */
  lemma CopyCluster(image: seq<Sector>, clusters: Clusters, bs: nat, t: nat, b: seq<Sector>, o: nat)
    requires Shape(image, bs, clusters) && bs % 8 == 0 && t < |image| && !IsWritten(clusters, t)
    requires (Sticky.Quot(t, bs) + 1) * bs <= |image| && b == BlockData(image, bs, Sticky.Quot(t, bs))
    requires o == Sticky.Rem(t - t % 8, bs)
    ensures o + 8 <= bs && t / 8 < |clusters|
    ensures Shape(image, bs, clusters[t / 8 := Some(b[o..o + 8])])
    ensures Disk(image, clusters[t / 8 := Some(b[o..o + 8])]) == Disk(image, clusters)
  {
    hide Sticky.Quot, Sticky.Rem;
    SectorInBlock(bs, t);
    var clusters' := clusters[t / 8 := Some(b[o..o + 8])];
    forall u: nat | u < |image|
      ensures Latest(image, clusters', u) == Latest(image, clusters, u)
    {
      if u / 8 == t / 8 {
        assert u == t - t % 8 + u % 8;
        assert b[o + u % 8] == image[Sticky.Quot(t, bs) * bs + (o + u % 8)];
      }
    }
  }

  /** How a request goes: done, to be done when a block has come, or without defined outcome. */
  datatype Reply = Done | Later | Undefined

  class BlockDevice {
    const image: seq<Sector>
    const blockSize: nat
    /** The block size is two to this power. */
    ghost const power: nat
    const maxBlocks: nat
    /** Most recently used first. */
    var cached: seq<CachedBlock>
    var nCached: nat
    var clusters: Clusters
    var isWrite: bool
    var sectorNum: nat
    var curBlockNum: int
    var sectorIndex: nat
    var sectorCount: nat
    var ioBuf: array<Sector>
    /** A request waits for a block; how often the completion callback was called. */
    ghost var pending: bool
    ghost var completions: nat
    /** How often the request in progress was woken by a block. */
    ghost var wakings: nat
    /** The request: where it starts, the disk before it, and the data to write. */
    ghost var start: nat
    ghost var disk0: seq<Sector>
    ghost var data0: seq<Sector>

    ghost predicate Device()
      reads this
    {
      power >= 1 && blockSize == Pow2(power) && Shape(image, blockSize, clusters) &&
      CacheOk(image, blockSize, cached) && nCached == |cached|
    }

    ghost predicate Valid()
      reads this, ioBuf
    {
      Device() && (pending <==> IsLoading(cached, curBlockNum)) &&
      (pending ==> Progress() && sectorIndex < sectorCount && Waiting())
    }

    /** The next sector is unwritten and in the block waited for; each waking has brought the request on. */
    ghost predicate Waiting()
      reads `clusters, `sectorNum, `sectorIndex, `curBlockNum, `wakings
      requires blockSize > 0
    {
      !IsWritten(clusters, sectorNum) && curBlockNum == Sticky.Quot(sectorNum, blockSize) && wakings <= sectorIndex
    }

    /** The next sector is at hand. */
    ghost predicate Ready()
      reads `clusters, `sectorNum, `sectorIndex, `sectorCount, `cached
      requires blockSize > 0
    {
      sectorIndex < sectorCount &&
      (IsWritten(clusters, sectorNum) || IsHeld(cached, Sticky.Quot(sectorNum, blockSize)))
    }

    /** What has been transferred is right. */
    ghost predicate Progress()
      reads `clusters, `isWrite, `sectorNum, `sectorIndex, `sectorCount, `start, `disk0, `data0, `ioBuf, ioBuf
      requires blockSize > 0
    {
      start + sectorCount <= |image| && sectorIndex <= sectorCount <= ioBuf.Length &&
      (sectorCount > 0 ==> sectorNum == start + sectorIndex) &&
      |disk0| == |image| && if isWrite then WriteProgress() else ReadProgress()
    }

    ghost predicate WriteProgress()
      reads `clusters, `isWrite, `sectorNum, `sectorIndex, `sectorCount, `start, `disk0, `data0, `ioBuf, ioBuf
      requires start + sectorCount <= |image| && sectorIndex <= sectorCount <= ioBuf.Length && |disk0| == |image|
    {
      |data0| == sectorCount && ioBuf[..sectorCount] == data0 &&
      Disk(image, clusters) == Overlay(disk0, start, data0[..sectorIndex])
    }

    ghost predicate ReadProgress()
      reads `clusters, `isWrite, `sectorNum, `sectorIndex, `sectorCount, `start, `disk0, `data0, `ioBuf, ioBuf
      requires blockSize > 0 && start + sectorCount <= |image| && sectorIndex <= sectorCount <= ioBuf.Length
    {
      Disk(image, clusters) == disk0 &&
      (sectorIndex < sectorCount ==> Placed(clusters, blockSize, start, start + sectorIndex)) &&
      ioBuf[..sectorIndex] == ReadsOf(image, clusters, blockSize, start, start, sectorIndex)
    }

    /** An empty cache over an unwritten disk. */
    constructor (image0: seq<Sector>, blockSize0: nat, ghost power0: nat, maxBlocks0: nat, buf: array<Sector>)
      requires power0 >= 1 && blockSize0 == Pow2(power0) && |image0| % blockSize0 == 0
      ensures Valid() && !pending && curBlockNum == -1 && image == image0 && blockSize == blockSize0 &&
              maxBlocks == maxBlocks0
      ensures Disk(image, clusters) == image0 && completions == 0
    {
      image, blockSize, power, maxBlocks := image0, blockSize0, power0, maxBlocks0;
      cached, nCached, clusters := [], 0, seq((|image0| + 7) / 8, i => None);
      isWrite, sectorNum, curBlockNum, sectorIndex, sectorCount, ioBuf := false, 0, -1, 0, 0, buf;
      pending, completions, wakings, start, disk0, data0 := false, 0, 0, 0, image0, [];
    }

    /** Before the first request: starts loading a block that is not in the cache yet. */
    method Prefetch(num: nat)
      requires Valid() && maxBlocks >= 1 && !pending && curBlockNum == -1
      modifies `cached, `nCached
      ensures Valid() && !pending && exists b :: b in cached && b.num == num
    {
      hide Shape, Progress;
      var found := FindBlock(num);
      if !found {
        AddBlock(num);
      }
      assert cached[0] in cached;
    }

    /** Looks a block up and moves it to the front. */
    method FindBlock(num: nat) returns (found: bool)
      requires CacheOk(image, blockSize, cached)
      modifies `cached
      ensures CacheOk(image, blockSize, cached) && |cached| == old(|cached|)
      ensures found ==>
                cached != [] && cached[0].num == num &&
                exists i :: 0 <= i < old(|cached|) && cached == ToFront(old(cached), i)
      ensures !found ==> cached == old(cached) && forall b :: b in cached ==> b.num != num
      ensures forall b :: b in cached <==> b in old(cached)
    {
      var i := 0;
      while i < |cached|
        invariant i <= |cached| && cached == old(cached)
        invariant forall j :: 0 <= j < i ==> cached[j].num != num
      {
        if cached[i].num == num {
          if i != 0 {
            cached := [cached[i]] + cached[..i] + cached[i + 1..];
          }
          assert cached == ToFront(old(cached), i);
          return true;
        }
        i := i + 1;
      }
      return false;
    }

    /** Frees loaded blocks from the back of the list until there is room for one more. */
    method MakeRoom()
      requires nCached == |cached|
      modifies `cached, `nCached
      ensures cached == Evict(old(cached), old(|cached|) - maxBlocks + 1) && nCached == |cached|
    {
      hide Evict;
      EvictNone(cached, |cached| - maxBlocks + 1);
      if nCached < maxBlocks {
        return;
      }
      var i := |cached|;
      assert cached[..i] == cached && cached[i..] == [];
      assert Evict(cached[..i], nCached - maxBlocks + 1) + cached[i..] == Evict(cached, |cached| - maxBlocks + 1);
      while i > 0
        invariant i <= |cached| == nCached && nCached >= maxBlocks
        invariant Evict(cached[..i], nCached - maxBlocks + 1) + cached[i..] ==
                  Evict(old(cached), old(|cached|) - maxBlocks + 1)
      {
        i := i - 1;
        EvictLast(cached, i, nCached - maxBlocks + 1);
        if cached[i].loaded {
          cached := cached[..i] + cached[i + 1..];
          nCached := nCached - 1;
          if nCached < maxBlocks {
            EvictNone(cached[..i], nCached - maxBlocks + 1);
            assert cached[..i] + cached[i..] == cached;
            return;
          }
        }
      }
      EvictNone(cached[..0], nCached - maxBlocks + 1);
    }

    /** Makes room and starts a new, loading block at the front. */
    method AddBlock(num: nat)
      requires CacheOk(image, blockSize, cached) && nCached == |cached| && maxBlocks >= 1
      requires forall b :: b in cached ==> b.num != num
      modifies `cached, `nCached
      ensures CacheOk(image, blockSize, cached) && nCached == |cached|
      ensures cached == [CachedBlock(num, false, [])] + Evict(old(cached), old(|cached|) - maxBlocks + 1)
      ensures forall b :: b in old(cached) && !b.loaded ==> b in cached
      ensures nCached <= maxBlocks || forall b :: b in cached ==> !b.loaded
    {
      hide Evict;
      EvictKeeps(cached, |cached| - maxBlocks + 1);
      MakeRoom();
      ConsOk(image, blockSize, CachedBlock(num, false, []), cached);
      cached := [CachedBlock(num, false, [])] + cached;
      nCached := nCached + 1;
    }

    // ---- transferring ----

    method CopyToBuf(data: seq<Sector>)
      requires sectorIndex + |data| <= ioBuf.Length
      modifies ioBuf
      ensures ioBuf[..sectorIndex + |data|] == old(ioBuf[..sectorIndex]) + data
    {
      forall i | 0 <= i < |data| {
        ioBuf[sectorIndex + i] := data[i];
      }
    }

    /** Sectors of a written cluster. */
    method ClusterStep()
      requires Device() && Progress() && sectorIndex < sectorCount && IsWritten(clusters, sectorNum)
      modifies `clusters, `sectorIndex, `sectorNum, ioBuf
      ensures Device() && Progress() && sectorIndex > old(sectorIndex)
    {
      hide Shape, CacheOk, WriteProgress, ReadProgress;
      var offset := sectorNum % 8;
      var n := sectorCount - sectorIndex;
      n := if n < 8 - offset then n else 8 - offset;
      if isWrite {
        WriteToCluster(offset, n);
      } else {
        ReadFromCluster(offset, n);
      }
    }

    method WriteToCluster(offset: nat, n: nat)
      requires Device() && Progress() && isWrite && sectorIndex < sectorCount && IsWritten(clusters, sectorNum)
      requires offset == sectorNum % 8 && offset + n <= 8 && sectorIndex + n <= sectorCount
      modifies `clusters, `sectorIndex, `sectorNum
      ensures Device() && Progress() && sectorIndex == old(sectorIndex) + n
    {
      hide Disk, Overlay, CacheOk, Shape;
      FullCluster(image, clusters, blockSize, sectorNum);
      var data := ioBuf[sectorIndex..sectorIndex + n];
      assert data == ioBuf[..sectorCount][sectorIndex..sectorIndex + n];
      OverlayMore(disk0, start, data0, sectorIndex, n);
      var c := clusters[sectorNum / 8].value;
      var c' := c[..offset] + data + c[offset + n..];
      WriteCluster(image, clusters, blockSize, sectorNum, data, c');
      clusters := clusters[sectorNum / 8 := Some(c')];
      sectorIndex, sectorNum := sectorIndex + n, sectorNum + n;
    }

    method ReadFromCluster(offset: nat, n: nat)
      requires Device() && Progress() && !isWrite && sectorIndex < sectorCount && IsWritten(clusters, sectorNum)
      requires offset == sectorNum % 8 && offset + n <= 8 && sectorIndex + n <= sectorCount
      modifies `sectorIndex, `sectorNum, ioBuf
      ensures Device() && Progress() && sectorIndex == old(sectorIndex) + n
    {
      hide Disk, ReadsOf, Placed, CacheOk;
      ReadCluster(image, clusters, blockSize, start, sectorNum, n);
      ReadsMore(image, clusters, blockSize, start, start, sectorIndex, n);
      CopyToBuf(clusters[sectorNum / 8].value[offset..offset + n]);
      sectorIndex, sectorNum := sectorIndex + n, sectorNum + n;
    }

    /** Sectors of an unwritten cluster, from the block at the front of the cache. */
    method ReadFromBlock()
      requires Device() && Progress() && sectorIndex < sectorCount && !IsWritten(clusters, sectorNum) && !isWrite
      requires cached != [] && cached[0].loaded && cached[0].num == Sticky.Quot(sectorNum, blockSize)
      modifies `sectorIndex, `sectorNum, ioBuf
      ensures Device() && Progress() && sectorIndex > old(sectorIndex)
    {
      hide Sticky.Quot, Sticky.Rem, Disk, Overlay, ReadsOf, Placed, BlockData;
      assert BlockOk(image, blockSize, cached[0]);
      hide CacheOk;
      var offset := Sticky.Rem(sectorNum, blockSize);
      var n := sectorCount - sectorIndex;
      n := if n < blockSize - offset then n else blockSize - offset;
      ReadBlock(image, clusters, blockSize, start, sectorNum, n);
      ReadsMore(image, clusters, blockSize, start, start, sectorIndex, n);
      hide Shape;
      CopyToBuf(cached[0].data[offset..offset + n]);
      sectorIndex, sectorNum := sectorIndex + n, sectorNum + n;
    }

    /** Before a write: a cluster of its own, copied from the block at the front of the cache. */
    method AllocateCluster()
      requires Device() && Progress() && sectorIndex < sectorCount && !IsWritten(clusters, sectorNum) && isWrite
      requires cached != [] && cached[0].loaded && cached[0].num == Sticky.Quot(sectorNum, blockSize)
      requires blockSize % 8 == 0
      modifies `clusters
      ensures Device() && Progress() && IsWritten(clusters, sectorNum)
    {
      hide Sticky.Quot, Sticky.Rem, Disk, Overlay, BlockData;
      assert BlockOk(image, blockSize, cached[0]);
      hide CacheOk;
      var data, offset := cached[0].data, Sticky.Rem(sectorNum / 8 * 8, blockSize);
      assert sectorNum / 8 * 8 == sectorNum - sectorNum % 8;
      CopyCluster(image, clusters, blockSize, sectorNum, data, offset);
      hide Shape;
      clusters := clusters[sectorNum / 8 := Some(data[offset..offset + 8])];
    }

    /** One turn of the transfer loop: some sectors, a new cluster, or a block to wait for. A cluster that is not inside
        the block cannot be copied. */
    method Advance() returns (r: Reply)
      requires Device() && Progress() && maxBlocks >= 1 && sectorIndex < sectorCount && !IsLoading(cached, curBlockNum)
      modifies `cached, `nCached, `clusters, `sectorNum, `sectorIndex, `curBlockNum, ioBuf
      ensures Device() && Progress() && (r == Later <==> IsLoading(cached, curBlockNum))
      ensures r != Done ==> sectorIndex == old(sectorIndex)
      ensures r == Undefined ==> isWrite && blockSize < 8
      ensures r == Done && isWrite ==> blockSize >= 8
      ensures r != Done || sectorIndex > old(sectorIndex) ||
              (sectorIndex == old(sectorIndex) && IsWritten(clusters, sectorNum) &&
               !old(IsWritten(clusters, sectorNum)))
      ensures r == Later ==>
                !old(Ready()) && !IsWritten(clusters, sectorNum) && curBlockNum == Sticky.Quot(sectorNum, blockSize)
      ensures if r != Later then SameBlocks(old(cached), cached)
              else OnlyNew(old(cached), cached) && (old(nCached) < maxBlocks ==> KeepsLoaded(old(cached), cached))
    {
      hide CacheOk, WriteProgress, ReadProgress, Sticky.Quot, Sticky.Rem, Pow2;
      Multiples();
      hide Shape, IsWritten;
      if IsWritten(clusters, sectorNum) {
        ClusterStep();
        return Done;
      }
      var blockNum := Sticky.Quot(sectorNum, blockSize);
      curBlockNum := blockNum;
      var found := FindBlock(blockNum);
      if !found {
        EvictNone(cached, |cached| - maxBlocks + 1);
        AskedOnlyNew(cached, blockNum, Evict(cached, |cached| - maxBlocks + 1));
        AddBlock(blockNum);
        assert cached[0].num == blockNum && !cached[0].loaded;
        return Later;
      }
      assert SameBlocks(old(cached), cached);
      if !cached[0].loaded {
        SameHolds(old(cached), cached);
        FrontLoading(image, blockSize, cached);
        return Later;
      }
      FrontLoaded(image, blockSize, cached);
      if isWrite {
        if !CopyInside(blockSize, sectorNum / 8) {
          return Undefined;
        }
        AllocateCluster();
      } else {
        ReadFromBlock();
        curBlockNum := -1;
      }
      return Done;
    }

    /** Clusters can be copied out of blocks, and some be written, exactly where a block holds whole ones. */
    lemma Multiples()
      requires Device()
      ensures if blockSize >= 8 then blockSize % 8 == 0 && forall c: nat :: CopyInside(blockSize, c)
              else (forall c: nat :: !CopyInside(blockSize, c)) && forall t :: !IsWritten(clusters, t)
    {
      hide CacheOk, Pow2, CopyInside;
      if power >= 3 {
        WholeClusters(power);
        AlwaysInside(blockSize, Pow2(power - 3));
      } else {
        forall c: nat
          ensures !CopyInside(blockSize, c)
        {
          NeverInside(power, c);
        }
        NeverInside(power, 0);
      }
    }

    /** Goes on with the request until it is done or must wait for a block. */
    method RwAsync1(isSync: bool) returns (r: Reply)
      requires Device() && Progress() && maxBlocks >= 1 && !IsLoading(cached, curBlockNum)
      requires wakings <= sectorIndex + (if Ready() then 1 else 0)
      modifies this, ioBuf
      ensures unchanged(`isWrite, `sectorCount, `ioBuf, `start, `disk0, `data0, `wakings)
      ensures r == Later && old(Ready()) ==> sectorIndex > old(sectorIndex)
      ensures r == Done ==> wakings <= sectorCount
      ensures if r != Later then SameBlocks(old(cached), cached)
              else OnlyNew(old(cached), cached) && (old(nCached) < maxBlocks ==> KeepsLoaded(old(cached), cached))
      ensures (r != Undefined ==> Valid() && Progress()) && (r == Done ==> sectorIndex == sectorCount)
      ensures r == Done ==> !pending && Finished() && completions == old(completions) + (if isSync then 0 else 1)
      ensures r == Later ==> pending && completions == old(completions)
      ensures r == Undefined ==> isWrite && blockSize < 8 && sectorCount > 0
      ensures r == Done && isWrite && sectorIndex > old(sectorIndex) ==> blockSize >= 8
    {
      hide Shape, CacheOk, WriteProgress, ReadProgress, IsWritten, IsLoading, Pow2, IsHeld, OnlyNew, Sticky.Quot;
      while sectorIndex != sectorCount
        invariant Device() && Progress() && !IsLoading(cached, curBlockNum)
        invariant unchanged(`isWrite, `sectorCount, `ioBuf, `start, `disk0, `data0, `completions, `wakings)
        invariant SameBlocks(old(cached), cached) && sectorIndex >= old(sectorIndex)
        invariant old(Ready()) && sectorIndex == old(sectorIndex) ==> Ready()
        invariant isWrite && sectorIndex > old(sectorIndex) ==> blockSize >= 8
        decreases sectorCount - sectorIndex, !IsWritten(clusters, sectorNum)
      {
        ghost var before := cached;
        r := Advance();
        if r == Later {
          SameOnlyNew(old(cached), before, cached);
          pending := true;
          return;
        }
        if r == Undefined {
          return;
        }
      }
      WholeEffect();
      pending := false;
      if !isSync {
        completions := completions + 1;
      }
      return Done;
    }

    lemma WholeEffect()
      requires blockSize > 0 && Progress() && sectorIndex == sectorCount
      ensures Finished()
    {
      hide Disk, ReadsOf, Overlay;
      assert isWrite ==> data0[..sectorIndex] == data0;
    }

    /** A request that has just been set up. */
    lemma Started()
      requires blockSize > 0 && start + sectorCount <= |image| && sectorIndex == 0 && sectorCount <= ioBuf.Length
      requires sectorCount > 0 ==> sectorNum == start
      requires disk0 == Disk(image, clusters) && (isWrite ==> data0 == ioBuf[..sectorCount])
      ensures Progress()
    {
      hide Disk;
      NothingRead(image, clusters, blockSize, start);
      assert ioBuf[..0] == [] && data0[..0] == [];
      assert Overlay(disk0, start, []) == disk0;
    }

    /** A request for sectors that are not all in the image: the table of clusters is used beyond its end or for another
        sector, or a block is asked for that does not exist. */
    predicate Outside(sector: nat, n: nat) { n > 0 && sector + n > |image| }

    method Begin(write: bool, sector: nat, buf: array<Sector>, n: nat)
      requires Valid() && !pending && n <= buf.Length && !Outside(sector, n)
      modifies `isWrite, `sectorNum, `ioBuf, `sectorCount, `sectorIndex, `start, `disk0, `data0, `wakings
      ensures Device() && Progress() && !IsLoading(cached, curBlockNum) && wakings == 0
      ensures sectorCount == n && ioBuf == buf && isWrite == write && (n > 0 ==> start == sector) && sectorIndex == 0
      ensures disk0 == Disk(image, clusters) && (write ==> data0 == buf[..n])
    {
      hide Shape, CacheOk, Disk, WriteProgress, ReadProgress, ReadsOf, Overlay, IsLoading, Finished, Pow2, Ready,
        SameBlocks, OnlyNew, KeepsLoaded, IsWritten, Sticky.Quot, Waiting;
      isWrite, sectorNum, ioBuf, sectorCount, sectorIndex := write, sector, buf, n, 0;
      start, disk0, data0 := if n > 0 then sector else 0, Disk(image, clusters), if write then buf[..n] else [];
      wakings := 0;
      Started();
    }

    method ReadAsync(sector: nat, buf: array<Sector>, n: nat) returns (r: Reply)
      requires Valid() && maxBlocks >= 1 && !pending && n <= buf.Length
      modifies this, buf
      ensures r == Undefined <==> Outside(sector, n)
      ensures r != Undefined ==>
                Valid() && sectorCount == n && ioBuf == buf && !isWrite && (n > 0 ==> start == sector) &&
                disk0 == old(Disk(image, clusters)) && completions == old(completions) && (r == Done <==> !pending)
      ensures r == Done ==> Finished()
    {
      hide Shape, CacheOk, Disk, WriteProgress, ReadProgress, ReadsOf, Overlay, IsLoading, Finished, Pow2, Ready,
        SameBlocks, OnlyNew, KeepsLoaded, IsWritten, Sticky.Quot, Waiting, Progress;
      if Outside(sector, n) {
        return Undefined;
      }
      Begin(false, sector, buf, n);
      r := RwAsync1(true);
    }

    method WriteAsync(sector: nat, buf: array<Sector>, n: nat) returns (r: Reply)
      requires Valid() && maxBlocks >= 1 && !pending && n <= buf.Length
      modifies this, buf
      ensures Outside(sector, n) ==> r == Undefined
      ensures !Outside(sector, n) && (blockSize >= 8 || n == 0) ==> r != Undefined
      ensures r == Done && n > 0 ==> blockSize >= 8
      ensures r != Undefined ==>
                Valid() && sectorCount == n && ioBuf == buf && isWrite && (n > 0 ==> start == sector) &&
                data0 == old(buf[..n]) && disk0 == old(Disk(image, clusters)) && completions == old(completions) &&
                (r == Done <==> !pending)
      ensures r == Done ==> Finished()
    {
      hide Shape, CacheOk, Disk, WriteProgress, ReadProgress, ReadsOf, Overlay, IsLoading, Finished, Pow2, Ready,
        SameBlocks, OnlyNew, KeepsLoaded, IsWritten, Sticky.Quot, Waiting, Progress;
      if Outside(sector, n) {
        return Undefined;
      }
      Begin(true, sector, buf, n);
      r := RwAsync1(true);
    }

    /** The request has had its whole effect: a read has filled the buffer and changed nothing, a write has put
        its data on the disk and changed nothing else. */
    ghost predicate Finished()
      reads `clusters, `isWrite, `sectorCount, `start, `disk0, `data0, `ioBuf, ioBuf
    {
      blockSize > 0 && start + sectorCount <= |image| && sectorCount <= ioBuf.Length && |disk0| == |image| &&
      if isWrite then
        |data0| == sectorCount && Disk(image, clusters) == Overlay(disk0, start, data0)
      else
        Disk(image, clusters) == disk0 &&
        ioBuf[..sectorCount] == ReadsOf(image, clusters, blockSize, start, start, sectorCount)
    }

    /** Block `num` arrives, or could not be loaded, which ends the process. If the request in progress waited for it,
        the request goes on, and when it is done the callback is called, once. */
    method OnLoad(num: nat, err: bool, data: seq<Sector>) returns (exits: bool, r: Reply)
      requires Valid() && maxBlocks >= 1 && IsLoading(cached, num)
      requires !err ==> (num + 1) * blockSize <= |image| && data == BlockData(image, blockSize, num)
      modifies this, ioBuf
      ensures exits == err && (err ==> unchanged(this) && ioBuf[..] == old(ioBuf[..]))
      ensures unchanged(`isWrite, `sectorCount, `ioBuf, `start, `disk0, `data0) && (r != Undefined ==> Valid())
      ensures r == Undefined ==> !err && num == old(curBlockNum) && isWrite && blockSize < 8
      ensures !err ==>
                !IsLoading(cached, num) &&
                (CachedBlock(num, true, data) in cached ||
                 (r == Later && num == old(curBlockNum) && old(nCached) >= maxBlocks))
      ensures !err && num == old(curBlockNum) ==>
                wakings == old(wakings) + 1 &&
                (r == Later ==> sectorIndex > old(sectorIndex)) && (r == Done ==> wakings <= sectorCount)
      ensures num != old(curBlockNum) ==>
                pending == old(pending) && completions == old(completions) &&
                Disk(image, clusters) == old(Disk(image, clusters))
      ensures !err && num == old(curBlockNum) ==>
                old(pending) &&
                (r == Done ==> !pending && completions == old(completions) + 1 && Finished()) &&
                (r == Later ==> pending && completions == old(completions)) &&
                (isWrite && blockSize < 8 ==> r != Done)
    {
      hide Shape, Disk, WriteProgress, ReadProgress, BlockData, Pow2;
      if err {
        return true, Later;
      }
      var i :| 0 <= i < |cached| && cached[i].num == num && !cached[i].loaded;
      BlockLoaded(image, blockSize, cached, i, data);
      cached := cached[i := CachedBlock(num, true, data)];
      r := Later;
      ghost var before := cached;
      assert before[i] in before;
      if num == curBlockNum {
        wakings := wakings + 1;
        r := RwAsync1(false);
        StillHeld(before, cached, before[i], r == Later);
      }
      return false, r;
    }
  }

  lemma StillHeld(before: seq<CachedBlock>, cached: seq<CachedBlock>, b: CachedBlock, changed: bool)
    requires b in before && b.loaded && !IsLoading(before, b.num)
    requires if changed then OnlyNew(before, cached) else SameBlocks(before, cached)
    ensures !IsLoading(cached, b.num)
  {
    if !changed {
      SameHolds(before, cached);
    }
  }

  lemma NothingRead(image: seq<Sector>, clusters: Clusters, bs: nat, start: nat)
    requires bs > 0 && start <= |image|
    ensures ReadsOf(image, clusters, bs, start, start, 0) == [] && Placed(clusters, bs, start, start)
  {
  }

  lemma BlockLoaded(image: seq<Sector>, bs: nat, cached: seq<CachedBlock>, i: nat, data: seq<Sector>)
    requires CacheOk(image, bs, cached) && i < |cached| && !cached[i].loaded
    requires (cached[i].num + 1) * bs <= |image| && data == BlockData(image, bs, cached[i].num)
    ensures var cached' := cached[i := CachedBlock(cached[i].num, true, data)];
            CacheOk(image, bs, cached') && !IsLoading(cached', cached[i].num) &&
            forall m: int :: m != cached[i].num ==> (IsLoading(cached', m) <==> IsLoading(cached, m))
  {
    hide BlockData;
    var cached' := cached[i := CachedBlock(cached[i].num, true, data)];
    forall m: int | m != cached[i].num
      ensures IsLoading(cached', m) <==> IsLoading(cached, m)
    {
      if j :| 0 <= j < |cached| && cached[j].num == m && !cached[j].loaded {
        assert cached'[j] == cached[j];
      }
      if j :| 0 <= j < |cached'| && cached'[j].num == m && !cached'[j].loaded {
        assert cached'[j] == cached[j];
      }
    }
  }

  lemma FrontLoaded(image: seq<Sector>, bs: nat, cached: seq<CachedBlock>)
    requires CacheOk(image, bs, cached) && cached != [] && cached[0].loaded
    ensures !IsLoading(cached, cached[0].num)
  {
  }

  lemma FrontLoading(image: seq<Sector>, bs: nat, cached: seq<CachedBlock>)
    requires CacheOk(image, bs, cached) && cached != [] && !cached[0].loaded
    ensures IsLoading(cached, cached[0].num) && !IsHeld(cached, cached[0].num)
  {
    if b :| b in cached && b.num == cached[0].num && b.loaded {
      var i :| 0 <= i < |cached| && cached[i] == b;
    }
  }

  lemma ConsOk(image: seq<Sector>, bs: nat, b: CachedBlock, cached: seq<CachedBlock>)
    requires CacheOk(image, bs, cached) && BlockOk(image, bs, b) && forall c :: c in cached ==> c.num != b.num
    ensures CacheOk(image, bs, [b] + cached)
  {
    hide BlockOk;
  }

  lemma EvictNone(cached: seq<CachedBlock>, excess: int)
    ensures excess <= 0 || cached == [] ==> Evict(cached, excess) == cached
  {
  }

  lemma EvictLast(cached: seq<CachedBlock>, i: nat, excess: int)
    requires i < |cached| && excess > 0
    ensures Evict(cached[..i + 1], excess) + cached[i + 1..] ==
            if cached[i].loaded then Evict(cached[..i], excess - 1) + cached[i + 1..]
              else Evict(cached[..i], excess) + cached[i..]
    ensures cached[i].loaded ==>
              (cached[..i] + cached[i + 1..])[..i] == cached[..i] &&
              (cached[..i] + cached[i + 1..])[i..] == cached[i + 1..]
  {
    assert cached[..i + 1][..i] == cached[..i];
  }
}
