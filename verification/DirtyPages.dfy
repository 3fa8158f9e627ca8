/** Per-page dirty bits of a tracked RAM range: two tables, of which one is current. */
module DirtyPages {
  import opened PhysMem

  datatype DirtyBits = Off | On(tab: seq<seq<bool>>, index: nat)

  /** The tables hold whole 32-bit words. */
  function TableSize(size: nat): nat { (size / 4096 + 31) / 32 * 32 }

  ghost predicate DirtyFor(r: Range, d: DirtyBits)
  {
    (d.On? <==> r.isRam && r.tracked) &&
    (d.On? ==> |d.tab| == 2 && d.index < 2 && forall t :: 0 <= t < 2 ==> |d.tab[t]| == TableSize(r.size))
  }

  ghost predicate DirtyOk(ranges: seq<Range>, dirty: seq<DirtyBits>)
  {
    |dirty| == |ranges| && forall i :: 0 <= i < |ranges| ==> DirtyFor(ranges[i], dirty[i])
  }

  function Current(d: DirtyBits): seq<bool>
    requires d.On? && d.index < |d.tab|
  {
    d.tab[d.index]
  }

  /** The bit of `l`'s page is set, or pages of its range are not tracked. */
  predicate IsDirty(dirty: seq<DirtyBits>, l: Loc)
  {
    0 <= l.range < |dirty| && dirty[l.range].On? && dirty[l.range].index < |dirty[l.range].tab| ==>
      var bits := Current(dirty[l.range]); 0 <= l.offset / 4096 < |bits| && bits[l.offset / 4096]
  }

  function SetBit(d: DirtyBits, page: nat): DirtyBits
    requires d.On? && d.index < |d.tab| && page < |Current(d)|
  {
    On(d.tab[d.index := Current(d)[page := true]], d.index)
  }

  /** The other table, all clear, becomes current. */
  function Swapped(d: DirtyBits): (d': DirtyBits)
    requires d.On? && |d.tab| == 2 && d.index < 2
  {
    var other := 1 - d.index;
    On(d.tab[other := seq(|d.tab[other]|, i => false)], other)
  }

  lemma PageFits(size: nat, offset: nat)
    requires offset < size && size % 4096 == 0
    ensures offset / 4096 < size / 4096 <= TableSize(size)
  {
    assert size == 4096 * (size / 4096);
  }

  /** Setting a bit makes one page dirty and no page clean. */
  lemma SetBitMarks(ranges: seq<Range>, dirty: seq<DirtyBits>, r: nat, page: nat)
    requires DirtyOk(ranges, dirty) && r < |ranges| && dirty[r].On? && page < TableSize(ranges[r].size)
    ensures var dirty' := dirty[r := SetBit(dirty[r], page)];
            DirtyOk(ranges, dirty') && Dirtier(dirty, dirty') && OneMarked(dirty, dirty', r, page) &&
            forall x: Loc :: x.range == r && x.offset / 4096 == page ==> IsDirty(dirty', x)
  {
  }

  predicate IsMarked(dirty: seq<DirtyBits>, r: nat, page: nat)
  {
    r < |dirty| && dirty[r].On? && dirty[r].index < |dirty[r].tab| && page < |Current(dirty[r])| &&
    Current(dirty[r])[page]
  }

  /** No page is marked but this one and those that were. */
  ghost predicate OneMarked(dirty: seq<DirtyBits>, dirty': seq<DirtyBits>, r: nat, page: nat)
  {
    forall q: nat, p: nat :: IsMarked(dirty', q, p) ==> IsMarked(dirty, q, p) || (q == r && p == page)
  }

  ghost predicate Touched(stored: set<Loc>, r: nat, page: nat)
  {
    exists x :: x in stored && x.range == r && x.offset / 4096 == page
  }

  /** Every marked page has a byte in `stored`. */
  ghost predicate OnlyTouched(dirty: seq<DirtyBits>, stored: set<Loc>)
  {
    forall r: nat, p: nat :: IsMarked(dirty, r, p) ==> Touched(stored, r, p)
  }

  lemma TouchedMore(dirty: seq<DirtyBits>, stored: set<Loc>, more: set<Loc>)
    requires OnlyTouched(dirty, stored) && stored <= more
    ensures OnlyTouched(dirty, more)
  {
    hide IsMarked;
    forall r: nat, p: nat | IsMarked(dirty, r, p)
      ensures Touched(more, r, p)
    {
      var x :| x in stored && x.range == r && x.offset / 4096 == p;
    }
  }

  lemma MarkedTouched(dirty: seq<DirtyBits>, dirty': seq<DirtyBits>, stored: set<Loc>, l: Loc, more: set<Loc>)
    requires OnlyTouched(dirty, stored) && l.range >= 0 && l.offset >= 0 && l in more && stored <= more
    requires OneMarked(dirty, dirty', l.range, l.offset / 4096)
    ensures OnlyTouched(dirty', more)
  {
    TouchedMore(dirty, stored, more);
    hide IsMarked;
    assert Touched(more, l.range, l.offset / 4096);
  }

  ghost predicate Dirtier(dirty: seq<DirtyBits>, dirty': seq<DirtyBits>)
  {
    forall x: Loc :: IsDirty(dirty, x) ==> IsDirty(dirty', x)
  }

  lemma UntrackedDirty(dirty: seq<DirtyBits>, r: nat)
    requires r < |dirty| && dirty[r].Off?
    ensures forall x: Loc :: x.range == r ==> IsDirty(dirty, x)
  {
  }
}
