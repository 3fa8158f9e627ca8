/** The CPU's memory side: guest RAM, the control registers, and three direct-mapped caches of translations
    for reads, writes and instruction fetches. */
module TlbCpu {
  import opened Options
  import opened PhysMem
  import opened PageWalk
  import opened Settled
  import opened Control
  import opened MemAccess
  import opened History
  import opened DirtyPages
  import Sticky

  const NO_PAGE: nat := 0xFFFF_FFFF_FFFF_FFFF

  /** A cached page: adding `addend` to a virtual address of the page gives the offset in `range`. */
  datatype Entry = Entry(vaddr: nat, range: int, addend: int)

  function Pointer(e: Entry, a: nat): Loc { Loc(e.range, e.addend + a) }

  function PageBase(a: nat): nat { a - a % 4096 }

  function Index(a: nat): nat { a / 4096 % 256 }

  /** The comparison made on a lookup: the bits below the access size are kept, so unaligned accesses miss. */
  predicate Hits(e: Entry, a: nat, n: nat)
    requires IsSize(n)
  {
    e.vaddr == a - a % 4096 + a % n
  }

  // ---- entries as a history of translations ----

  /** Since the last full flush there was a moment when walking gave this very page, with nothing to write
      (RISC-V Privileged Architecture, section 4.2.1: a translation may be used until the next fence). */
  ghost predicate EntryOk(ranges: seq<Range>, h: seq<Ram>, w: View, e: Entry, access: Access)
  {
    e.vaddr != NO_PAGE ==>
      e.vaddr % 4096 == 0 &&
      exists i :: 0 <= i < |h| && IsSettled(ranges, h[i], RegimeFor(w, access), e.vaddr, access, Pointer(e, e.vaddr))
  }

  ghost predicate TlbOk(ranges: seq<Range>, h: seq<Ram>, w: View, tlb: seq<Entry>, access: Access)
  {
    |tlb| == 256 && forall j :: 0 <= j < 256 ==> EntryOk(ranges, h, w, tlb[j], access)
  }

  lemma TlbLonger(ranges: seq<Range>, h: seq<Ram>, m: Ram, w: View, tlb: seq<Entry>, access: Access)
    requires TlbOk(ranges, h, w, tlb, access)
    ensures TlbOk(ranges, h + [m], w, tlb, access)
  {
    hide IsSettled;
    forall j | 0 <= j < 256
      ensures EntryOk(ranges, h + [m], w, tlb[j], access)
    {
      var e := tlb[j];
      if e.vaddr != NO_PAGE {
        var i :| 0 <= i < |h| && IsSettled(ranges, h[i], RegimeFor(w, access), e.vaddr, access, Pointer(e, e.vaddr));
        assert (h + [m])[i] == h[i];
      }
    }
  }

  lemma TlbUpdated(ranges: seq<Range>, h: seq<Ram>, w: View, tlb: seq<Entry>, access: Access, j: nat, e: Entry)
    requires TlbOk(ranges, h, w, tlb, access) && j < 256 && EntryOk(ranges, h, w, e, access)
    ensures TlbOk(ranges, h, w, tlb[j := e], access)
  {
    hide EntryOk;
  }

  /** In a quiet run every cached page is what a walk would now give, for each of its addresses, and the
      walk would write nothing. */
  lemma CachedPage(ranges: seq<Range>, h: seq<Ram>, w: View, tlb: seq<Entry>, access: Access, j: nat, a: nat)
    requires WellMapped(ranges) && ProperView(w) && QuietRun(ranges, h, w) && |h| > 0
    requires TlbOk(ranges, h, w, tlb, access) && j < 256 && tlb[j].vaddr != NO_PAGE && a / 4096 == tlb[j].vaddr / 4096
    ensures IsSettled(ranges, h[|h| - 1], RegimeFor(w, access), a, access, Pointer(tlb[j], a))
  {
    hide IsSettled, WellMapped, ProperView, QuietRun;
    var e := tlb[j];
    EntrySettled(ranges, h, w, e, access);
    ViewRegime(w, access);
    assert Shift(Pointer(e, e.vaddr), a - e.vaddr) == Pointer(e, a);
    SettledPage(ranges, h[|h| - 1], RegimeFor(w, access), e.vaddr, a, access, Pointer(e, e.vaddr));
  }

  lemma HitSettled(ranges: seq<Range>, h: seq<Ram>, w: View, tlb: seq<Entry>, access: Access, a: nat, n: nat)
    requires WellMapped(ranges) && ProperView(w) && QuietRun(ranges, h, w) && |h| > 0 && IsSize(n)
    requires TlbOk(ranges, h, w, tlb, access) && Hits(tlb[Index(a)], a, n)
    ensures a % n == 0
    ensures IsSettled(ranges, h[|h| - 1], RegimeFor(w, access), a, access, Pointer(tlb[Index(a)], a))
  {
    hide IsSettled, WellMapped, ProperView, QuietRun;
    HitAligned(tlb[Index(a)], a, n);
    CachedPage(ranges, h, w, tlb, access, Index(a), a);
  }

  lemma ViewRegime(w: View, access: Access)
    requires ProperView(w)
    ensures Proper(RegimeFor(w, access))
  {
  }

  lemma EntrySettled(ranges: seq<Range>, h: seq<Ram>, w: View, e: Entry, access: Access)
    requires WellMapped(ranges) && ProperView(w) && QuietRun(ranges, h, w) && |h| > 0
    requires EntryOk(ranges, h, w, e, access) && e.vaddr != NO_PAGE
    ensures IsSettled(ranges, h[|h| - 1], RegimeFor(w, access), e.vaddr, access, Pointer(e, e.vaddr))
  {
    hide IsSettled, WellMapped, ProperView, QuietRun;
    var i :| 0 <= i < |h| && IsSettled(ranges, h[i], RegimeFor(w, access), e.vaddr, access, Pointer(e, e.vaddr));
    SettledLasts(ranges, h, w, i, |h| - 1, e.vaddr, access, Pointer(e, e.vaddr));
  }

  lemma HitAligned(e: Entry, a: nat, n: nat)
    requires IsSize(n) && Hits(e, a, n) && (e.vaddr % 4096 == 0 || e.vaddr == NO_PAGE)
    ensures a % n == 0 && e.vaddr == PageBase(a) && e.vaddr != NO_PAGE && e.vaddr / 4096 == a / 4096
  {
    Sticky.DivModUnique(e.vaddr, 4096, a / 4096, a % n);
  }

  /** What a walk that found RAM may be cached as. */
  lemma FilledEntry(ranges: seq<Range>, m: Ram, g: Regime, a: nat, access: Access, l: Loc, e: Entry)
    requires WellMapped(ranges) && Proper(g)
    requires Target1(ranges, m, g, a, access) == Some(l) && e == Entry(PageBase(a), l.range, l.offset - a)
    ensures e.vaddr % 4096 == 0
    ensures IsSettled(ranges, AfterWalk(ranges, m, g, a, access), g, e.vaddr, access, Pointer(e, e.vaddr))
    ensures IsSettled(ranges, AfterWalk(ranges, m, g, a, access), g, a, access, l)
  {
    hide Translate, AfterWalk, Locate, Proper;
    WalkKeepsTranslations(ranges, m, g, a, access, g, a, access);
    WalkTwice(ranges, m, g, a, access);
    var m' := AfterWalk(ranges, m, g, a, access);
    assert IsSettled(ranges, m', g, a, access, l);
    BaseOf(a);
    SettledPage(ranges, m', g, a, PageBase(a), access, l);
    assert Shift(l, PageBase(a) - a) == Pointer(e, e.vaddr);
  }

  lemma BaseOf(a: nat)
    ensures PageBase(a) % 4096 == 0 && PageBase(a) / 4096 == a / 4096
  {
    Sticky.DivModUnique(PageBase(a), 4096, a / 4096, 0);
  }

  // ---- dirty pages ----

  /** Every live write entry into a tracked range has its page's bit set. */
  ghost predicate WritersDirty(dirty: seq<DirtyBits>, tlb: seq<Entry>)
  {
    forall j :: 0 <= j < |tlb| && tlb[j].vaddr != NO_PAGE ==> IsDirty(dirty, Pointer(tlb[j], tlb[j].vaddr))
  }

  ghost predicate AllDirty(dirty: seq<DirtyBits>, stored: set<Loc>)
  {
    forall x :: x in stored ==> IsDirty(dirty, x)
  }

  /** A byte differs from what was last shown only if a store or a walk's own write made it so. */
  ghost predicate Accounted(ram: Ram, shown: Ram, stored: set<Loc>, marked: set<Loc>)
  {
    forall x :: ByteAt(ram, x) == ByteAt(shown, x) || x in stored || x in marked
  }

  lemma StoreAccounted(ram: Ram, shown: Ram, stored: set<Loc>, marked: set<Loc>, l: Loc, v: nat, n: nat)
    requires Accounted(ram, shown, stored, marked)
    ensures Accounted(Store(ram, l, v, n), shown, stored + Bytes(l, n), marked)
  {
    hide Store;
    forall x
      ensures ByteAt(Store(ram, l, v, n), x) == ByteAt(shown, x) || x in stored + Bytes(l, n) || x in marked
    {
      InBytes(l, n, x);
      if !Inside(x, l, n) {
        StoreOutside(ram, l, v, n, x);
      }
    }
  }

  class Cpu {
    const ranges: seq<Range>
    const tlbRead: array<Entry>
    const tlbWrite: array<Entry>
    const tlbCode: array<Entry>
    var ram: Ram
    var priv: Priv
    var mstatus: bv64
    var satp: nat
    var medeleg: bv64
    var mideleg: bv64
    var dirty: seq<DirtyBits>
    /** RAM at each moment since the last full flush, the present one last. */
    ghost var since: seq<Ram>
    /** What the last collection of dirty bits saw, the bytes stored since, and those a walk changed since. */
    ghost var shown: Ram
    ghost var stored: set<Loc>
    ghost var marked: set<Loc>

    function Control(): Ctl reads this { Ctl(priv, mstatus, satp) }

    ghost predicate Shape()
    {
      tlbRead != tlbWrite && tlbRead != tlbCode && tlbWrite != tlbCode &&
      tlbRead.Length == tlbWrite.Length == tlbCode.Length == 256
    }

    ghost predicate Valid()
      reads this, tlbRead, tlbWrite, tlbCode
    {
      Coherent() && Tracked()
    }

    /** The three caches hold translations of the present regime, each right at some moment since the flush. */
    ghost predicate Coherent()
      reads this, tlbRead, tlbWrite, tlbCode
    {
      var w := ViewOf(Control());
      Shape() && WellMapped(ranges) && ProperSatp(satp) &&
      |since| > 0 && since[|since| - 1] == ram &&
      TlbOk(ranges, since, w, tlbRead[..], Read) && TlbOk(ranges, since, w, tlbWrite[..], Write) &&
      TlbOk(ranges, since, w, tlbCode[..], Code)
    }

    ghost predicate Tracked()
      reads this, tlbWrite
    {
      DirtyOk(ranges, dirty) && WritersDirty(dirty, tlbWrite[..]) && AllDirty(dirty, stored) &&
      OnlyTouched(dirty, stored) && Accounted(ram, shown, stored, marked)
    }

    /** No cached pages, no bytes shown yet. */
    constructor (ranges0: seq<Range>, ram0: Ram)
      requires WellMapped(ranges0)
      ensures Valid() && ranges == ranges0 && ram == ram0 && priv == M && mstatus == 0 && satp == 0
      ensures fresh(tlbRead) && fresh(tlbWrite) && fresh(tlbCode) && shown == ram0 && stored == {} && marked == {}
    {
      ranges, ram := ranges0, ram0;
      tlbRead := new Entry[256](i => Entry(NO_PAGE, 0, 0));
      tlbWrite := new Entry[256](i => Entry(NO_PAGE, 0, 0));
      tlbCode := new Entry[256](i => Entry(NO_PAGE, 0, 0));
      priv, mstatus, satp, medeleg, mideleg := M, 0, 0, 0, 0;
      dirty := seq(|ranges0|, i requires 0 <= i < |ranges0| => CleanTables(ranges0[i]));
      since, shown, stored, marked := [ram0], ram0, {}, {};
    }

    // ---- flushing ----

    method FlushAll()
      requires Shape()
      modifies tlbRead, tlbWrite, tlbCode, this`since
      ensures forall j :: 0 <= j < 256 ==> tlbRead[j].vaddr == tlbWrite[j].vaddr == tlbCode[j].vaddr == NO_PAGE
      ensures since == [ram]
      ensures WellMapped(ranges) && ProperSatp(satp) ==> Coherent()
      ensures old(Tracked()) ==> Tracked()
    {
      var i := 0;
      while i < 256
        invariant i <= 256
        invariant forall j :: 0 <= j < i ==> tlbRead[j].vaddr == tlbWrite[j].vaddr == tlbCode[j].vaddr == NO_PAGE
      {
        tlbRead[i] := tlbRead[i].(vaddr := NO_PAGE);
        tlbWrite[i] := tlbWrite[i].(vaddr := NO_PAGE);
        tlbCode[i] := tlbCode[i].(vaddr := NO_PAGE);
        i := i + 1;
      }
      since := [ram];
    }

    /** Drops the write entries that point into `size` bytes at offset `start` of range `r`. */
    method FlushWriteRange(r: int, start: int, size: nat)
      requires Shape()
      modifies tlbWrite
      ensures forall j :: 0 <= j < 256 ==>
                tlbWrite[j] == old(tlbWrite[j]) || tlbWrite[j] == old(tlbWrite[j]).(vaddr := NO_PAGE)
      ensures forall j :: 0 <= j < 256 && tlbWrite[j].vaddr != NO_PAGE ==>
                !Inside(Pointer(tlbWrite[j], tlbWrite[j].vaddr), Loc(r, start), size)
    {
      var i := 0;
      while i < 256
        invariant i <= 256
        invariant forall j :: 0 <= j < 256 ==>
                    tlbWrite[j] == old(tlbWrite[j]) || (j < i && tlbWrite[j] == old(tlbWrite[j]).(vaddr := NO_PAGE))
        invariant forall j :: 0 <= j < i && tlbWrite[j].vaddr != NO_PAGE ==>
                    !Inside(Pointer(tlbWrite[j], tlbWrite[j].vaddr), Loc(r, start), size)
      {
        if tlbWrite[i].vaddr != NO_PAGE && Inside(Pointer(tlbWrite[i], tlbWrite[i].vaddr), Loc(r, start), size) {
          tlbWrite[i] := tlbWrite[i].(vaddr := NO_PAGE);
        }
        i := i + 1;
      }
    }

    // ---- the page walk ----

    method PhysRead64(at: nat) returns (v: nat)
      ensures v == Read64(ranges, ram, at)
    {
      var r := GetPhysMemRange(ranges, at);
      if r.None? || !ranges[r.value].isRam {
        return 0;
      }
      v := Load(ram, Loc(r.value, at - ranges[r.value].addr), 8);
    }

    method PhysWrite64(at: nat, v: nat)
      modifies `ram
      ensures ram == Write64(ranges, old(ram), at, v)
    {
      var r := GetPhysMemRange(ranges, at);
      if r.None? || !ranges[r.value].isRam {
        return;
      }
      ram := Store(ram, Loc(r.value, at - ranges[r.value].addr), v, 8);
    }

    /** The walk, level by level. Its own writes go to RAM without touching the dirty bits. */
    method GetPhysAddr(v: nat, access: Access) returns (r: Option<nat>)
      requires ProperSatp(satp) && v < TWO_64
      modifies `ram
      ensures var g := RegimeFor(ViewOf(Control()), access);
              r == Translate(ranges, old(ram), g, v, access) && ram == AfterWalk(ranges, old(ram), g, v, access)
    {
      hide Canonical, Span, Target, Read64, Write64, Mode, PreviousPriv, Xwr, Present, Translate, AfterWalk, RegimeOf;
      var p := if mstatus & MPRV != 0 && !access.Code? then PreviousPriv(mstatus) else priv;
      ghost var g := RegimeFor(ViewOf(Control()), access);
      RegimeIs(p, mstatus, satp);
      Untranslated(ranges, ram, g, v, access);
      if p.M? || Mode(satp) == 0 {
        return Some(v);
      }
      var levels := Mode(satp) - 8 + 3;
      if !Canonical(v, levels) {
        return None;
      }
      var table: nat, i := satp % 0x1000_0000_0000 * 4096, 0;
      while i < levels
        invariant i <= levels && ram == old(ram)
        invariant LeafOf(ranges, ram, g, v) == if i < levels then Walk(ranges, ram, table, v, levels - 1 - i)
                  else NoLeaf
      {
        var k := levels - 1 - i;
        var at := table + 8 * (v / Span(k) % 512);
        var pte := PhysRead64(at);
        if !Present(pte) {
          return None;
        }
        if Xwr(pte) != 0 {
          r := Finish(g, v, access, p, Leaf(at, pte, k));
          return;
        }
        table := Target(pte);
        i := i + 1;
      }
      return None;
    }

    /** At the leaf: the checks, the accessed and dirty bits, and the physical address. */
    method Finish(ghost g: Regime, v: nat, access: Access, p: Priv, leaf: Leaf) returns (r: Option<nat>)
      requires g == RegimeOf(p, mstatus, satp) && g.Paged? && leaf.Leaf? && leaf == LeafOf(ranges, ram, g, v)
      modifies `ram
      ensures r == Translate(ranges, old(ram), g, v, access) && ram == AfterWalk(ranges, old(ram), g, v, access)
    {
      hide Canonical, Span, Target, Read64, Write64, Walk, LeafOf, Accessed, Dirty, User;
      var pte := leaf.pte;
      var xwr := Xwr(pte);
      if xwr == 2 || xwr == 6 {
        return None;
      }
      if p.S? {
        if User(pte) && mstatus & SUM == 0 {
          return None;
        }
      } else {
        if !User(pte) {
          return None;
        }
      }
      var readable := xwr % 2 == 1 || (mstatus & MXR != 0 && xwr / 4 == 1);
      var allowed := match access case Read => readable case Write => xwr / 2 % 2 == 1 case Code => xwr / 4 == 1;
      if !allowed {
        return None;
      }
      assert Permits(g, access, pte);
      var needWrite := !Accessed(pte) || (!Dirty(pte) && access.Write?);
      var updated := Updated(pte, access);
      if needWrite {
        PhysWrite64(leaf.at, updated);
      }
      var paddr := Target(pte);
      return Some(v % Span(leaf.k) + (paddr - paddr % Span(leaf.k)));
    }

    /** A walk, and the RAM location it leads to if any. */
    method LookUp(v: nat, access: Access) returns (p: Option<nat>, l: Option<Loc>)
      requires Valid() && v < TWO_64
      modifies `ram, `since, `marked
      ensures Valid() && since == old(since) + [ram]
      ensures var g := RegimeFor(ViewOf(Control()), access);
              p == Translate(ranges, old(ram), g, v, access) && l == Target1(ranges, old(ram), g, v, access) &&
              ram == AfterWalk(ranges, old(ram), g, v, access) &&
              Recorded(ranges, old(since), since, g, access, {}, old(marked), marked)
    {
      hide Translate, AfterWalk, TlbOk, WritersDirty, AllDirty, Accounted, DirtyOk, Recorded;
      p := GetPhysAddr(v, access);
      TlbLonger(ranges, since, ram, ViewOf(Control()), tlbRead[..], Read);
      TlbLonger(ranges, since, ram, ViewOf(Control()), tlbWrite[..], Write);
      TlbLonger(ranges, since, ram, ViewOf(Control()), tlbCode[..], Code);
      WalkAccounted(old(ram), ram, shown, stored, marked);
      WalkRecorded(ranges, since, ram, RegimeFor(ViewOf(Control()), access), v, access, {}, marked);
      since, marked := since + [ram], marked + Changed(old(ram), ram);
      l := None;
      if p.Some? {
        var r := GetPhysMemRange(ranges, p.value);
        if r.Some? && ranges[r.value].isRam {
          l := Some(Loc(r.value, p.value - ranges[r.value].addr));
        }
      }
    }

    // ---- loads ----

    /** The slow path for an aligned load: walk, remember the page if it is RAM, read. */
    method ReadAligned(a: nat, n: nat) returns (r: LoadResult)
      requires Valid() && a < TWO_64
      modifies `ram, `since, `marked, tlbRead
      ensures Valid() && since == old(since) + [ram]
      ensures var g := ViewOf(Control()).data;
              r == LoadAligned(ranges, old(ram), g, a, n) && ram == AfterWalk(ranges, old(ram), g, a, Read) &&
              Recorded(ranges, old(since), since, g, Read, {}, old(marked), marked)
    {
      hide Translate, AfterWalk, TlbOk, WritersDirty, AllDirty, Accounted, DirtyOk, Recorded;
      var p, l := LookUp(a, Read);
      if p.None? {
        return LoadFault(a);
      }
      if l.None? {
        return Foreign;
      }
      var e := Entry(PageBase(a), l.value.range, l.value.offset - a);
      FillOk(ranges, since, old(ram), ViewOf(Control()), tlbRead[..], Read, a, l.value, e);
      ghost var tlb := tlbRead[..];
      tlbRead[Index(a)] := e;
      assert tlbRead[..] == tlb[Index(a) := e];
      r := Value(Load(ram, l.value, n));
    }

    /** A load: from the cached page on a hit, else by the slow path. As long as page tables change only by
        walks since the last flush, nobody can tell which it was. */
    method ReadU(a: nat, n: nat) returns (r: LoadResult)
      requires Valid() && a < TWO_64 && IsSize(n)
      modifies `ram, `since, `marked, tlbRead
      ensures Valid() && Recorded(ranges, old(since), since, ViewOf(Control()).data, Read, {}, old(marked), marked)
      ensures var w := ViewOf(Control());
              QuietRun(ranges, old(since), w) ==>
                QuietRun(ranges, since, w) && (r, ram) == LoadAny(ranges, old(ram), w.data, a, n)
      decreases a % n != 0, 1
    {
      hide Translate, AfterWalk, TlbOk, QuietRun, LoadAny, WellMapped, ViewOf, Tracked, Recorded;
      TlbLengths(ranges, since, ViewOf(Control()), tlbRead[..], Read);
      ViewProper(Control());
      if Hits(tlbRead[Index(a)], a, n) {
        r := Value(Load(ram, Pointer(tlbRead[Index(a)], a), n));
        NothingRecorded(ranges, since, ViewOf(Control()).data, Read, {}, marked);
        if QuietRun(ranges, since, ViewOf(Control())) {
          HitLoad(ranges, since, ViewOf(Control()), tlbRead[..], a, n);
        }
      } else {
        r := ReadSlow(a, n);
      }
    }

    method ReadSlow(a: nat, n: nat) returns (r: LoadResult)
      requires Valid() && a < TWO_64 && IsSize(n)
      modifies `ram, `since, `marked, tlbRead
      ensures Valid() && Recorded(ranges, old(since), since, ViewOf(Control()).data, Read, {}, old(marked), marked)
      ensures var w := ViewOf(Control());
              QuietRun(ranges, old(since), w) ==>
                QuietRun(ranges, since, w) && (r, ram) == LoadAny(ranges, old(ram), w.data, a, n)
      decreases a % n != 0, 0
    {
      hide Translate, AfterWalk, TlbOk, QuietRun, WellMapped, ViewOf, Coherent, Tracked, Recorded;
      ghost var w := ViewOf(Control());
      if a % n == 0 {
        r := ReadAligned(a, n);
        LoadQuiet(old(since), old(marked));
      } else if n == 2 {
        var v0 := ReadU(a, 1);
        if v0.LoadFault? {
          return v0;
        }
        ghost var h, marked1 := since, marked;
        var v1 := ReadU(Plus(a, 1), 1);
        RecordedThen(ranges, old(since), h, since, w.data, Read, {}, {}, old(marked), marked1, marked);
        if v1.LoadFault? {
          return v1;
        }
        r := if v0.Foreign? || v1.Foreign? then Foreign else Value(v0.v + 256 * v1.v);
      } else {
        var al := a % n;
        var base := a - al;
        AlignedBase(a, n);
        var v0 := ReadU(base, n);
        if v0.LoadFault? {
          return v0;
        }
        ghost var h, marked1 := since, marked;
        var v1 := ReadU(Plus(base, n), n);
        RecordedThen(ranges, old(since), h, since, w.data, Read, {}, {}, old(marked), marked1, marked);
        r := Join(v0, v1, al, n);
      }
    }

    lemma LoadQuiet(h: seq<Ram>, marked0: set<Loc>)
      requires Coherent() && Recorded(ranges, h, since, ViewOf(Control()).data, Read, {}, marked0, marked)
      ensures QuietRun(ranges, h, ViewOf(Control())) ==> QuietRun(ranges, since, ViewOf(Control()))
    {
      hide QuietRun, Recorded, WellMapped, ViewOf, TlbOk;
      ViewProper(Control());
      if QuietRun(ranges, h, ViewOf(Control())) {
        ReadsQuiet(ranges, h, since, ViewOf(Control()), Read, marked0, marked);
      }
    }

    // ---- stores ----

    method SetDirtyBit(r: nat, offset: nat)
      requires WellMapped(ranges) && DirtyOk(ranges, dirty) && r < |ranges| && ranges[r].isRam &&
               offset < ranges[r].size
      modifies `dirty
      ensures DirtyOk(ranges, dirty) && Dirtier(old(dirty), dirty)
      ensures forall x: Loc :: x.range == r && x.offset / 4096 == offset / 4096 ==> IsDirty(dirty, x)
      ensures OneMarked(old(dirty), dirty, r, offset / 4096)
    {
      hide IsDirty, SetBit, TableSize, IsMarked;
      if dirty[r].On? {
        PageFits(ranges[r].size, offset);
        SetBitMarks(ranges, dirty, r, offset / 4096);
        dirty := dirty[r := SetBit(dirty[r], offset / 4096)];
      } else {
        UntrackedDirty(dirty, r);
      }
    }

    /** The slow path for an aligned store: walk, mark the page dirty, remember it, write. */
    method WriteAligned(a: nat, v: nat, n: nat) returns (r: StoreResult)
      requires Valid() && a < TWO_64 && IsSize(n) && a % n == 0
      modifies `ram, `since, `marked, `dirty, `stored, tlbWrite
      ensures Valid()
      ensures var g := ViewOf(Control()).data;
              (r, ram) == StoreAligned(ranges, old(ram), g, a, v, n) &&
              stored == old(stored) + WrittenBy(ranges, old(ram), g, a, n) &&
              (r.Done? <==> Reach(ranges, old(ram), g, a, n) == n) &&
              Recorded(ranges, old(since), since, g, Write, stored, old(marked), marked)
    {
      hide Translate, AfterWalk, TlbOk, WritersDirty, AllDirty, Accounted, DirtyOk, Store, WellMapped, ViewOf, IsDirty,
        Recorded, WrittenBy, Reach, Bytes, OnlyTouched, OneMarked;
      ViewProper(Control());
      ghost var g := ViewOf(Control()).data;
      WrittenAligned(ranges, ram, g, a, n);
      var p, l := LookUp(a, Write);
      RecordedMore(ranges, old(since), since, g, Write, {}, stored, old(marked), marked);
      if p.None? {
        return StoreFault(a);
      }
      if l.None? {
        return Done;
      }
      TranslatePage(ranges, old(ram), g, a, a, Write);
      Located(ranges, p.value);
      SetDirtyBit(l.value.range, l.value.offset);
      var e := Entry(PageBase(a), l.value.range, l.value.offset - a);
      FillOk(ranges, since, old(ram), ViewOf(Control()), tlbWrite[..], Write, a, l.value, e);
      ghost var tlb := tlbWrite[..];
      tlbWrite[Index(a)] := e;
      assert tlbWrite[..] == tlb[Index(a) := e];
      WrittenPage(ranges, p.value, a, n, l.value);
      DirtierStill(old(dirty), dirty, tlb, stored, Index(a), e);
      InBytes(l.value, n, l.value);
      MarkedTouched(old(dirty), dirty, stored, l.value, stored + Bytes(l.value, n));
      ghost var h := since;
      StoreTo(l.value, v, n);
      StoreRecorded(ranges, h, g, Write, l.value, v, n, stored, marked);
      RecordedThen(ranges, old(since), h, since, g, Write, old(stored), stored, old(marked), marked, marked);
      return Done;
    }

    /** Writes through a host pointer. */
    method StoreTo(l: Loc, v: nat, n: nat)
      requires Coherent() && DirtyOk(ranges, dirty) && WritersDirty(dirty, tlbWrite[..]) && AllDirty(dirty, stored)
      requires Accounted(ram, shown, stored, marked) && OnlyTouched(dirty, stored + Bytes(l, n))
      requires forall x :: x in Bytes(l, n) ==> IsDirty(dirty, x)
      modifies `ram, `since, `stored
      ensures Valid()
      ensures ram == Store(old(ram), l, v, n) && since == old(since) + [ram] && stored == old(stored) + Bytes(l, n)
    {
      hide TlbOk, WritersDirty, Accounted, DirtyOk, Store, WellMapped, ViewOf, IsDirty, Bytes, OnlyTouched;
      StoreAccounted(ram, shown, stored, marked, l, v, n);
      ram := Store(ram, l, v, n);
      TlbLonger(ranges, since, ram, ViewOf(Control()), tlbRead[..], Read);
      TlbLonger(ranges, since, ram, ViewOf(Control()), tlbWrite[..], Write);
      TlbLonger(ranges, since, ram, ViewOf(Control()), tlbCode[..], Code);
      since, stored := since + [ram], stored + Bytes(l, n);
    }

    /** A store: on a hit straight to RAM, without looking at the dirty bits. */
    method WriteU(a: nat, v: nat, n: nat) returns (r: StoreResult)
      requires Valid() && a < TWO_64 && IsSize(n)
      modifies `ram, `since, `marked, `dirty, `stored, tlbWrite
      ensures Valid() && old(stored) <= stored
      ensures Recorded(ranges, old(since), since, ViewOf(Control()).data, Write, stored, old(marked), marked)
      ensures var w := ViewOf(Control());
              QuietRun(ranges, if a % n == 0 then old(since) else since, w) ==>
                (r, ram) == StoreAny(ranges, old(ram), w.data, a, v, n) &&
                stored == old(stored) + WrittenBy(ranges, old(ram), w.data, a, n) &&
                (r.Done? <==> Reach(ranges, old(ram), w.data, a, n) == n)
      decreases a % n != 0, 1
    {
      hide Translate, AfterWalk, TlbOk, QuietRun, StoreAny, WellMapped, ViewOf, WritersDirty, AllDirty, Accounted,
        DirtyOk, Store, Recorded, WrittenBy, Reach, Bytes;
      ghost var w := ViewOf(Control());
      TlbLengths(ranges, since, w, tlbWrite[..], Write);
      ViewProper(Control());
      var e := tlbWrite[Index(a)];
      if Hits(e, a, n) {
        HitDirty(ranges, since, w, tlbWrite[..], dirty, a, n);
        TouchedMore(dirty, stored, stored + Bytes(Pointer(e, a), n));
        StoreTo(Pointer(e, a), v, n);
        r := Done;
        StoreRecorded(ranges, old(since), w.data, Write, Pointer(e, a), v, n, stored, marked);
        PrefixQuiet(ranges, old(since), since, w);
        if QuietRun(ranges, old(since), w) {
          HitStore(ranges, old(since), w, tlbWrite[..], a, v, n);
        }
      } else {
        r := WriteSlow(a, v, n);
      }
    }

    method WriteSlow(a: nat, v: nat, n: nat) returns (r: StoreResult)
      requires Valid() && a < TWO_64 && IsSize(n)
      modifies `ram, `since, `marked, `dirty, `stored, tlbWrite
      ensures Valid() && old(stored) <= stored
      ensures Recorded(ranges, old(since), since, ViewOf(Control()).data, Write, stored, old(marked), marked)
      ensures var w := ViewOf(Control());
              QuietRun(ranges, if a % n == 0 then old(since) else since, w) ==>
                (r, ram) == StoreAny(ranges, old(ram), w.data, a, v, n) &&
                stored == old(stored) + WrittenBy(ranges, old(ram), w.data, a, n) &&
                (r.Done? <==> Reach(ranges, old(ram), w.data, a, n) == n)
      decreases a % n != 0, 0
    {
      hide StoreAligned, QuietRun, WellMapped, ViewOf, Coherent, Tracked, Pow256, Recorded, Reach, Written, Translate;
      if a % n == 0 {
        r := WriteAligned(a, v, n);
        return;
      }
      ghost var w := ViewOf(Control());
      Now();
      NothingRecorded(ranges, since, w.data, Write, stored, marked);
      WrittenNext(ranges, ram, w.data, a, 0);
      var i := 0;
      while i < n
        invariant i <= n && Valid() && old(stored) <= stored
        invariant Recorded(ranges, old(since), since, w.data, Write, stored, old(marked), marked)
        invariant QuietRun(ranges, since, w) ==>
                    StoreBytes(ranges, old(ram), w.data, a, v, 0, n) == StoreBytes(ranges, ram, w.data, a, v, i, n)
        invariant QuietRun(ranges, since, w) ==> stored == old(stored) + Written(ranges, old(ram), w.data, a, i)
        invariant QuietRun(ranges, since, w) ==>
                    AllMapped(ranges, old(ram), w.data, a, i) && (i == n ==> Reach(ranges, old(ram), w.data, a, n) == n)
      {
        Now();
        ghost var h, stored1, marked1 := since, stored, marked;
        r := WriteU(Plus(a, i), Sticky.Quot(v, Pow256(i)) % 256, 1);
        RecordedThen(ranges, old(since), h, since, w.data, Write, stored1, stored, old(marked), marked1, marked);
        RecordedPrefix(ranges, old(since), h, w.data, Write, stored1, old(marked), marked1);
        RecordedPrefix(ranges, h, since, w.data, Write, stored, marked1, marked);
        PrefixQuiet(ranges, h, since, w);
        if QuietRun(ranges, since, w) {
          ByteQuiet(ranges, old(since), h, w, a, n, i);
        }
        if r.StoreFault? {
          return;
        }
        i := i + 1;
      }
      r := Done;
    }

    lemma Now()
      requires Coherent()
      ensures WellMapped(ranges) && ProperView(ViewOf(Control())) && |since| > 0 && since[|since| - 1] == ram
    {
      hide WellMapped, ViewOf, TlbOk, ProperView;
      ViewProper(Control());
    }

    // ---- instruction fetch ----

    method ReadInsnU16(a: nat) returns (r: FetchResult)
      requires Valid() && a < TWO_64 && a % 2 == 0
      modifies `ram, `since, `marked, tlbCode
      ensures Valid() && Recorded(ranges, old(since), since, ViewOf(Control()).code, Code, {}, old(marked), marked)
      ensures var w := ViewOf(Control());
              QuietRun(ranges, old(since), w) ==> (r, ram) == Fetch(ranges, old(ram), w.code, a)
    {
      hide Translate, AfterWalk, TlbOk, QuietRun, WellMapped, ViewOf, Tracked, Load, Recorded;
      ghost var w := ViewOf(Control());
      TlbLengths(ranges, since, w, tlbCode[..], Code);
      ViewProper(Control());
      var e := tlbCode[Index(a)];
      if Hits(e, a, 1) {
        if QuietRun(ranges, since, w) {
          HitSettled(ranges, since, w, tlbCode[..], Code, a, 1);
        }
        NothingRecorded(ranges, since, w.code, Code, {}, marked);
        return Insn(Load(ram, Pointer(e, a), 2));
      }
      var p, l := LookUp(a, Code);
      if p.None? {
        return FetchPageFault(a);
      }
      if l.None? {
        return FetchFault(a);
      }
      var e' := Entry(PageBase(a), l.value.range, l.value.offset - a);
      FillOk(ranges, since, old(ram), w, tlbCode[..], Code, a, l.value, e');
      ghost var tlb := tlbCode[..];
      tlbCode[Index(a)] := e';
      assert tlbCode[..] == tlb[Index(a) := e'];
      return Insn(Load(ram, l.value, 2));
    }

    // ---- control registers ----

    method SetMstatus(val: bv64)
      requires Valid()
      modifies `mstatus, `since, tlbRead, tlbWrite, tlbCode
      ensures Valid() && mstatus == MstatusAfter(old(mstatus), val)
      ensures since == if old(Flushes(mstatus, val)) then [ram] else old(since)
    {
      hide MstatusAfter, TlbOk, WritersDirty, AllDirty, Accounted, DirtyOk, WellMapped, ViewOf;
      if Flushes(mstatus, val) {
        mstatus := MstatusAfter(mstatus, val);
        FlushAll();
      } else {
        UnflushedWrite(Control(), val);
        mstatus := MstatusAfter(mstatus, val);
      }
    }

    /** sstatus is a window on mstatus. */
    method WriteSstatus(val: bv64)
      requires Valid()
      modifies `mstatus, `since, tlbRead, tlbWrite, tlbCode
      ensures Valid() && (since == [ram] || since == old(since))
      ensures mstatus & !SSTATUS_MASK & !SXL == old(mstatus) & !SSTATUS_MASK & !SXL
    {
      SetMstatus((mstatus & !SSTATUS_MASK) | (val & SSTATUS_MASK));
      WindowBits(old(mstatus), val);
    }

    /** An unsupported mode is ignored; the root is taken either way. */
    method WriteSatp(val: nat)
      requires Valid() && val < TWO_64
      modifies `satp, `since, tlbRead, tlbWrite, tlbCode
      ensures Valid() && satp % 0x1000_0000_0000 == val % 0x1000_0000_0000 && since == [ram]
      ensures Mode(satp) == if Mode(val) in {0, 8, 9} then Mode(val) else old(Mode(satp))
    {
      hide TlbOk, WritersDirty, AllDirty, Accounted, DirtyOk, WellMapped, ViewOf;
      var mode := Mode(satp);
      var newMode := Mode(val);
      if newMode == 0 || newMode == 8 || newMode == 9 {
        mode := newMode;
      }
      SatpFields(mode, val % 0x1000_0000_0000);
      satp := val % 0x1000_0000_0000 + mode * 0x1000_0000_0000_0000;
      FlushAll();
    }

    method SetPriv(p: Priv)
      requires Shape() && WellMapped(ranges) && ProperSatp(satp)
      modifies `priv, `since, tlbRead, tlbWrite, tlbCode
      ensures priv == p && (old(Tracked()) ==> Tracked())
      ensures p != old(priv) ==> Coherent() && since == [ram]
      ensures p == old(priv) ==> since == old(since) && tlbRead[..] == old(tlbRead[..]) &&
                                 tlbWrite[..] == old(tlbWrite[..]) && tlbCode[..] == old(tlbCode[..])
    {
      if priv != p {
        priv := p;
        FlushAll();
      }
    }

    /** Takes a trap. The caches stay right except when it is taken in M-mode while MPRV redirects data
        accesses to a lower mode's tables: MPP is then overwritten without a flush. */
    method RaiseException(interrupt: bool, cause: bv6)
      requires Valid()
      modifies `priv, `mstatus, `since, tlbRead, tlbWrite, tlbCode
      ensures Tracked() && since == if priv != old(priv) then [ram] else old(since)
      ensures var deleg := old((priv.U? || priv.S?) && ((if interrupt then mideleg else medeleg) >> cause) & 1 != 0);
              Control() == AfterTrap(old(Control()), deleg)
      ensures old(!(priv.M? && mstatus & MPRV != 0 && !PreviousPriv(mstatus).M? && Mode(satp) != 0)) ==> Valid()
    {
      hide TrapMstatus, TlbOk, WritersDirty, AllDirty, Accounted, DirtyOk, WellMapped, ViewOf, Mode, PreviousPriv;
      var deleg := (priv.U? || priv.S?) && ((if interrupt then mideleg else medeleg) >> cause) & 1 != 0;
      TrapUnnoticed(Control(), deleg);
      mstatus := TrapMstatus(mstatus, priv, deleg);
      if deleg {
        SetPriv(S);
      } else {
        SetPriv(M);
      }
    }

    method HandleSret()
      requires Valid() && !priv.U?
      modifies `priv, `mstatus, `since, tlbRead, tlbWrite, tlbCode
      ensures Valid() && Control() == AfterSret(old(Control()))
      ensures since == if priv != old(priv) then [ram] else old(since)
    {
      hide TlbOk, WritersDirty, AllDirty, Accounted, DirtyOk, WellMapped, ViewOf;
      SretNoticed(Control());
      var c := AfterSret(Control());
      mstatus := c.mstatus;
      SetPriv(c.priv);
    }

    /** Returns from a trap. The caches stay right except when M-mode returns to M-mode with MPRV set. */
    method HandleMret()
      requires Valid() && priv.M?
      modifies `priv, `mstatus, `since, tlbRead, tlbWrite, tlbCode
      ensures Tracked() && Control() == AfterMret(old(Control()))
      ensures since == if priv != old(priv) then [ram] else old(since)
      ensures old(!(PreviousPriv(mstatus).M? && mstatus & MPRV != 0 && Mode(satp) != 0)) ==> Valid()
    {
      hide TlbOk, WritersDirty, AllDirty, Accounted, DirtyOk, WellMapped, ViewOf, Mode, PreviousPriv;
      MretUnnoticed(Control());
      var c := AfterMret(Control());
      mstatus := c.mstatus;
      SetPriv(c.priv);
    }

    // ---- collecting dirty bits ----

    /** Hands out the current table of a tracked range and starts an empty one. Write entries into the range
        are dropped only if some bit is set: with no bit set there are none. */
    method GetDirtyBits(r: nat) returns (bits: seq<bool>)
      requires Valid() && r < |ranges| && ranges[r].isRam && ranges[r].tracked
      modifies `dirty, `shown, `stored, `marked, tlbWrite
      ensures Valid() && |bits| == TableSize(ranges[r].size)
      ensures bits == old(Current(dirty[r])) && forall p :: 0 <= p < |bits| ==> !Current(dirty[r])[p]
      ensures Reported(bits, r, ram, old(shown), old(stored), old(marked))
      ensures forall p :: 0 <= p < |bits| && bits[p] ==> Touched(old(stored), r, p)
      ensures shown == Showing(ram, old(shown), r)
      ensures stored == Outside(old(stored), r) && marked == Outside(old(marked), r)
      ensures forall x: Loc :: x.range != r ==> (IsDirty(dirty, x) <==> old(IsDirty(dirty, x)))
    {
      hide TlbOk, Accounted, WellMapped, ViewOf, TableSize, WritersDirty, AllDirty, IsDirty, Swapped, Outside,
        Showing, Reported, OnlyTouched, Touched;
      ReportedIs(ranges, dirty, r, ram, shown, stored, marked);
      BitsTouched(dirty, stored, r);
      bits := Current(dirty[r]);
      var hasDirtyBits := AnySet(bits);
      ghost var tlb := tlbWrite[..];
      if hasDirtyBits && ranges[r].size != 0 {
        FlushWriteRange(r, 0, ranges[r].size);
        TlbDropped(ranges, since, ViewOf(Control()), tlb, tlbWrite[..], Write, dirty);
      }
      if hasDirtyBits {
        NoneAfterFlush(ranges, since, ViewOf(Control()), tlbWrite[..], r);
      } else {
        NoneWhenClean(ranges, dirty, tlbWrite[..], r);
      }
      SwapKeeps(ranges, dirty, tlbWrite[..], r);
      dirty := dirty[r := Swapped(dirty[r])];
      ShownAfter(ram, shown, stored, marked, r);
      OutsideDirty(old(dirty), dirty, stored, r);
      OutsideTouched(old(dirty), dirty, stored, r);
      shown, stored, marked := Showing(ram, shown, r), Outside(stored, r), Outside(marked, r);
    }
  }

  lemma RegimeIs(p: Priv, ms: bv64, satp: nat)
    requires ProperSatp(satp)
    ensures var g := RegimeOf(p, ms, satp);
            (g.Bare? <==> p.M? || Mode(satp) == 0) &&
            (g.Paged? ==> g.levels == Mode(satp) - 8 + 3 && g.root == satp % 0x1000_0000_0000 * 4096)
  {
  }

  lemma Untranslated(ranges: seq<Range>, m: Ram, g: Regime, v: nat, access: Access)
    ensures g.Bare? ==> Translate(ranges, m, g, v, access) == Some(v) && AfterWalk(ranges, m, g, v, access) == m
    ensures g.Paged? && LeafOf(ranges, m, g, v).NoLeaf? ==>
              Translate(ranges, m, g, v, access) == None && AfterWalk(ranges, m, g, v, access) == m
  {
  }

  lemma WalkAccounted(m: Ram, m': Ram, shown: Ram, stored: set<Loc>, marked: set<Loc>)
    requires Accounted(m, shown, stored, marked)
    ensures Accounted(m', shown, stored, marked + Changed(m, m'))
  {
  }

  lemma FillOk(ranges: seq<Range>, h: seq<Ram>, m: Ram, w: View, tlb: seq<Entry>, access: Access, a: nat, l: Loc,
               e: Entry)
    requires WellMapped(ranges) && ProperView(w) && TlbOk(ranges, h, w, tlb, access)
    requires |h| > 0 && h[|h| - 1] == AfterWalk(ranges, m, RegimeFor(w, access), a, access)
    requires Target1(ranges, m, RegimeFor(w, access), a, access) == Some(l) &&
             e == Entry(PageBase(a), l.range, l.offset - a)
    ensures TlbOk(ranges, h, w, tlb[Index(a) := e], access)
  {
    hide IsSettled, AfterWalk, Target1, WellMapped, TlbOk;
    FilledEntry(ranges, m, RegimeFor(w, access), a, access, l, e);
    assert EntryOk(ranges, h, w, e, access);
    TlbUpdated(ranges, h, w, tlb, access, Index(a), e);
  }

  lemma TlbLengths(ranges: seq<Range>, h: seq<Ram>, w: View, tlb: seq<Entry>, access: Access)
    requires TlbOk(ranges, h, w, tlb, access)
    ensures |tlb| == 256
  {
  }

  lemma PrefixQuiet(ranges: seq<Range>, h: seq<Ram>, h': seq<Ram>, w: View)
    requires h <= h'
    ensures QuietRun(ranges, h', w) ==> QuietRun(ranges, h, w)
  {
    hide Quiet;
    forall i | QuietRun(ranges, h', w) && 0 < i < |h|
      ensures Quiet(ranges, h[i - 1], h[i], w)
    {
      assert h[i - 1] == h'[i - 1] && h[i] == h'[i];
    }
  }

  lemma HitLoad(ranges: seq<Range>, h: seq<Ram>, w: View, tlb: seq<Entry>, a: nat, n: nat)
    requires WellMapped(ranges) && ProperView(w) && QuietRun(ranges, h, w) && |h| > 0 && IsSize(n)
    requires TlbOk(ranges, h, w, tlb, Read) && Hits(tlb[Index(a)], a, n)
    ensures var m := h[|h| - 1]; LoadAny(ranges, m, w.data, a, n) == (Value(Load(m, Pointer(tlb[Index(a)], a), n)), m)
  {
    hide Translate, AfterWalk, Locate, TlbOk, QuietRun, WellMapped, ProperView, Load;
    HitSettled(ranges, h, w, tlb, Read, a, n);
  }

  lemma DirtierStill(dirty: seq<DirtyBits>, dirty': seq<DirtyBits>, tlb: seq<Entry>, stored: set<Loc>, j: nat, e: Entry)
    requires Dirtier(dirty, dirty') && WritersDirty(dirty, tlb) && AllDirty(dirty, stored)
    requires j < |tlb| && IsDirty(dirty', Pointer(e, e.vaddr))
    ensures WritersDirty(dirty', tlb[j := e]) && AllDirty(dirty', stored)
  {
    hide IsDirty;
  }

  /** An aligned access, and the start of its page, lie on one page of the range. */
  lemma WrittenPage(ranges: seq<Range>, p: nat, a: nat, n: nat, l: Loc)
    requires WellMapped(ranges) && Locate(ranges, p) == Some(l) && p % 4096 == a % 4096 && IsSize(n) && a % n == 0
    ensures (l.offset + PageBase(a) - a) / 4096 == l.offset / 4096
    ensures forall x: Loc :: x in Bytes(l, n) ==> x.range == l.range && x.offset / 4096 == l.offset / 4096
  {
    hide WellMapped, Locate;
    LocatePage(ranges, p, p);
    OnePage(l, a, n);
  }

  lemma OnePage(l: Loc, a: nat, n: nat)
    requires IsSize(n) && a % n == 0 && l.offset >= 0 && l.offset % 4096 == a % 4096
    ensures (l.offset + PageBase(a) - a) / 4096 == l.offset / 4096
    ensures forall x: Loc :: x in Bytes(l, n) ==> x.range == l.range && x.offset / 4096 == l.offset / 4096
  {
    var o, b := l.offset, l.offset % 4096;
    Sticky.DivModUnique(o - b, 4096, o / 4096, 0);
    AlignedFits(a, n);
    forall x: Loc | x in Bytes(l, n)
      ensures x.range == l.range && x.offset / 4096 == l.offset / 4096
    {
      Sticky.DivModUnique(x.offset, 4096, o / 4096, b + (x.offset - o));
    }
  }

  lemma Located(ranges: seq<Range>, p: nat)
    ensures Locate(ranges, p).Some? ==>
              var l := Locate(ranges, p).value;
              0 <= l.range < |ranges| && ranges[l.range].isRam && 0 <= l.offset < ranges[l.range].size
  {
  }

  /** A hit writes to the page of a live write entry, so the page is dirty already. */
  lemma HitDirty(ranges: seq<Range>, h: seq<Ram>, w: View, tlb: seq<Entry>, dirty: seq<DirtyBits>, a: nat, n: nat)
    requires WellMapped(ranges) && ProperView(w) && IsSize(n) && TlbOk(ranges, h, w, tlb, Write) &&
             WritersDirty(dirty, tlb)
    requires Hits(tlb[Index(a)], a, n)
    ensures forall x: Loc :: x in Bytes(Pointer(tlb[Index(a)], a), n) ==> IsDirty(dirty, x)
  {
    hide IsSettled, WellMapped, ProperView, Bytes;
    var e := tlb[Index(a)];
    HitAligned(e, a, n);
    var i :| 0 <= i < |h| && IsSettled(ranges, h[i], w.data, e.vaddr, Write, Pointer(e, e.vaddr));
    ViewRegime(w, Write);
    SettledAligned(ranges, h[i], w.data, e.vaddr, Write, Pointer(e, e.vaddr));
    PointerPage(e, a);
    OnePage(Pointer(e, a), a, n);
  }

  lemma SettledAligned(ranges: seq<Range>, m: Ram, g: Regime, v: nat, access: Access, l: Loc)
    requires WellMapped(ranges) && Proper(g) && IsSettled(ranges, m, g, v, access, l)
    ensures l.offset >= 0 && l.offset % 4096 == v % 4096
  {
    hide Translate, AfterWalk, Locate, Proper;
    TranslatePage(ranges, m, g, v, v, access);
    LocatePage(ranges, Translate(ranges, m, g, v, access).value, Translate(ranges, m, g, v, access).value);
  }

  lemma PointerPage(e: Entry, a: nat)
    requires e.vaddr == PageBase(a) && Pointer(e, e.vaddr).offset >= 0 && Pointer(e, e.vaddr).offset % 4096 == 0
    ensures Pointer(e, a).offset >= 0 && Pointer(e, a).offset % 4096 == a % 4096
    ensures Pointer(e, a).offset / 4096 == Pointer(e, e.vaddr).offset / 4096
  {
    var o := Pointer(e, e.vaddr).offset;
    Sticky.DivModUnique(o + a % 4096, 4096, o / 4096, a % 4096);
  }

  lemma HitStore(ranges: seq<Range>, h: seq<Ram>, w: View, tlb: seq<Entry>, a: nat, v: nat, n: nat)
    requires WellMapped(ranges) && ProperView(w) && QuietRun(ranges, h, w) && |h| > 0 && IsSize(n) && a < TWO_64
    requires TlbOk(ranges, h, w, tlb, Write) && Hits(tlb[Index(a)], a, n)
    ensures var m, l := h[|h| - 1], Pointer(tlb[Index(a)], a);
            StoreAny(ranges, m, w.data, a, v, n) == (Done, Store(m, l, v, n)) &&
            WrittenBy(ranges, m, w.data, a, n) == Bytes(l, n) && Reach(ranges, m, w.data, a, n) == n
  {
    hide Translate, AfterWalk, Locate, TlbOk, QuietRun, WellMapped, ProperView, Store, StoreBytes, WrittenBy, Reach,
      Bytes;
    HitSettled(ranges, h, w, tlb, Write, a, n);
    ViewRegime(w, Write);
    WrittenAligned(ranges, h[|h| - 1], w.data, a, n);
  }

  lemma WindowBits(ms: bv64, val: bv64)
    ensures MstatusAfter(ms, (ms & !SSTATUS_MASK) | (val & SSTATUS_MASK)) & !SSTATUS_MASK & !SXL ==
            ms & !SSTATUS_MASK & !SXL
  {
  }

  lemma SatpFields(mode: nat, ppn: nat)
    requires mode < 16 && ppn < 0x1000_0000_0000
    ensures var satp := ppn + mode * 0x1000_0000_0000_0000;
            Mode(satp) == mode && satp % 0x1000_0000_0000 == ppn && satp < TWO_64
  {
    var satp := ppn + mode * 0x1000_0000_0000_0000;
    Sticky.DivModUnique(satp, 0x1000_0000_0000_0000, mode, ppn);
    Sticky.DivModUnique(satp, 0x1000_0000_0000, 0x1_0000 * mode, ppn);
  }

  datatype FetchResult = Insn(v: nat) | FetchPageFault(tval: nat) | FetchFault(tval: nat)

  /** Code is fetched from RAM only. */
  ghost function Fetch(ranges: seq<Range>, m: Ram, g: Regime, a: nat): (r: (FetchResult, Ram))
  {
    var p, m1 := Translate(ranges, m, g, a, Code), AfterWalk(ranges, m, g, a, Code);
    if p.None? then (FetchPageFault(a), m1)
    else
      var l := Locate(ranges, p.value);
      (if l.None? then FetchFault(a) else Insn(Load(m1, l.value, 2)), m1)
  }

  lemma TlbDropped(ranges: seq<Range>, h: seq<Ram>, w: View, tlb: seq<Entry>, tlb': seq<Entry>, access: Access,
                   dirty: seq<DirtyBits>)
    requires TlbOk(ranges, h, w, tlb, access) && |tlb'| == 256 && WritersDirty(dirty, tlb)
    requires forall j :: 0 <= j < 256 ==> tlb'[j] == tlb[j] || tlb'[j] == tlb[j].(vaddr := NO_PAGE)
    ensures TlbOk(ranges, h, w, tlb', access) && WritersDirty(dirty, tlb')
  {
    hide IsSettled, IsDirty;
  }

  method AnySet(bits: seq<bool>) returns (any: bool)
    ensures any <==> exists p :: 0 <= p < |bits| && bits[p]
  {
    var i := 0;
    while i < |bits|
      invariant i <= |bits|
      invariant forall p :: 0 <= p < i ==> !bits[p]
    {
      if bits[i] {
        return true;
      }
      i := i + 1;
    }
    return false;
  }

  /** No write entry points into a range all of whose pages are clean, nor into one just flushed. */
  ghost predicate NoWriters(tlb: seq<Entry>, r: int)
  {
    forall j :: 0 <= j < |tlb| && tlb[j].vaddr != NO_PAGE ==> tlb[j].range != r
  }

  lemma NoneAfterFlush(ranges: seq<Range>, h: seq<Ram>, w: View, tlb: seq<Entry>, r: nat)
    requires WellMapped(ranges) && TlbOk(ranges, h, w, tlb, Write) && r < |ranges|
    requires ranges[r].size == 0 || forall j :: 0 <= j < |tlb| && tlb[j].vaddr != NO_PAGE ==>
               !Inside(Pointer(tlb[j], tlb[j].vaddr), Loc(r, 0), ranges[r].size)
    ensures NoWriters(tlb, r)
  {
    hide IsSettled, WellMapped;
    forall j | 0 <= j < |tlb| && tlb[j].vaddr != NO_PAGE
      ensures tlb[j].range != r
    {
      var e := tlb[j];
      assert EntryOk(ranges, h, w, e, Write);
      var i :| 0 <= i < |h| && IsSettled(ranges, h[i], RegimeFor(w, Write), e.vaddr, Write, Pointer(e, e.vaddr));
      SettledInside(ranges, h[i], RegimeFor(w, Write), e.vaddr, Write, Pointer(e, e.vaddr));
    }
  }

  lemma SettledInside(ranges: seq<Range>, m: Ram, g: Regime, v: nat, access: Access, l: Loc)
    requires IsSettled(ranges, m, g, v, access, l)
    ensures 0 <= l.range < |ranges| && 0 <= l.offset < ranges[l.range].size
  {
    hide Translate, AfterWalk;
    Located(ranges, Translate(ranges, m, g, v, access).value);
  }

  lemma NoneWhenClean(ranges: seq<Range>, dirty: seq<DirtyBits>, tlb: seq<Entry>, r: nat)
    requires DirtyOk(ranges, dirty) && WritersDirty(dirty, tlb) && r < |ranges| && dirty[r].On?
    requires forall p :: 0 <= p < |Current(dirty[r])| ==> !Current(dirty[r])[p]
    ensures NoWriters(tlb, r)
  {
    forall j | 0 <= j < |tlb| && tlb[j].vaddr != NO_PAGE
      ensures tlb[j].range != r
    {
      assert IsDirty(dirty, Pointer(tlb[j], tlb[j].vaddr));
    }
  }

  lemma SwapKeeps(ranges: seq<Range>, dirty: seq<DirtyBits>, tlb: seq<Entry>, r: nat)
    requires DirtyOk(ranges, dirty) && WritersDirty(dirty, tlb) && r < |ranges| && dirty[r].On? && NoWriters(tlb, r)
    ensures var dirty' := dirty[r := Swapped(dirty[r])];
            DirtyOk(ranges, dirty') && WritersDirty(dirty', tlb) &&
            (forall x: Loc :: x.range != r ==> (IsDirty(dirty', x) <==> IsDirty(dirty, x))) &&
            forall p :: 0 <= p < |Current(dirty'[r])| ==> !Current(dirty'[r])[p]
  {
    hide TableSize;
    var dirty' := dirty[r := Swapped(dirty[r])];
    assert Current(dirty'[r]) == seq(TableSize(ranges[r].size), i => false);
    assert forall x: Loc :: x.range != r ==> (IsDirty(dirty', x) <==> IsDirty(dirty, x));
    hide IsDirty;
  }

  /** What the display has seen once range `r` is collected. */
  ghost function Showing(ram: Ram, shown: Ram, r: int): Ram
  {
    map x | x in ram.Keys + shown.Keys :: if x.range == r then ByteAt(ram, x) else ByteAt(shown, x)
  }

  lemma ShownAfter(ram: Ram, shown: Ram, stored: set<Loc>, marked: set<Loc>, r: int)
    requires Accounted(ram, shown, stored, marked)
    ensures Accounted(ram, Showing(ram, shown, r), Outside(stored, r), Outside(marked, r))
  {
  }

  function Outside(s: set<Loc>, r: int): set<Loc> { set x | x in s && x.range != r }

  /** Every stored byte of the range, and every byte that differs from what was shown last other than by a
      walk's own write, is on a page whose bit is set. */
  ghost predicate Reported(bits: seq<bool>, r: int, ram: Ram, shown: Ram, stored: set<Loc>, marked: set<Loc>)
  {
    forall x: Loc :: x.range == r && (x in stored || (ByteAt(ram, x) != ByteAt(shown, x) && x !in marked)) ==>
      0 <= x.offset / 4096 < |bits| && bits[x.offset / 4096]
  }

  lemma ReportedIs(ranges: seq<Range>, dirty: seq<DirtyBits>, r: nat, ram: Ram, shown: Ram, stored: set<Loc>,
                   marked: set<Loc>)
    requires DirtyOk(ranges, dirty) && r < |ranges| && dirty[r].On?
    requires AllDirty(dirty, stored) && Accounted(ram, shown, stored, marked)
    ensures Reported(Current(dirty[r]), r, ram, shown, stored, marked)
  {
    forall x: Loc | x.range == r && (x in stored || (ByteAt(ram, x) != ByteAt(shown, x) && x !in marked))
      ensures 0 <= x.offset / 4096 < |Current(dirty[r])| && Current(dirty[r])[x.offset / 4096]
    {
      assert IsDirty(dirty, x);
    }
  }

  lemma OutsideDirty(dirty: seq<DirtyBits>, dirty': seq<DirtyBits>, stored: set<Loc>, r: int)
    requires AllDirty(dirty, stored) && forall x: Loc :: x.range != r ==> (IsDirty(dirty', x) <==> IsDirty(dirty, x))
    ensures AllDirty(dirty', Outside(stored, r))
  {
    hide IsDirty;
  }

  lemma BitsTouched(dirty: seq<DirtyBits>, stored: set<Loc>, r: nat)
    requires OnlyTouched(dirty, stored) && r < |dirty| && dirty[r].On? && dirty[r].index < |dirty[r].tab|
    ensures forall p :: 0 <= p < |Current(dirty[r])| && Current(dirty[r])[p] ==> Touched(stored, r, p)
  {
    hide Touched;
    assert forall p: nat :: p < |Current(dirty[r])| && Current(dirty[r])[p] ==> IsMarked(dirty, r, p);
  }

  lemma OutsideTouched(dirty: seq<DirtyBits>, dirty': seq<DirtyBits>, stored: set<Loc>, r: nat)
    requires OnlyTouched(dirty, stored) && |dirty| == |dirty'|
    requires forall q :: 0 <= q < |dirty| && q != r ==> dirty'[q] == dirty[q]
    requires forall p: nat :: !IsMarked(dirty', r, p)
    ensures OnlyTouched(dirty', Outside(stored, r))
  {
    forall q: nat, p: nat | IsMarked(dirty', q, p)
      ensures Touched(Outside(stored, r), q, p)
    {
      assert IsMarked(dirty, q, p);
      var x :| x in stored && x.range == q && x.offset / 4096 == p;
      assert x in Outside(stored, r);
    }
  }

  function CleanTables(r: Range): DirtyBits
  {
    if r.isRam && r.tracked then On(seq(2, t => seq(TableSize(r.size), i => false)), 0) else Off
  }
}
