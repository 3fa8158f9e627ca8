/** The two unnoticed control changes do break cached translations: for every control state in which one can
    happen there is a memory and a cached page that is right before it and wrong after it. */
module Stale {
  import opened Options
  import opened PhysMem
  import opened PageWalk
  import opened Settled
  import opened Control
  import Sticky

  /** One RAM range over the whole physical address space. */
  function AllRam(): (r: seq<Range>)
    ensures WellMapped(r)
  {
    [Range(0, 0x1_0000_0000_0000_0000, true, false)]
  }

  lemma AllRamLocate(p: nat)
    requires p < TWO_64
    ensures Locate(AllRam(), p) == Some(Loc(0, p))
  {
    assert InRange(AllRam()[0], p);
    assert FirstIn(AllRam(), p, 0);
  }

  /** A readable, accessed leaf for the second superpage of the top level, usable at the given privilege. */
  function SecondSuperpage(p: Priv, levels: nat): nat
  {
    (if p.S? then 0x43 else 0x53) + (if levels == 3 then 0x1000_0000 else 0x20_0000_0000)
  }

  lemma SuperpageEntry(g: Regime)
    requires Proper(g) && g.Paged?
    ensures var pte := SecondSuperpage(g.priv, g.levels);
            pte < TWO_64 && Present(pte) && Xwr(pte) == 1 && Permits(g, Read, pte) && Updated(pte, Read) == pte &&
            Target(pte) == Span(g.levels - 1)
  {
  }

  lemma SuperpageLeaf(g: Regime, m: Ram, pte: nat)
    requires Proper(g) && g.Paged? && pte == SecondSuperpage(g.priv, g.levels)
    requires m == Store(map[], Loc(0, g.root), pte, 8)
    ensures LeafOf(AllRam(), m, g, 0) == Leaf(g.root, pte, g.levels - 1)
  {
    hide Store, Load, Updated, Permits, Locate, Target, SecondSuperpage, Slot, Present, Xwr, Span, WellMapped, AllRam;
    assert Canonical(0, g.levels) && g.root < TWO_64;
    hide Proper, Canonical;
    ProperRoot(g);
    SuperpageEntry(g);
    AllRamLocate(g.root);
    assert m == Write64(AllRam(), map[], g.root, pte);
    ReadAfterWrite(AllRam(), map[], g.root, pte, g.root);
    hide Read64, Write64;
    TopSlot(g);
  }

  /** Address 0 is cached as the second superpage; untranslated, it is address 0. */
  lemma PagedThenBare(g: Regime) returns (m: Ram, l: Loc)
    requires Proper(g) && g.Paged?
    ensures IsSettled(AllRam(), m, g, 0, Read, l)
    ensures !IsSettled(AllRam(), m, Bare, 0, Read, l)
  {
    hide LeafOf, Updated, Permits, Locate, Target, SecondSuperpage, Store, Span, AllRam, Present, Xwr, Write64;
    var pte, s := SecondSuperpage(g.priv, g.levels), Span(g.levels - 1);
    m, l := Store(map[], Loc(0, g.root), pte, 8), Loc(0, s);
    SuperpageEntry(g);
    AllRamLocate(s);
    AllRamLocate(0);
    SuperpageLeaf(g, m, pte);
    Sticky.DivModUnique(s, s, 1, 0);
    Sticky.DivModUnique(0, s, 0, 0);
  }

  lemma TopSlot(g: Regime)
    requires Proper(g) && g.Paged?
    ensures Slot(g.root, 0, g.levels - 1) == g.root
  {
  }

  /** Address 0 is cached untranslated; through an empty table it is not mapped. */
  lemma BareThenPaged(g: Regime) returns (m: Ram, l: Loc)
    requires Proper(g) && g.Paged?
    ensures IsSettled(AllRam(), m, Bare, 0, Read, l)
    ensures !IsSettled(AllRam(), m, g, 0, Read, l)
  {
    AllRamLocate(0);
    AllRamLocate(g.root);
    m, l := map[], Loc(0, 0);
    TopSlot(g);
    ZeroWord(Loc(0, g.root), 8);
  }

  lemma {:induction false} ZeroWord(l: Loc, n: nat)
    ensures Load(map[], l, n) == 0
    decreases n
  {
    if n > 0 {
      ZeroWord(Shift(l, 1), n - 1);
    }
  }

  /** Whenever a trap goes unnoticed, some memory and cached page show it. */
  lemma TrapBreaks(c: Ctl, deleg: bool) returns (m: Ram, l: Loc)
    requires ProperSatp(c.satp) && (deleg ==> c.priv.U? || c.priv.S?)
    requires c.priv.M? && c.mstatus & MPRV != 0 && !PreviousPriv(c.mstatus).M? && Mode(c.satp) != 0
    ensures AfterTrap(c, deleg).priv == c.priv
    ensures IsSettled(AllRam(), m, ViewOf(c).data, 0, Read, l)
    ensures !IsSettled(AllRam(), m, ViewOf(AfterTrap(c, deleg)).data, 0, Read, l)
  {
    TrapMstatusBits(c.mstatus, c.priv, deleg);
    hide TrapMstatus, IsSettled;
    m, l := PagedThenBare(ViewOf(c).data);
  }

  lemma MretBreaks(c: Ctl) returns (m: Ram, l: Loc)
    requires ProperSatp(c.satp) && c.priv.M?
    requires PreviousPriv(c.mstatus).M? && c.mstatus & MPRV != 0 && Mode(c.satp) != 0
    ensures AfterMret(c).priv == c.priv
    ensures IsSettled(AllRam(), m, ViewOf(c).data, 0, Read, l)
    ensures !IsSettled(AllRam(), m, ViewOf(AfterMret(c)).data, 0, Read, l)
  {
    MretBits(c.mstatus, (c.mstatus >> 11) & 3, (c.mstatus >> 7) & 1);
    hide IsSettled;
    m, l := BareThenPaged(ViewOf(AfterMret(c)).data);
  }
}
