/** The control registers that decide how addresses are translated: privilege, mstatus and satp, and the
    rule by which each change to them flushes cached translations. */
module Control {
  import opened PhysMem
  import opened PageWalk
  import opened Settled

  const MIE: bv64 := 0x8
  const SIE: bv64 := 0x2
  const SPIE: bv64 := 0x20
  const MPIE: bv64 := 0x80
  const SPP: bv64 := 0x100
  const MPP: bv64 := 0x1800
  const MPRV: bv64 := 0x2_0000
  const SUM: bv64 := 0x4_0000
  const MXR: bv64 := 0x8_0000
  const UXL: bv64 := 0x3_0000_0000
  const SXL: bv64 := 0xC_0000_0000
  /** Bits a write to mstatus may change, apart from FS, UXL and SXL. */
  const MSTATUS_MASK: bv64 := 0xE_19BB
  const SSTATUS_MASK: bv64 := 0x3_000D_E133

  datatype Ctl = Ctl(priv: Priv, mstatus: bv64, satp: nat)

  function PrivBits(p: Priv): bv64 { match p case U => 0 case S => 1 case H => 2 case M => 3 }

  function PrivOf(b: bv64): Priv { if b == 0 then U else if b == 1 then S else if b == 2 then H else M }

  function PreviousPriv(ms: bv64): Priv { PrivOf((ms >> 11) & 3) }

  function Mode(satp: nat): nat { satp / 0x1000_0000_0000_0000 }

  predicate ProperSatp(satp: nat) { satp < TWO_64 && (Mode(satp) == 0 || Mode(satp) == 8 || Mode(satp) == 9) }

  function RegimeOf(p: Priv, ms: bv64, satp: nat): (g: Regime)
    ensures ProperSatp(satp) ==> Proper(g)
  {
    if p.M? || Mode(satp) == 0 then Bare
    else Paged(p, ms & SUM != 0, ms & MXR != 0, if Mode(satp) == 8 then 3 else 4, satp % 0x1000_0000_0000 * 4096)
  }

  /** Loads and stores use the previous privilege while MPRV is set; fetches never do. */
  function DataPriv(c: Ctl): Priv { if c.mstatus & MPRV != 0 then PreviousPriv(c.mstatus) else c.priv }

  function ViewOf(c: Ctl): View
  {
    View(RegimeOf(DataPriv(c), c.mstatus, c.satp), RegimeOf(c.priv, c.mstatus, c.satp))
  }

  lemma ViewProper(c: Ctl)
    requires ProperSatp(c.satp)
    ensures ProperView(ViewOf(c))
  {
  }

  // ---- mstatus writes ----

  /** The test made before an mstatus write. */
  predicate Flushes(ms: bv64, val: bv64)
  {
    var mod := ms ^ val;
    mod & (MPRV | SUM | MXR) != 0 || (ms & MPRV != 0 && mod & MPP != 0)
  }

  function MstatusAfter(ms: bv64, val: bv64): bv64
  {
    var xl := (val >> 32) & 3;
    var mask := if 1 <= xl <= 2 then MSTATUS_MASK | UXL | SXL else MSTATUS_MASK;
    (ms & !mask) | (val & mask)
  }

  /** A write that flushes nothing changes no translation. */
  lemma UnflushedWrite(c: Ctl, val: bv64)
    requires !Flushes(c.mstatus, val)
    ensures ViewOf(c.(mstatus := MstatusAfter(c.mstatus, val))) == ViewOf(c)
  {
    var ms := MstatusAfter(c.mstatus, val);
    assert ms & MPRV == c.mstatus & MPRV;
    assert ms & SUM == c.mstatus & SUM;
    assert ms & MXR == c.mstatus & MXR;
    assert c.mstatus & MPRV != 0 ==> ms & MPP == c.mstatus & MPP;
    assert c.mstatus & MPRV != 0 ==> (ms >> 11) & 3 == (c.mstatus >> 11) & 3;
  }

  // ---- traps and returns ----

  function TrapMstatus(ms: bv64, p: Priv, deleg: bool): bv64
  {
    var ie := (ms >> PrivBits(p)) & 1;
    if deleg then ((((ms & !SPIE) | (ie << 5)) & !SPP) | (PrivBits(p) << 8)) & !SIE
    else ((((ms & !MPIE) | (ie << 7)) & !MPP) | (PrivBits(p) << 11)) & !MIE
  }

  /** Only traps from S or U can be delegated. */
  function AfterTrap(c: Ctl, deleg: bool): Ctl
    requires deleg ==> c.priv.U? || c.priv.S?
  {
    Ctl(if deleg then S else M, TrapMstatus(c.mstatus, c.priv, deleg), c.satp)
  }

  function AfterSret(c: Ctl): Ctl
  {
    var spp, spie := (c.mstatus >> 8) & 1, (c.mstatus >> 5) & 1;
    var ms := (c.mstatus & !(1 << spp)) | (spie << spp);
    Ctl(PrivOf(spp), (ms | SPIE) & !SPP, c.satp)
  }

  function AfterMret(c: Ctl): Ctl
  {
    var mpp, mpie := (c.mstatus >> 11) & 3, (c.mstatus >> 7) & 1;
    var ms := (c.mstatus & !(1 << mpp)) | (mpie << mpp);
    Ctl(PrivOf(mpp), (ms | MPIE) & !MPP, c.satp)
  }

  /** Translations change although the privilege, and hence the cache, is kept. */
  predicate Unnoticed(c: Ctl, c': Ctl) { c.priv == c'.priv && ViewOf(c) != ViewOf(c') }

  lemma TrapMstatusBits(ms: bv64, p: Priv, deleg: bool)
    ensures var ms' := TrapMstatus(ms, p, deleg);
            ms' & MPRV == ms & MPRV && ms' & SUM == ms & SUM && ms' & MXR == ms & MXR &&
            (ms' >> 11) & 3 == if deleg then (ms >> 11) & 3 else PrivBits(p)
  {
    var ie := (ms >> PrivBits(p)) & 1;
    assert ie == 0 || ie == 1;
  }

  /** A trap goes unnoticed exactly if it is taken in M-mode while data accesses use the tables of a lower mode. */
  lemma TrapUnnoticed(c: Ctl, deleg: bool)
    requires deleg ==> c.priv.U? || c.priv.S?
    ensures Unnoticed(c, AfterTrap(c, deleg)) <==>
            c.priv.M? && c.mstatus & MPRV != 0 && !PreviousPriv(c.mstatus).M? && Mode(c.satp) != 0
  {
    TrapMstatusBits(c.mstatus, c.priv, deleg);
    hide TrapMstatus;
  }

  lemma MretBits(ms: bv64, b: bv64, e: bv64)
    requires b <= 3 && e <= 1
    ensures var ms' := (((ms & !(1 << b)) | (e << b)) | MPIE) & !MPP;
            ms' & MPRV == ms & MPRV && ms' & SUM == ms & SUM && ms' & MXR == ms & MXR && (ms' >> 11) & 3 == 0
  {
  }

  /** MRET goes unnoticed exactly if it returns to M-mode with MPRV and translation on. */
  lemma MretUnnoticed(c: Ctl)
    requires c.priv.M?
    ensures Unnoticed(c, AfterMret(c)) <==>
            PreviousPriv(c.mstatus).M? && c.mstatus & MPRV != 0 && Mode(c.satp) != 0
  {
    MretBits(c.mstatus, (c.mstatus >> 11) & 3, (c.mstatus >> 7) & 1);
  }

  lemma SretBits(ms: bv64, b: bv64, e: bv64)
    requires b <= 1 && e <= 1
    ensures var ms' := (((ms & !(1 << b)) | (e << b)) | SPIE) & !SPP;
            ms' & MPRV == ms & MPRV && ms' & SUM == ms & SUM && ms' & MXR == ms & MXR &&
              (ms' >> 11) & 3 == (ms >> 11) & 3
  {
  }

  lemma SretNoticed(c: Ctl)
    ensures !Unnoticed(c, AfterSret(c))
  {
    SretBits(c.mstatus, (c.mstatus >> 8) & 1, (c.mstatus >> 5) & 1);
  }

  // ---- a trap and its return ----

  /** A trap to S and the SRET that ends it: the privilege and its interrupt enable are what they were. SPIE is set and
      SPP clear; interrupts of S are off in between, and stay off after a trap from U; no other bit changes. */
  lemma TrapThenSret(c: Ctl)
    requires c.priv.U? || c.priv.S?
    ensures AfterTrap(c, true).priv == S && AfterTrap(c, true).mstatus & 0x2 == 0
    ensures c.priv == S ==>
              AfterSret(AfterTrap(c, true)) == Ctl(S, (c.mstatus & 0xFFFF_FFFF_FFFF_FEDF) | 0x20, c.satp)
    ensures c.priv == U ==>
              AfterSret(AfterTrap(c, true)) == Ctl(U, (c.mstatus & 0xFFFF_FFFF_FFFF_FEDD) | 0x20, c.satp)
  {
    if c.priv.U? {
      SretToUser(c);
    } else {
      SretToSupervisor(c);
    }
  }

  lemma SretToUser(c: Ctl)
    requires c.priv == U
    ensures AfterTrap(c, true).mstatus & 0x2 == 0
    ensures AfterSret(AfterTrap(c, true)) == Ctl(U, (c.mstatus & 0xFFFF_FFFF_FFFF_FEDD) | 0x20, c.satp)
  {
    var ms, t := c.mstatus, AfterTrap(c, true).mstatus;
    assert (t >> 8) & 1 == 0 && (t >> 5) & 1 == ms & 1;
  }

  lemma SretToSupervisor(c: Ctl)
    requires c.priv == S
    ensures AfterTrap(c, true).mstatus & 0x2 == 0
    ensures AfterSret(AfterTrap(c, true)) == Ctl(S, (c.mstatus & 0xFFFF_FFFF_FFFF_FEDF) | 0x20, c.satp)
  {
    var ms, t := c.mstatus, AfterTrap(c, true).mstatus;
    assert (t >> 8) & 1 == 1 && (t >> 5) & 1 == (ms >> 1) & 1;
  }

  /** The same for a trap to M and MRET. */
  lemma TrapThenMret(c: Ctl)
    ensures AfterTrap(c, false).priv == M && AfterTrap(c, false).mstatus & 0x8 == 0
    ensures c.priv == M ==>
              AfterMret(AfterTrap(c, false)) == Ctl(M, (c.mstatus & 0xFFFF_FFFF_FFFF_E77F) | 0x80, c.satp)
    ensures c.priv != M ==>
              AfterMret(AfterTrap(c, false)) == Ctl(c.priv, (c.mstatus & 0xFFFF_FFFF_FFFF_E777) | 0x80, c.satp)
  {
    hide TrapMstatus, AfterMret;
    if c.priv.M? {
      MretToMachine(c);
    } else if c.priv.U? {
      MretToUser(c);
    } else if c.priv.S? {
      MretToSupervisor(c);
    } else {
      MretToHypervisor(c);
    }
  }

  lemma MretToUser(c: Ctl)
    requires c.priv == U
    ensures AfterTrap(c, false).mstatus & 0x8 == 0
    ensures AfterMret(AfterTrap(c, false)) == Ctl(U, (c.mstatus & 0xFFFF_FFFF_FFFF_E777) | 0x80, c.satp)
  {
    var ms, t := c.mstatus, AfterTrap(c, false).mstatus;
    assert (t >> 11) & 3 == 0 && (t >> 7) & 1 == (ms >> 0) & 1;
  }

  lemma MretToSupervisor(c: Ctl)
    requires c.priv == S
    ensures AfterTrap(c, false).mstatus & 0x8 == 0
    ensures AfterMret(AfterTrap(c, false)) == Ctl(S, (c.mstatus & 0xFFFF_FFFF_FFFF_E777) | 0x80, c.satp)
  {
    var ms, t := c.mstatus, AfterTrap(c, false).mstatus;
    assert (t >> 11) & 3 == 1 && (t >> 7) & 1 == (ms >> 1) & 1;
  }

  lemma MretToHypervisor(c: Ctl)
    requires c.priv == H
    ensures AfterTrap(c, false).mstatus & 0x8 == 0
    ensures AfterMret(AfterTrap(c, false)) == Ctl(H, (c.mstatus & 0xFFFF_FFFF_FFFF_E777) | 0x80, c.satp)
  {
    var ms, t := c.mstatus, AfterTrap(c, false).mstatus;
    assert (t >> 11) & 3 == 2 && (t >> 7) & 1 == (ms >> 2) & 1;
  }

  lemma MretToMachine(c: Ctl)
    requires c.priv == M
    ensures AfterTrap(c, false).mstatus & 0x8 == 0
    ensures AfterMret(AfterTrap(c, false)) == Ctl(M, (c.mstatus & 0xFFFF_FFFF_FFFF_E77F) | 0x80, c.satp)
  {
    var ms, t := c.mstatus, AfterTrap(c, false).mstatus;
    assert (t >> 11) & 3 == 3 && (t >> 7) & 1 == (ms >> 3) & 1;
  }

  /** Who translates, by bits: fetches by the privilege, data accesses too unless bit 17 of mstatus is set, when bits
      12 and 11 say as whom; M never, and nobody in mode 0. */
  lemma ViewByBits(c: Ctl)
    requires ProperSatp(c.satp)
    ensures var v := ViewOf(c);
            (c.priv == M ==> v.code == Bare) && (c.mstatus & 0x2_0000 == 0 ==> v.data == v.code) &&
            (c.mstatus & 0x2_0000 != 0 && c.mstatus & 0x1800 == 0x1800 ==> v.data == Bare) &&
            (c.mstatus & 0x2_0000 != 0 && c.mstatus & 0x1800 == 0x800 ==> v.data == ViewOf(c.(priv := S)).code) &&
            (c.mstatus & 0x2_0000 != 0 && c.mstatus & 0x1800 == 0 ==> v.data == ViewOf(c.(priv := U)).code)
    ensures var g := ViewOf(c).code;
            c.priv != M ==>
              if c.satp < 0x1000_0000_0000_0000 then g == Bare
              else g.Paged? && g.priv == c.priv && g.levels == (if c.satp < 0x9000_0000_0000_0000 then 3 else 4) &&
                   g.root / 4096 == c.satp % 0x1000_0000_0000 && g.root % 4096 == 0 &&
                   g.sum == (c.mstatus & 0x4_0000 != 0) && g.mxr == (c.mstatus & 0x8_0000 != 0)
  {
    var ms := c.mstatus;
    assert ms & 0x1800 == 0x1800 ==> (ms >> 11) & 3 == 3;
    assert ms & 0x1800 == 0x800 ==> (ms >> 11) & 3 == 1;
    assert ms & 0x1800 == 0 ==> (ms >> 11) & 3 == 0;
  }
}
