/** The Sv39/Sv48 page walk (RISC-V Privileged Architecture, sections 4.3.2, 4.4 and 4.5), the accessed
    and dirty bits it writes, and what those writes leave unchanged. */
module PageWalk {
  import opened Options
  import opened PhysMem
  import Sticky

  datatype Priv = U | S | H | M

  datatype Access = Read | Write | Code

  /** How addresses of one kind of access are translated: not at all, or by the table at `root`. */
  datatype Regime = Bare | Paged(priv: Priv, sum: bool, mxr: bool, levels: nat, root: nat)

  predicate Proper(g: Regime) { g.Paged? ==> 3 <= g.levels <= 4 && g.root % 4096 == 0 && g.root < TWO_64 }

  /** Bytes of address space under one entry, `k` levels above the last. */
  function Span(k: nat): (s: nat)
    ensures s >= 4096 && s % 4096 == 0
  {
    if k == 0 then 0x1000 else if k == 1 then 0x20_0000 else if k == 2 then 0x4000_0000 else 0x80_0000_0000
  }

  /** Bits above the translated ones all equal the highest translated one. */
  predicate Canonical(v: nat, levels: nat)
  {
    var half := if levels == 3 then 0x40_0000_0000 else 0x8000_0000_0000;
    v < half || v >= TWO_64 - half
  }

  function Slot(table: nat, v: nat, k: nat): nat { table + 8 * (v / Span(k) % 512) }

  // ---- page table entries ----

  predicate Present(pte: nat) { pte % 2 == 1 }

  function Xwr(pte: nat): nat { pte / 2 % 8 }

  predicate User(pte: nat) { pte / 16 % 2 == 1 }

  predicate Accessed(pte: nat) { pte / 64 % 2 == 1 }

  predicate Dirty(pte: nat) { pte / 128 % 2 == 1 }

  /** The physical address an entry points to; the shift drops the two highest bits. */
  function Target(pte: nat): (p: nat)
    ensures p < TWO_64 && p % 4096 == 0
  {
    pte / 1024 * 4096 % 0x1_0000_0000_0000_0000
  }

  predicate Permits(g: Regime, access: Access, pte: nat)
    requires g.Paged?
  {
    var xwr := Xwr(pte);
    xwr != 2 && xwr != 6 &&
    (if g.priv.S? then User(pte) ==> g.sum else User(pte)) &&
    match access
    case Read => xwr % 2 == 1 || (g.mxr && xwr / 4 == 1)
    case Write => xwr / 2 % 2 == 1
    case Code => xwr / 4 == 1
  }

  /** The entry with the accessed bit set, and the dirty bit too on a write. */
  function Updated(pte: nat, access: Access): nat
  {
    pte + (if Accessed(pte) then 0 else 64) + (if access.Write? && !Dirty(pte) then 128 else 0)
  }

  // ---- the walk ----

  ghost function Read64(ranges: seq<Range>, m: Ram, at: nat): nat
  {
    var l := Locate(ranges, at);
    if l.Some? then Load(m, l.value, 8) else 0
  }

  ghost function Write64(ranges: seq<Range>, m: Ram, at: nat, v: nat): Ram
  {
    var l := Locate(ranges, at);
    if l.Some? then Store(m, l.value, v, 8) else m
  }

  datatype Leaf = NoLeaf | Leaf(at: nat, pte: nat, k: nat)

  ghost function Walk(ranges: seq<Range>, m: Ram, table: nat, v: nat, k: nat): Leaf
    decreases k
  {
    var at := Slot(table, v, k);
    var pte := Read64(ranges, m, at);
    if !Present(pte) then NoLeaf
    else if Xwr(pte) != 0 then Leaf(at, pte, k)
    else if k == 0 then NoLeaf
    else Walk(ranges, m, Target(pte), v, k - 1)
  }

  ghost function LeafOf(ranges: seq<Range>, m: Ram, g: Regime, v: nat): Leaf
  {
    if g.Bare? || g.levels == 0 || !Canonical(v, g.levels) then NoLeaf
    else Walk(ranges, m, g.root, v, g.levels - 1)
  }

  ghost function Translate(ranges: seq<Range>, m: Ram, g: Regime, v: nat, access: Access): Option<nat>
  {
    var leaf := LeafOf(ranges, m, g, v);
    if g.Bare? then Some(v)
    else if leaf.NoLeaf? || !Permits(g, access, leaf.pte) then None
    else
      RemAtMost(Target(leaf.pte), Span(leaf.k));
      Some(v % Span(leaf.k) + (Target(leaf.pte) - Target(leaf.pte) % Span(leaf.k)))
  }

  lemma RemAtMost(a: nat, d: nat)
    requires d > 0
    ensures 0 <= a % d <= a
  {
  }

  /** Memory after a walk: a successful one may have set bits of its leaf. */
  ghost function AfterWalk(ranges: seq<Range>, m: Ram, g: Regime, v: nat, access: Access): Ram
  {
    var leaf := LeafOf(ranges, m, g, v);
    if g.Bare? || leaf.NoLeaf? || !Permits(g, access, leaf.pte) || Updated(leaf.pte, access) == leaf.pte then m
    else Write64(ranges, m, leaf.at, Updated(leaf.pte, access))
  }

  // ---- one page, one frame ----

  /** Every span is a whole number of pages. */
  lemma SpanPages(v: nat, k: nat)
    ensures (v - v % Span(k)) % 4096 == 0
  {
    if k == 1 {
      Sticky.DivModUnique(v - v % 0x20_0000, 4096, 512 * (v / 0x20_0000), 0);
    } else if k == 2 {
      Sticky.DivModUnique(v - v % 0x4000_0000, 4096, 0x4_0000 * (v / 0x4000_0000), 0);
    } else if k > 2 {
      Sticky.DivModUnique(v - v % 0x80_0000_0000, 4096, 0x800_0000 * (v / 0x80_0000_0000), 0);
    }
  }

  /** The index and the offset of an address, from its page number and the offset in the page. */
  lemma SpanOfPage(a: nat, k: nat)
    ensures Span(k) / 4096 > 0
    ensures a / Span(k) == a / 4096 / (Span(k) / 4096)
    ensures a % Span(k) == 4096 * (a / 4096 % (Span(k) / 4096)) + a % 4096
  {
    var p := a / 4096;
    if k == 0 {
    } else if k == 1 {
      Sticky.DivModUnique(a, 0x20_0000, p / 512, 4096 * (p % 512) + a % 4096);
    } else if k == 2 {
      Sticky.DivModUnique(a, 0x4000_0000, p / 0x4_0000, 4096 * (p % 0x4_0000) + a % 4096);
    } else {
      Sticky.DivModUnique(a, 0x80_0000_0000, p / 0x800_0000, 4096 * (p % 0x800_0000) + a % 4096);
    }
  }

  lemma SameIndex(a: nat, b: nat, k: nat)
    requires a / 4096 == b / 4096
    ensures a / Span(k) == b / Span(k) && a % Span(k) - a % 4096 == b % Span(k) - b % 4096
  {
    hide Span;
    SpanOfPage(a, k);
    SpanOfPage(b, k);
  }

  lemma {:induction false} WalkPage(ranges: seq<Range>, m: Ram, table: nat, a: nat, b: nat, k: nat)
    requires a / 4096 == b / 4096
    ensures Walk(ranges, m, table, a, k) == Walk(ranges, m, table, b, k)
    decreases k
  {
    hide Present, Xwr, Target, Span, Read64;
    SameIndex(a, b, k);
    var pte := Read64(ranges, m, Slot(table, a, k));
    if k > 0 {
      WalkPage(ranges, m, Target(pte), a, b, k - 1);
    }
  }

  /** All addresses of a virtual page go to one physical page, at their own offsets. */
  lemma TranslatePage(ranges: seq<Range>, m: Ram, g: Regime, a: nat, b: nat, access: Access)
    requires Proper(g) && a / 4096 == b / 4096 && Translate(ranges, m, g, a, access).Some?
    ensures Translate(ranges, m, g, b, access) == Some(Translate(ranges, m, g, a, access).value - a % 4096 + b % 4096)
    ensures Translate(ranges, m, g, a, access).value % 4096 == a % 4096
    ensures AfterWalk(ranges, m, g, a, access) == AfterWalk(ranges, m, g, b, access)
  {
    hide Walk, Span, Permits, Updated, Target, Write64;
    if g.Paged? {
      assert Canonical(a, g.levels) == Canonical(b, g.levels);
      WalkPage(ranges, m, g.root, a, b, g.levels - 1);
      var leaf := LeafOf(ranges, m, g, a);
      SameIndex(a, b, leaf.k);
      FrameAligned(a, Target(leaf.pte), leaf.k);
    }
  }

  lemma FrameAligned(v: nat, p: nat, k: nat)
    requires p % 4096 == 0
    ensures (v % Span(k) + (p - p % Span(k))) % 4096 == v % 4096
  {
    hide Span;
    SpanPages(v, k);
    SpanPages(p, k);
    WholePages(v, v % Span(k), p - p % Span(k));
  }

  lemma WholePages(v: int, r: int, f: int)
    requires (v - r) % 4096 == 0 && f % 4096 == 0
    ensures (r + f) % 4096 == v % 4096
  {
    var x, y := (v - r) / 4096, f / 4096;
    assert r + f == v + 4096 * (y - x);
  }

  // ---- setting accessed and dirty bits ----

  /** `q` is `p`, possibly with bits 6 and 7 gained. */
  predicate Grown(p: nat, q: nat)
  {
    p % 64 == q % 64 && p / 256 == q / 256 && (Accessed(p) ==> Accessed(q)) && (Dirty(p) ==> Dirty(q))
  }

  lemma Parts(p: nat)
    ensures p == p % 64 + 64 * (p / 64 % 2) + 128 * (p / 128 % 2) + 256 * (p / 256)
  {
    assert p / 128 == p / 64 / 2 && p / 256 == p / 128 / 2;
  }

  lemma PartsUnique(p: nat, low: nat, a: nat, d: nat, high: nat)
    requires p == low + 64 * a + 128 * d + 256 * high && low < 64 && a < 2 && d < 2
    ensures p % 64 == low && p / 64 % 2 == a && p / 128 % 2 == d && p / 256 == high
  {
    assert p / 64 == a + 2 * d + 4 * high;
    assert p / 128 == d + 2 * high;
  }

  /** Validity, permissions and the user bit are in the low six bits. */
  lemma LowBits(p: nat)
    ensures Present(p) == Present(p % 64) && Xwr(p) == Xwr(p % 64) && User(p) == User(p % 64)
  {
    PermissionBits(p);
    UserBit(p);
    assert p % 2 == p % 64 % 2;
  }

  lemma PermissionBits(p: nat)
    ensures p / 2 % 8 == p % 64 / 2 % 8
  {
    var t, r := p / 64, p % 64;
    Sticky.DivModUnique(p, 2, 32 * t + r / 2, r % 2);
    Sticky.DivModUnique(32 * t + r / 2, 8, 4 * t + r / 2 / 8, r / 2 % 8);
  }

  lemma UserBit(p: nat)
    ensures p / 16 % 2 == p % 64 / 16 % 2
  {
    var t, r := p / 64, p % 64;
    Sticky.DivModUnique(p, 16, 4 * t + r / 16, r % 16);
    Sticky.DivModUnique(4 * t + r / 16, 2, 2 * t + r / 16 / 2, r / 16 % 2);
  }

  lemma GrownMeaning(p: nat, q: nat, g: Regime, access: Access)
    requires Grown(p, q) && g.Paged?
    ensures Present(p) == Present(q) && Xwr(p) == Xwr(q) && Target(p) == Target(q)
    ensures Permits(g, access, p) == Permits(g, access, q)
    ensures Updated(p, access) == p ==> Updated(q, access) == q
  {
    assert Target(p) == Target(q) by {
      assert p / 1024 == p / 256 / 4 && q / 1024 == q / 256 / 4;
    }
    LowBits(p);
    LowBits(q);
    hide Present, Xwr, User, Accessed, Dirty, Target;
  }

  lemma UpdatedGrows(p: nat, access: Access)
    ensures Grown(p, Updated(p, access)) && Updated(Updated(p, access), access) == Updated(p, access)
  {
    Parts(p);
    var a := if Accessed(p) then p / 64 % 2 else 1;
    var d := if access.Write? then 1 else p / 128 % 2;
    PartsUnique(Updated(p, access), p % 64, a, d, p / 256);
  }

  lemma WordBound(ranges: seq<Range>, m: Ram, at: nat)
    ensures Read64(ranges, m, at) < TWO_64
  {
    var l := Locate(ranges, at);
    if l.Some? {
      LoadBound(m, l.value, 8);
      WordSize();
    }
  }

  /** Replacing one aligned word leaves every other aligned word alone. */
  lemma ReadAfterWrite(ranges: seq<Range>, m: Ram, at: nat, v: nat, slot: nat)
    requires WellMapped(ranges) && at % 8 == 0 && slot % 8 == 0 && Locate(ranges, at).Some? && v < TWO_64
    ensures Read64(ranges, Write64(ranges, m, at, v), slot) == if slot == at then v else Read64(ranges, m, slot)
  {
    var l, m' := Locate(ranges, at).value, Write64(ranges, m, at, v);
    if slot == at {
      WordSize();
      StoreLoad(m, l, v, 8);
    } else if Locate(ranges, slot).Some? {
      var s := Locate(ranges, slot).value;
      ApartWords(ranges, at, slot);
      forall x | Inside(x, s, 8)
        ensures ByteAt(m, x) == ByteAt(m', x)
      {
        StoreOutside(m, l, v, 8, x);
      }
      LoadSame(m, m', s, 8);
    }
  }

  lemma WordSize()
    ensures Pow256(8) == TWO_64
  {
    assert Pow256(4) == 0x1_0000_0000;
    assert Pow256(6) == 0x1_0000_0000_0000;
  }

  lemma ApartWords(ranges: seq<Range>, p: nat, q: nat)
    requires WellMapped(ranges) && p % 8 == 0 && q % 8 == 0 && p != q
    requires Locate(ranges, p).Some? && Locate(ranges, q).Some?
    ensures var l, s := Locate(ranges, p).value, Locate(ranges, q).value;
            l.range != s.range || l.offset + 8 <= s.offset || s.offset + 8 <= l.offset
  {
    var l, s := Locate(ranges, p).value, Locate(ranges, q).value;
    if l.range == s.range {
      assert l.offset - s.offset == p - q;
    }
  }

  ghost predicate LeafGrown(x: Leaf, y: Leaf)
  {
    if x.NoLeaf? then y.NoLeaf? else y.Leaf? && x.at == y.at && x.k == y.k && Grown(x.pte, y.pte)
  }

  /** Setting bits of one leaf word: no walk, from any table, takes another path or finds another frame. In
      particular no walk reads that word as a pointer to a next table. */
  lemma {:induction false} WalkAfterUpdate(ranges: seq<Range>, m: Ram, at: nat, access: Access, table: nat, v: nat,
                                           k: nat)
    requires WellMapped(ranges) && at % 8 == 0 && table % 8 == 0 && Locate(ranges, at).Some?
    requires var pte := Read64(ranges, m, at); Present(pte) && Xwr(pte) != 0
    ensures var m' := Write64(ranges, m, at, Updated(Read64(ranges, m, at), access));
            LeafGrown(Walk(ranges, m, table, v, k), Walk(ranges, m', table, v, k))
    decreases k
  {
    hide Read64, Write64, Locate, Target, Slot, Updated, Present, Xwr, Grown;
    var pte := Read64(ranges, m, at);
    SlotAligned(table, v, k);
    var m', slot := Write64(ranges, m, at, Updated(pte, access)), Slot(table, v, k);
    WordBound(ranges, m, at);
    UpdatedBound(pte, access);
    ReadAfterWrite(ranges, m, at, Updated(pte, access), slot);
    UpdatedGrows(pte, access);
    var p, q := Read64(ranges, m, slot), Read64(ranges, m', slot);
    assert Grown(p, q) by {
      GrownReflexive(p);
    }
    GrownMeaning(p, q, Paged(U, false, false, 3, 0), Read);
    if Present(p) && Xwr(p) == 0 && k > 0 {
      TargetAligned(p);
      WalkAfterUpdate(ranges, m, at, access, Target(p), v, k - 1);
    }
  }

  lemma GrownReflexive(p: nat)
    ensures Grown(p, p)
  {
  }

  lemma UpdatedBound(p: nat, access: Access)
    requires p < TWO_64
    ensures Updated(p, access) < TWO_64
  {
    var q, r := p / 256, p % 256;
    assert p == 256 * q + r && p / 64 == 4 * q + r / 64 && p / 128 == 2 * q + r / 128;
    assert q < 0x100_0000_0000_0000;
  }

  lemma SlotAligned(table: nat, v: nat, k: nat)
    requires table % 8 == 0
    ensures Slot(table, v, k) % 8 == 0
  {
  }

  lemma TargetAligned(pte: nat)
    ensures Target(pte) % 8 == 0
  {
    var p := Target(pte);
    Sticky.DivModUnique(p, 8, 512 * (p / 4096), 0);
  }

  /** The leaf a walk finds lies in RAM, is valid and is not a pointer. */
  lemma {:induction false} LeafFacts(ranges: seq<Range>, m: Ram, table: nat, v: nat, k: nat)
    requires table % 8 == 0 && Walk(ranges, m, table, v, k).Leaf?
    ensures var leaf := Walk(ranges, m, table, v, k);
            leaf.at % 8 == 0 && Locate(ranges, leaf.at).Some? && leaf.pte == Read64(ranges, m, leaf.at) &&
            Present(leaf.pte) && Xwr(leaf.pte) != 0
    decreases k
  {
    hide Locate, Target, Slot, Xwr, Load;
    var pte := Read64(ranges, m, Slot(table, v, k));
    assert !Present(0);
    hide Read64, Present;
    SlotAligned(table, v, k);
    if Xwr(pte) == 0 {
      TargetAligned(pte);
      LeafFacts(ranges, m, Target(pte), v, k - 1);
    }
  }

  /** What a walk's writes leave unchanged: every translation, of every address, for every access, under
      every regime; and an access that needed no write before needs none after. */
  lemma WalkKeepsTranslations(ranges: seq<Range>, m: Ram, g: Regime, v: nat, access: Access,
                              g2: Regime, v2: nat, access2: Access)
    requires WellMapped(ranges) && Proper(g) && Proper(g2)
    ensures var m' := AfterWalk(ranges, m, g, v, access);
            Translate(ranges, m', g2, v2, access2) == Translate(ranges, m, g2, v2, access2) &&
            (AfterWalk(ranges, m, g2, v2, access2) == m ==> AfterWalk(ranges, m', g2, v2, access2) == m')
  {
    hide Walk, Read64, Write64, Locate, Target, Span, Updated, Xwr, Permits, Grown, Present, Canonical, Proper;
    var m' := AfterWalk(ranges, m, g, v, access);
    ProperRoot(g);
    ProperRoot(g2);
    if m' != m && g2.Paged? {
      var leaf := LeafOf(ranges, m, g, v);
      LeafFacts(ranges, m, g.root, v, g.levels - 1);
      WalkAfterUpdate(ranges, m, leaf.at, access, g2.root, v2, g2.levels - 1);
      var x, y := LeafOf(ranges, m, g2, v2), LeafOf(ranges, m', g2, v2);
      if x.Leaf? {
        GrownMeaning(x.pte, y.pte, g2, access2);
        if AfterWalk(ranges, m, g2, v2, access2) == m && Permits(g2, access2, x.pte) {
          LeafFacts(ranges, m, g2.root, v2, g2.levels - 1);
          NoWriteNeeded(ranges, m, x, access2);
        }
      }
    }
  }

  lemma ProperRoot(g: Regime)
    requires Proper(g)
    ensures g.Paged? ==> g.levels > 0 && g.root % 8 == 0
  {
  }

  lemma NoWriteNeeded(ranges: seq<Range>, m: Ram, leaf: Leaf, access: Access)
    requires WellMapped(ranges) && leaf.Leaf? && leaf.at % 8 == 0 && Locate(ranges, leaf.at).Some?
    requires leaf.pte == Read64(ranges, m, leaf.at)
    requires Updated(leaf.pte, access) == leaf.pte || Write64(ranges, m, leaf.at, Updated(leaf.pte, access)) == m
    ensures Updated(leaf.pte, access) == leaf.pte
  {
    hide Read64, Write64, Locate, Updated;
    WordBound(ranges, m, leaf.at);
    UpdatedBound(leaf.pte, access);
    ReadAfterWrite(ranges, m, leaf.at, Updated(leaf.pte, access), leaf.at);
  }

  /** Walking again writes nothing. */
  lemma WalkTwice(ranges: seq<Range>, m: Ram, g: Regime, v: nat, access: Access)
    requires WellMapped(ranges) && Proper(g)
    ensures var m' := AfterWalk(ranges, m, g, v, access); AfterWalk(ranges, m', g, v, access) == m'
  {
    hide Walk, Read64, Write64, Locate, Target, Span, Updated, Xwr, Permits, Grown, Present, Canonical, Proper;
    var m' := AfterWalk(ranges, m, g, v, access);
    ProperRoot(g);
    if m' != m {
      var leaf := LeafOf(ranges, m, g, v);
      LeafFacts(ranges, m, g.root, v, g.levels - 1);
      WalkAfterUpdate(ranges, m, leaf.at, access, g.root, v, g.levels - 1);
      var y := LeafOf(ranges, m', g, v);
      LeafFacts(ranges, m', g.root, v, g.levels - 1);
      WordBound(ranges, m, leaf.at);
      UpdatedBound(leaf.pte, access);
      ReadAfterWrite(ranges, m, leaf.at, Updated(leaf.pte, access), leaf.at);
      UpdatedGrows(leaf.pte, access);
    }
  }
}
