/** When a translation found earlier may be used again without walking. */
module Settled {
  import opened Options
  import opened PhysMem
  import opened PageWalk
  import Sticky

  /** Data accesses and instruction fetches can differ in privilege. */
  datatype View = View(data: Regime, code: Regime)

  function RegimeFor(w: View, access: Access): Regime { if access.Code? then w.code else w.data }

  ghost predicate ProperView(w: View) { Proper(w.data) && Proper(w.code) }

  /** Walking for this access yields RAM location `l` and writes nothing. */
  ghost predicate IsSettled(ranges: seq<Range>, m: Ram, g: Regime, v: nat, access: Access, l: Loc)
  {
    var p := Translate(ranges, m, g, v, access);
    p.Some? && Locate(ranges, p.value) == Some(l) && AfterWalk(ranges, m, g, v, access) == m
  }

  lemma SettledPage(ranges: seq<Range>, m: Ram, g: Regime, v: nat, a: nat, access: Access, l: Loc)
    requires WellMapped(ranges) && Proper(g) && v / 4096 == a / 4096 && IsSettled(ranges, m, g, v, access, l)
    ensures IsSettled(ranges, m, g, a, access, Shift(l, a - v))
  {
    hide Translate, AfterWalk, Locate, Proper;
    var p := Translate(ranges, m, g, v, access).value;
    TranslatePage(ranges, m, g, v, a, access);
    var q := Translate(ranges, m, g, a, access).value;
    SamePage(v, a, p, q);
    LocatePage(ranges, p, q);
  }

  lemma SamePage(v: nat, a: nat, p: nat, q: nat)
    requires v / 4096 == a / 4096 && p % 4096 == v % 4096 && q == p - v % 4096 + a % 4096
    ensures p / 4096 == q / 4096 && q - p == a - v
  {
    Sticky.DivModUnique(q, 4096, p / 4096, a % 4096);
  }

  // ---- changes that keep a settled access settled ----

  /** Byte `x` is part of a word the walk reads. */
  ghost predicate Reads(ranges: seq<Range>, m: Ram, table: nat, v: nat, k: nat, x: Loc)
    decreases k
  {
    var l, pte := Locate(ranges, Slot(table, v, k)), Read64(ranges, m, Slot(table, v, k));
    (l.Some? && Inside(x, l.value, 8)) ||
    (Present(pte) && Xwr(pte) == 0 && k > 0 && Reads(ranges, m, Target(pte), v, k - 1, x))
  }

  /** Translating `v` under `g` reads byte `x`. */
  ghost predicate WalkReads(ranges: seq<Range>, m: Ram, g: Regime, v: nat, x: Loc)
  {
    g.Paged? && g.levels > 0 && Reads(ranges, m, g.root, v, g.levels - 1, x)
  }

  /** From `m` to `m'`, no word changed that some walk under `g` reads. */
  ghost predicate TablesKept(ranges: seq<Range>, m: Ram, m': Ram, g: Regime)
  {
    forall v: nat, x: Loc :: WalkReads(ranges, m, g, v, x) ==> ByteAt(m, x) == ByteAt(m', x)
  }

  lemma {:induction false} SameWalk(ranges: seq<Range>, m: Ram, m': Ram, table: nat, v: nat, k: nat)
    requires forall x: Loc :: Reads(ranges, m, table, v, k, x) ==> ByteAt(m, x) == ByteAt(m', x)
    ensures Walk(ranges, m, table, v, k) == Walk(ranges, m', table, v, k)
    decreases k
  {
    hide Locate, Present, Xwr, Target, Slot, Load;
    var at := Slot(table, v, k);
    var l, pte := Locate(ranges, at), Read64(ranges, m, at);
    if l.Some? {
      forall x | Inside(x, l.value, 8)
        ensures ByteAt(m, x) == ByteAt(m', x)
      {
        assert Reads(ranges, m, table, v, k, x);
      }
      LoadSame(m, m', l.value, 8);
    }
    if Present(pte) && Xwr(pte) == 0 && k > 0 {
      forall x: Loc | Reads(ranges, m, Target(pte), v, k - 1, x)
        ensures ByteAt(m, x) == ByteAt(m', x)
      {
        assert Reads(ranges, m, table, v, k, x);
      }
      SameWalk(ranges, m, m', Target(pte), v, k - 1);
    }
  }

  lemma KeptTables(ranges: seq<Range>, m: Ram, m': Ram, g: Regime, v: nat, access: Access)
    requires WellMapped(ranges) && Proper(g) && TablesKept(ranges, m, m', g)
    ensures Translate(ranges, m', g, v, access) == Translate(ranges, m, g, v, access)
    ensures AfterWalk(ranges, m, g, v, access) == m ==> AfterWalk(ranges, m', g, v, access) == m'
  {
    hide Walk, Reads, Read64, Write64, Locate, Permits, Updated, Proper, Canonical, Target, Span, Present, Xwr,
      WellMapped;
    ProperRoot(g);
    if g.Paged? {
      forall x: Loc | Reads(ranges, m, g.root, v, g.levels - 1, x)
        ensures ByteAt(m, x) == ByteAt(m', x)
      {
        assert WalkReads(ranges, m, g, v, x);
      }
      SameWalk(ranges, m, m', g.root, v, g.levels - 1);
      var leaf := LeafOf(ranges, m, g, v);
      if leaf.Leaf? && Permits(g, access, leaf.pte) && AfterWalk(ranges, m, g, v, access) == m {
        LeafFacts(ranges, m, g.root, v, g.levels - 1);
        NoWriteNeeded(ranges, m, leaf, access);
      }
    }
  }

  /** A step is quiet if it only sets accessed and dirty bits by a walk, or changes no table word in use. */
  ghost predicate Quiet(ranges: seq<Range>, m: Ram, m': Ram, w: View)
  {
    (exists g, v: nat, access :: Proper(g) && m' == AfterWalk(ranges, m, g, v, access)) ||
    (TablesKept(ranges, m, m', w.data) && TablesKept(ranges, m, m', w.code))
  }

  lemma QuietStep(ranges: seq<Range>, m: Ram, m': Ram, w: View, v: nat, access: Access)
    requires WellMapped(ranges) && ProperView(w) && Quiet(ranges, m, m', w)
    ensures var g := RegimeFor(w, access);
            Translate(ranges, m', g, v, access) == Translate(ranges, m, g, v, access) &&
            (AfterWalk(ranges, m, g, v, access) == m ==> AfterWalk(ranges, m', g, v, access) == m')
  {
    hide Translate, AfterWalk, TablesKept, Proper;
    var g := RegimeFor(w, access);
    if exists g1, v1: nat, access1 :: Proper(g1) && m' == AfterWalk(ranges, m, g1, v1, access1) {
      var g1, v1: nat, access1 :| Proper(g1) && m' == AfterWalk(ranges, m, g1, v1, access1);
      WalkKeepsTranslations(ranges, m, g1, v1, access1, g, v, access);
    } else {
      KeptTables(ranges, m, m', g, v, access);
    }
  }

  /** The contents of RAM at successive moments, changing quietly throughout. */
  ghost predicate QuietRun(ranges: seq<Range>, h: seq<Ram>, w: View)
  {
    forall i :: 0 < i < |h| ==> Quiet(ranges, h[i - 1], h[i], w)
  }

  /** A settled access stays settled through a quiet run. */
  lemma {:induction false} SettledLasts(ranges: seq<Range>, h: seq<Ram>, w: View, i: nat, j: nat, v: nat,
                                        access: Access, l: Loc)
    requires WellMapped(ranges) && ProperView(w) && QuietRun(ranges, h, w) && i <= j < |h|
    requires IsSettled(ranges, h[i], RegimeFor(w, access), v, access, l)
    ensures IsSettled(ranges, h[j], RegimeFor(w, access), v, access, l)
    decreases j
  {
    hide Translate, AfterWalk, Locate, Quiet, ProperView;
    if i < j {
      SettledLasts(ranges, h, w, i, j - 1, v, access, l);
      QuietStep(ranges, h[j - 1], h[j], w, v, access);
    }
  }
}
