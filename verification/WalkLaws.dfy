/** The page walk in terms of the bits of the words it reads (RISC-V Privileged Architecture, sections 4.3.2, 4.4 and
    4.5): which words it reads, which accesses a leaf admits, the address it gives, and the bits it sets. */
module WalkLaws {
  import opened Options
  import opened PhysMem
  import opened PageWalk
  import Powers
  import Sticky

  /** A leaf admits an access: by the U bit and the privilege, never writable without being readable, and by the bit
      that stands for the access. */
  predicate Admits(g: Regime, access: Access, w: nat)
    requires g.Paged?
  {
    (if g.priv == S then w / 16 % 2 == 0 || g.sum else w / 16 % 2 == 1) &&
    (w / 4 % 2 == 1 ==> w / 2 % 2 == 1) &&
    (access == Read ==> w / 2 % 2 == 1 || (g.mxr && w / 8 % 2 == 1)) &&
    (access == Write ==> w / 4 % 2 == 1) &&
    (access == Code ==> w / 8 % 2 == 1)
  }

  lemma EightParts(a: nat)
    ensures a % 8 == a % 2 + 2 * (a / 2 % 2) + 4 * (a / 4 % 2)
  {
    var q, r := a / 8, a % 8;
    Sticky.DivModUnique(a, 2, 4 * q + r / 2, r % 2);
    Sticky.DivModUnique(a, 4, 2 * q + r / 4, r % 4);
    Sticky.DivModUnique(4 * q + r / 2, 2, 2 * q + r / 4, r / 2 % 2);
    Sticky.DivModUnique(2 * q + r / 4, 2, q, r / 4);
  }

  lemma ThreeBits(w: nat)
    ensures w / 2 % 8 == w / 2 % 2 + 2 * (w / 4 % 2) + 4 * (w / 8 % 2)
  {
    var a := w / 2;
    Sticky.DivModUnique(w, 4, a / 2, 2 * (a % 2) + w % 2);
    Sticky.DivModUnique(w, 8, a / 4, 2 * (a % 4) + w % 2);
    EightParts(a);
  }

  lemma PermitsAdmits(g: Regime, access: Access, w: nat)
    requires g.Paged?
    ensures Permits(g, access, w) <==> Admits(g, access, w)
  {
    ThreeBits(w);
    var r, x, e := w / 2 % 2, w / 4 % 2, w / 8 % 2;
    assert Xwr(w) == r + 2 * x + 4 * e;
    assert Xwr(w) % 2 == r && Xwr(w) / 2 % 2 == x && Xwr(w) / 4 == e;
  }

  /** The address of the entry `k` levels above the last for `v`: nine bits of the address pick it. */
  function EntryAt(table: nat, v: nat, k: nat): nat { table + 8 * (v / Powers.Pow2(12 + 9 * k) % 512) }

  /** A valid entry whose R, W and X bits are clear leads to the next table. */
  predicate PointsTo(w: nat, next: nat)
  {
    w % 2 == 1 && w / 2 % 2 == 0 && w / 4 % 2 == 0 && w / 8 % 2 == 0 &&
    next == w / 1024 * 4096 % 0x1_0000_0000_0000_0000
  }

  /** A valid entry with one of them set is a leaf. */
  predicate IsLeaf(w: nat) { w % 2 == 1 && (w / 2 % 2 == 1 || w / 4 % 2 == 1 || w / 8 % 2 == 1) }

  /** The tables a walk reads, first to last, from `top` levels above the last: the entry of each leads to the next
      table, and the entry of the last is a leaf. */
  ghost predicate IsPath(ranges: seq<Range>, m: Ram, root: nat, v: nat, top: nat, tables: seq<nat>)
  {
    0 < |tables| <= top + 1 && tables[0] == root &&
    (forall i :: 0 <= i < |tables| - 1 ==>
       PointsTo(Read64(ranges, m, EntryAt(tables[i], v, top - i)), tables[i + 1])) &&
    IsLeaf(Read64(ranges, m, LastAt(v, top, tables)))
  }

  /** Where a path ends. */
  function LastAt(v: nat, top: nat, tables: seq<nat>): nat
    requires 0 < |tables| <= top + 1
  {
    EntryAt(tables[|tables| - 1], v, top - (|tables| - 1))
  }

  lemma SpanIs(k: nat)
    requires k <= 3
    ensures Span(k) == Powers.Pow2(12 + 9 * k)
  {
    assert Powers.Pow2(12) == 0x1000;
    Powers.Pow2Add(12, 9);
    Powers.Pow2Add(21, 9);
    Powers.Pow2Add(30, 9);
    assert Powers.Pow2(9) == 512;
  }

  lemma {:induction false} WalkHasPath(ranges: seq<Range>, m: Ram, root: nat, v: nat, k: nat) returns (tables: seq<nat>)
    requires k <= 3 && Walk(ranges, m, root, v, k).Leaf?
    ensures IsPath(ranges, m, root, v, k, tables)
    decreases k
  {
    hide Read64, Locate, Load, Powers.Pow2;
    SpanIs(k);
    hide Span;
    var w := Read64(ranges, m, EntryAt(root, v, k));
    ThreeBits(w);
    if Xwr(w) != 0 {
      tables := [root];
    } else {
      var rest := WalkHasPath(ranges, m, Target(w), v, k - 1);
      PathExtends(ranges, m, root, v, k, rest);
      tables := [root] + rest;
    }
  }

  lemma PathExtends(ranges: seq<Range>, m: Ram, root: nat, v: nat, k: nat, rest: seq<nat>)
    requires k > 0 && |rest| > 0 && PointsTo(Read64(ranges, m, EntryAt(root, v, k)), rest[0])
    requires IsPath(ranges, m, rest[0], v, k - 1, rest)
    ensures IsPath(ranges, m, root, v, k, [root] + rest)
  {
    hide Read64, Locate, Load, Powers.Pow2, EntryAt, PointsTo, IsLeaf;
    var tables := [root] + rest;
    forall i | 0 <= i < |tables| - 1
      ensures PointsTo(Read64(ranges, m, EntryAt(tables[i], v, k - i)), tables[i + 1])
    {
      if i > 0 {
        assert tables[i] == rest[i - 1] && k - i == k - 1 - (i - 1);
      }
    }
    assert tables[|tables| - 1] == rest[|rest| - 1];
  }

  lemma {:induction false} PathWalks(ranges: seq<Range>, m: Ram, root: nat, v: nat, k: nat, tables: seq<nat>)
    requires k <= 3 && IsPath(ranges, m, root, v, k, tables)
    ensures var at := LastAt(v, k, tables);
            Walk(ranges, m, root, v, k) == Leaf(at, Read64(ranges, m, at), k - (|tables| - 1))
    decreases k
  {
    hide Read64, Locate, Load, Powers.Pow2;
    SpanIs(k);
    hide Span;
    var w := Read64(ranges, m, EntryAt(root, v, k));
    ThreeBits(w);
    if |tables| > 1 {
      PathTail(ranges, m, root, v, k, tables);
      PathWalks(ranges, m, tables[1], v, k - 1, tables[1..]);
    }
  }

  lemma PathTail(ranges: seq<Range>, m: Ram, root: nat, v: nat, k: nat, tables: seq<nat>)
    requires IsPath(ranges, m, root, v, k, tables) && |tables| > 1
    ensures IsPath(ranges, m, tables[1], v, k - 1, tables[1..])
    ensures LastAt(v, k - 1, tables[1..]) == LastAt(v, k, tables)
  {
    hide Read64, Locate, Load, Powers.Pow2, EntryAt, PointsTo, IsLeaf;
    var rest := tables[1..];
    forall i | 0 <= i < |rest| - 1
      ensures PointsTo(Read64(ranges, m, EntryAt(rest[i], v, k - 1 - i)), rest[i + 1])
    {
      assert rest[i] == tables[i + 1] && k - 1 - i == k - (i + 1);
    }
  }

  lemma PathShape(ranges: seq<Range>, m: Ram, root: nat, v: nat, k: nat, tables: seq<nat>)
    requires IsPath(ranges, m, root, v, k, tables)
    ensures 0 < |tables| <= k + 1
  {
  }

  /** All bits from the highest translated one up are equal. */
  predicate SignExtended(v: nat, levels: nat)
    requires levels <= 4
  {
    var high := v / Powers.Pow2(11 + 9 * levels);
    high == 0 || high == Powers.Pow2(53 - 9 * levels) - 1
  }

  lemma CanonicalIs(v: nat, levels: nat)
    requires 3 <= levels <= 4 && v < TWO_64
    ensures Canonical(v, levels) <==> SignExtended(v, levels)
  {
    WordPowers();
    hide Powers.Pow2;
    if levels == 3 {
      Sticky.DivModUnique(v, 0x40_0000_0000, v / 0x40_0000_0000, v % 0x40_0000_0000);
    } else {
      Sticky.DivModUnique(v, 0x8000_0000_0000, v / 0x8000_0000_0000, v % 0x8000_0000_0000);
    }
  }

  lemma WordPowers()
    ensures Powers.Pow2(38) == 0x40_0000_0000 && Powers.Pow2(26) == 0x400_0000
    ensures Powers.Pow2(47) == 0x8000_0000_0000 && Powers.Pow2(17) == 0x2_0000
  {
    assert Powers.Pow2(9) == 512 && Powers.Pow2(12) == 0x1000;
    Powers.Pow2Add(9, 8);
    Powers.Pow2Add(17, 9);
    Powers.Pow2Add(26, 12);
    Powers.Pow2Add(38, 9);
  }

  /** The physical address: the frame's high bits, and the address's low bits. */
  predicate Placed(v: nat, w: nat, k: nat, p: nat)
  {
    var unit, frame := Powers.Pow2(12 + 9 * k), w / 1024 * 4096 % 0x1_0000_0000_0000_0000;
    p % unit == v % unit && p / unit == frame / unit
  }

  /** A walk along a given path: what it answers, for every access, by the bits of the word at its end. */
  lemma TranslateByBits(ranges: seq<Range>, m: Ram, g: Regime, v: nat, access: Access, tables: seq<nat>)
    requires Proper(g) && g.Paged? && v < TWO_64 && IsPath(ranges, m, g.root, v, g.levels - 1, tables)
    ensures var t, w := Translate(ranges, m, g, v, access), Read64(ranges, m, LastAt(v, g.levels - 1, tables));
            (t.Some? <==> SignExtended(v, g.levels) && Admits(g, access, w)) &&
            (t.Some? ==> Placed(v, w, g.levels - |tables|, t.value))
  {
    hide Read64, Walk, IsPath, Powers.Pow2, SignExtended, Canonical, LastAt, Permits, Admits, Translate, Placed;
    PathShape(ranges, m, g.root, v, g.levels - 1, tables);
    var at := LastAt(v, g.levels - 1, tables);
    PathWalks(ranges, m, g.root, v, g.levels - 1, tables);
    CanonicalIs(v, g.levels);
    PermitsAdmits(g, access, Read64(ranges, m, at));
    TranslateAt(ranges, m, g, v, access, at, g.levels - |tables|);
  }

  lemma TranslateAt(ranges: seq<Range>, m: Ram, g: Regime, v: nat, access: Access, at: nat, k: nat)
    requires g.Paged? && g.levels > 0 && k <= 3
    requires Walk(ranges, m, g.root, v, g.levels - 1) == Leaf(at, Read64(ranges, m, at), k)
    ensures var t, w := Translate(ranges, m, g, v, access), Read64(ranges, m, at);
            (t.Some? <==> Canonical(v, g.levels) && Permits(g, access, w)) &&
            (t.Some? ==> Placed(v, w, k, t.value))
  {
    hide Read64, Walk, Powers.Pow2, Canonical, Permits;
    SpanIs(k);
    var f := Target(Read64(ranges, m, at));
    hide Span;
    Joined(v, f, Span(k));
  }

  lemma Joined(v: nat, f: nat, unit: nat)
    requires unit > 0
    ensures var p := v % unit + (f - f % unit); p % unit == v % unit && p / unit == f / unit
  {
    Sticky.DivModUnique(v % unit + (f - f % unit), unit, f / unit, v % unit);
  }

  /** No translation without a path. */
  lemma TranslateNeedsPath(ranges: seq<Range>, m: Ram, g: Regime, v: nat, access: Access) returns (tables: seq<nat>)
    requires Proper(g) && g.Paged? && Translate(ranges, m, g, v, access).Some?
    ensures IsPath(ranges, m, g.root, v, g.levels - 1, tables)
  {
    hide Read64, Walk, IsPath, Permits, Canonical;
    tables := WalkHasPath(ranges, m, g.root, v, g.levels - 1);
  }

  /** The memory a walk leaves: the word at the end of its path has bit 6 set, and bit 7 after a write; no other bit
      of it and no other word changes. A walk that fails changes nothing. */
  lemma BitsSet(ranges: seq<Range>, m: Ram, g: Regime, v: nat, access: Access, tables: seq<nat>, other: nat)
    requires WellMapped(ranges) && Proper(g) && g.Paged? && v < TWO_64 && other % 8 == 0
    requires IsPath(ranges, m, g.root, v, g.levels - 1, tables)
    ensures var m', at := AfterWalk(ranges, m, g, v, access), LastAt(v, g.levels - 1, tables);
            var w, w' := Read64(ranges, m, at), Read64(ranges, m', at);
            if Translate(ranges, m, g, v, access).None? then m' == m
            else
              w' / 64 % 2 == 1 && w' / 128 % 2 == (if access == Write then 1 else w / 128 % 2) &&
              w' % 64 == w % 64 && w' / 256 == w / 256 &&
              (other != at ==> Read64(ranges, m', other) == Read64(ranges, m, other))
  {
    hide Read64, Write64, Walk, IsPath, Powers.Pow2, Canonical, Permits, LastAt, Locate, Updated, Target, Span, Xwr,
      Present, WellMapped;
    PathShape(ranges, m, g.root, v, g.levels - 1, tables);
    var at := LastAt(v, g.levels - 1, tables);
    PathWalks(ranges, m, g.root, v, g.levels - 1, tables);
    if Translate(ranges, m, g, v, access).Some? {
      ProperRoot(g);
      LeafFacts(ranges, m, g.root, v, g.levels - 1);
      var w := Read64(ranges, m, at);
      WordBound(ranges, m, at);
      UpdatedBound(w, access);
      UpdatedBits(w, access);
      ReadAfterWrite(ranges, m, at, Updated(w, access), at);
      ReadAfterWrite(ranges, m, at, Updated(w, access), other);
    }
  }

  lemma UpdatedBits(w: nat, access: Access)
    ensures var u := Updated(w, access);
            u / 64 % 2 == 1 && u / 128 % 2 == (if access == Write then 1 else w / 128 % 2) &&
            u % 64 == w % 64 && u / 256 == w / 256
  {
    Parts(w);
    var d := if access.Write? then 1 else w / 128 % 2;
    PartsUnique(Updated(w, access), w % 64, 1, d, w / 256);
  }
}
