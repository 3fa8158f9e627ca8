/** Guest physical memory: an ordered table of ranges, and the bytes of the RAM ranges. A host pointer is
    a location, that is, a range and an offset inside it. */
module PhysMem {
  import opened Options

  type Byte = x: int | 0 <= x < 256

  datatype Loc = Loc(range: int, offset: int)

  type Ram = map<Loc, Byte>

  datatype Range = Range(addr: nat, size: nat, isRam: bool, tracked: bool)

  const TWO_64: nat := 0x1_0000_0000_0000_0000

  predicate InRange(r: Range, paddr: nat) { r.addr <= paddr < r.addr + r.size }

  /** RAM ranges start and end on page boundaries; ranges do not overlap. */
  ghost predicate WellMapped(ranges: seq<Range>)
  {
    (forall i :: 0 <= i < |ranges| && ranges[i].isRam ==> ranges[i].addr % 4096 == 0 && ranges[i].size % 4096 == 0) &&
    forall i, j, p: nat :: 0 <= i < j < |ranges| && InRange(ranges[i], p) ==> !InRange(ranges[j], p)
  }

  // ---- the range table ----

  /** The first range holding `paddr`. */
  method GetPhysMemRange(ranges: seq<Range>, paddr: nat) returns (r: Option<nat>)
    ensures r == RangeOf(ranges, paddr)
  {
    var i := 0;
    while i < |ranges|
      invariant i <= |ranges|
      invariant forall j :: 0 <= j < i ==> !InRange(ranges[j], paddr)
    {
      if InRange(ranges[i], paddr) {
        return Some(i);
      }
      i := i + 1;
    }
    return None;
  }

  ghost predicate FirstIn(ranges: seq<Range>, paddr: nat, i: nat)
  {
    i < |ranges| && InRange(ranges[i], paddr) && forall j :: 0 <= j < i ==> !InRange(ranges[j], paddr)
  }

  ghost function RangeOf(ranges: seq<Range>, paddr: nat): (r: Option<nat>)
    ensures r.Some? ==> FirstIn(ranges, paddr, r.value)
    ensures r.None? ==> forall j :: 0 <= j < |ranges| ==> !InRange(ranges[j], paddr)
  {
    if exists i: nat :: FirstIn(ranges, paddr, i) then
      var i: nat :| FirstIn(ranges, paddr, i);
      Some(i)
    else
      NoneFirst(ranges, paddr, |ranges|);
      None
  }

  lemma NoneFirst(ranges: seq<Range>, paddr: nat, n: nat)
    requires n <= |ranges| && forall i: nat :: !FirstIn(ranges, paddr, i)
    ensures forall j :: 0 <= j < n ==> !InRange(ranges[j], paddr)
  {
    if n > 0 {
      NoneFirst(ranges, paddr, n - 1);
      assert !FirstIn(ranges, paddr, n - 1);
    }
  }

  /** Where a physical address lives in host memory, if it is RAM. */
  ghost function Locate(ranges: seq<Range>, paddr: nat): (r: Option<Loc>)
    ensures r.Some? ==> r.value.offset >= 0
  {
    var i := RangeOf(ranges, paddr);
    if i.None? || !ranges[i.value].isRam then None else Some(Loc(i.value, paddr - ranges[i.value].addr))
  }

  /** One range serves a whole page. */
  lemma LocatePage(ranges: seq<Range>, p: nat, q: nat)
    requires WellMapped(ranges) && p / 4096 == q / 4096 && Locate(ranges, p).Some?
    ensures var l := Locate(ranges, p).value;
            Locate(ranges, q) == Some(Loc(l.range, l.offset + q - p)) && l.offset % 4096 == p % 4096
  {
    var i := RangeOf(ranges, p).value;
    var a, s := ranges[i].addr, ranges[i].size;
    assert a <= q < a + s && (p - a) % 4096 == p % 4096 by {
      assert a == 4096 * (a / 4096) && s == 4096 * (s / 4096);
      assert p == 4096 * (p / 4096) + p % 4096;
    }
    assert InRange(ranges[i], q);
    assert FirstIn(ranges, q, i);
    var j := RangeOf(ranges, q).value;
    assert InRange(ranges[j], q);
  }

  lemma LocateInjective(ranges: seq<Range>, p: nat, q: nat)
    requires Locate(ranges, p).Some? && Locate(ranges, p) == Locate(ranges, q)
    ensures p == q
  {
  }

  // ---- little-endian words ----

  function ByteAt(m: Ram, l: Loc): Byte { if l in m then m[l] else 0 }

  function Pow256(n: nat): (p: nat)
    ensures p > 0
  {
    if n == 0 then 1 else 256 * Pow256(n - 1)
  }

  function Shift(l: Loc, n: int): Loc { Loc(l.range, l.offset + n) }

  /** The `n` bytes at `l`, least significant first. */
  function Load(m: Ram, l: Loc, n: nat): (v: nat)
    decreases n
  {
    if n == 0 then 0 else ByteAt(m, l) + 256 * Load(m, Shift(l, 1), n - 1)
  }

  function Store(m: Ram, l: Loc, v: nat, n: nat): Ram
    decreases n
  {
    if n == 0 then m else Store(m[l := v % 256], Shift(l, 1), v / 256, n - 1)
  }

  predicate Inside(x: Loc, l: Loc, n: nat) { x.range == l.range && l.offset <= x.offset < l.offset + n }

  lemma {:induction false} LoadBound(m: Ram, l: Loc, n: nat)
    ensures Load(m, l, n) < Pow256(n)
    decreases n
  {
    if n > 0 {
      LoadBound(m, Shift(l, 1), n - 1);
    }
  }

  /** A word depends only on its own bytes. */
  lemma {:induction false} LoadSame(m: Ram, m': Ram, l: Loc, n: nat)
    requires forall x :: Inside(x, l, n) ==> ByteAt(m, x) == ByteAt(m', x)
    ensures Load(m, l, n) == Load(m', l, n)
    decreases n
  {
    if n > 0 {
      assert Inside(l, l, n);
      forall x | Inside(x, Shift(l, 1), n - 1)
        ensures ByteAt(m, x) == ByteAt(m', x)
      {
        assert Inside(x, l, n);
      }
      LoadSame(m, m', Shift(l, 1), n - 1);
    }
  }

  lemma {:induction false} StoreOutside(m: Ram, l: Loc, v: nat, n: nat, x: Loc)
    requires !Inside(x, l, n)
    ensures ByteAt(Store(m, l, v, n), x) == ByteAt(m, x)
    decreases n
  {
    if n > 0 {
      StoreOutside(m[l := v % 256], Shift(l, 1), v / 256, n - 1, x);
    }
  }

  /** What is stored is what is read back. */
  lemma {:induction false} StoreLoad(m: Ram, l: Loc, v: nat, n: nat)
    requires v < Pow256(n)
    ensures Load(Store(m, l, v, n), l, n) == v
    decreases n
  {
    if n > 0 {
      StoreLoad(m[l := v % 256], Shift(l, 1), v / 256, n - 1);
      StoreOutside(m[l := v % 256], Shift(l, 1), v / 256, n - 1, l);
    }
  }

  lemma {:induction false} LoadSplit(m: Ram, l: Loc, a: nat, b: nat)
    ensures Load(m, l, a + b) == Load(m, l, a) + Pow256(a) * Load(m, Shift(l, a), b)
    decreases a
  {
    if a > 0 {
      LoadSplit(m, Shift(l, 1), a - 1, b);
      assert Shift(Shift(l, 1), a - 1) == Shift(l, a);
      assert Shift(l, 1 + (a - 1)) == Shift(l, a);
      OneMoreByte(ByteAt(m, l), Load(m, Shift(l, 1), a - 1), Pow256(a - 1), Load(m, Shift(l, a), b));
    }
  }

  lemma OneMoreByte(x: int, y: int, p: int, z: int)
    ensures x + 256 * (y + p * z) == (x + 256 * y) + (256 * p) * z
  {
  }
}
