/** Loads and stores as the architecture defines them, with a page walk for every access and no cached
    translations. */
module MemAccess {
  import opened Options
  import opened PhysMem
  import opened PageWalk
  import opened Settled
  import Sticky

  /** `Foreign`: some byte is not RAM, so the value comes from a device or from nowhere. */
  datatype LoadResult = Value(v: nat) | LoadFault(tval: nat) | Foreign

  datatype StoreResult = Done | StoreFault(tval: nat)

  /** Address arithmetic is modulo 2^64. */
  function Plus(a: nat, i: nat): nat { (a + i) % 0x1_0000_0000_0000_0000 }

  predicate IsSize(n: nat) { n == 1 || n == 2 || n == 4 || n == 8 }

  // ---- loads ----

  ghost function LoadAligned(ranges: seq<Range>, m: Ram, g: Regime, a: nat, n: nat): LoadResult
  {
    var p := Translate(ranges, m, g, a, Read);
    if p.None? then LoadFault(a)
    else
      var l := Locate(ranges, p.value);
      if l.None? then Foreign else Value(Load(AfterWalk(ranges, m, g, a, Read), l.value, n))
  }

  /** Two loads one after the other; the second is not made if the first faults. */
  ghost function LoadTwo(ranges: seq<Range>, m: Ram, g: Regime, a: nat, b: nat, n: nat)
    : (r: (LoadResult, LoadResult, Ram))
  {
    var r0, m1 := LoadAligned(ranges, m, g, a, n), AfterWalk(ranges, m, g, a, Read);
    if r0.LoadFault? then (r0, r0, m1) else (r0, LoadAligned(ranges, m1, g, b, n), AfterWalk(ranges, m1, g, b, Read))
  }

  /** Bytes `al..n` of one word followed by bytes `0..al` of the next. */
  function Splice(v0: nat, v1: nat, al: nat, n: nat): nat
    requires al <= n
  {
    Sticky.Quot(v0, Pow256(al)) + Sticky.Rem(v1, Pow256(al)) * Pow256(n - al)
  }

  function Join(r0: LoadResult, r1: LoadResult, al: nat, n: nat): LoadResult
    requires al <= n
  {
    if r0.LoadFault? then r0
    else if r1.LoadFault? then r1
    else if r0.Foreign? || r1.Foreign? then Foreign
    else Value(Splice(r0.v, r1.v, al, n))
  }

  /** An unaligned halfword is read as two bytes, larger unaligned values as the two aligned words around them. */
  ghost function LoadAny(ranges: seq<Range>, m: Ram, g: Regime, a: nat, n: nat): (r: (LoadResult, Ram))
    requires IsSize(n)
  {
    if a % n == 0 then (LoadAligned(ranges, m, g, a, n), AfterWalk(ranges, m, g, a, Read))
    else if n == 2 then
      var t := LoadTwo(ranges, m, g, a, Plus(a, 1), 1);
      (if t.0.Value? && t.1.Value? then Value(t.0.v + 256 * t.1.v) else Join(t.0, t.1, 0, 0), t.2)
    else
      var base := a - a % n;
      var t := LoadTwo(ranges, m, g, base, Plus(base, n), n);
      (Join(t.0, t.1, a % n, n), t.2)
  }

  // ---- stores ----

  ghost function StoreAligned(ranges: seq<Range>, m: Ram, g: Regime, a: nat, v: nat, n: nat): (r: (StoreResult, Ram))
  {
    var p, m1 := Translate(ranges, m, g, a, Write), AfterWalk(ranges, m, g, a, Write);
    if p.None? then (StoreFault(a), m1)
    else
      var l := Locate(ranges, p.value);
      (Done, if l.None? then m1 else Store(m1, l.value, v, n))
  }

  /** Bytes `i..n` of `v`, lowest first, up to the first that faults. */
  ghost function StoreBytes(ranges: seq<Range>, m: Ram, g: Regime, a: nat, v: nat, i: nat, n: nat)
    : (r: (StoreResult, Ram))
    decreases n - i
  {
    if i >= n then (Done, m)
    else
      var (r, m1) := StoreAligned(ranges, m, g, Plus(a, i), Sticky.Quot(v, Pow256(i)) % 256, 1);
      if r.StoreFault? then (r, m1) else StoreBytes(ranges, m1, g, a, v, i + 1, n)
  }

  ghost function StoreAny(ranges: seq<Range>, m: Ram, g: Regime, a: nat, v: nat, n: nat): (r: (StoreResult, Ram))
    requires IsSize(n)
  {
    if a % n == 0 then StoreAligned(ranges, m, g, a, v, n) else StoreBytes(ranges, m, g, a, v, 0, n)
  }

  /** The RAM location of one byte. */
  ghost function Target1(ranges: seq<Range>, m: Ram, g: Regime, a: nat, access: Access): Option<Loc>
  {
    var p := Translate(ranges, m, g, a, access);
    if p.None? then None else Locate(ranges, p.value)
  }

  // ---- aligned addresses ----

  lemma AlignedFits(a: nat, n: nat)
    requires IsSize(n) && a % n == 0
    ensures a % 4096 + n <= 4096
  {
    var b := a % 4096;
    if n == 2 {
      Sticky.DivModUnique(b, 2, a / 2 - 2048 * (a / 4096), 0);
    } else if n == 4 {
      Sticky.DivModUnique(b, 4, a / 4 - 1024 * (a / 4096), 0);
    } else if n == 8 {
      Sticky.DivModUnique(b, 8, a / 8 - 512 * (a / 4096), 0);
    }
  }

  lemma AlignedBase(a: nat, n: nat)
    requires IsSize(n) && a < TWO_64
    ensures (a - a % n) % n == 0 && Plus(a - a % n, n) % n == 0
  {
    var q := a / n;
    if n == 1 {
    } else if n == 2 {
      Sticky.DivModUnique(a - a % 2, 2, q, 0);
      NextAligned(q, 2, 0x8000_0000_0000_0000);
    } else if n == 4 {
      Sticky.DivModUnique(a - a % 4, 4, q, 0);
      NextAligned(q, 4, 0x4000_0000_0000_0000);
    } else {
      Sticky.DivModUnique(a - a % 8, 8, q, 0);
      NextAligned(q, 8, 0x2000_0000_0000_0000);
    }
  }

  lemma NextAligned(q: nat, n: nat, top: nat)
    requires (n == 2 && top == 0x8000_0000_0000_0000) || (n == 4 && top == 0x4000_0000_0000_0000) ||
             (n == 8 && top == 0x2000_0000_0000_0000)
    requires q < top
    ensures Plus(n * q, n) == (if q + 1 == top then 0 else n * (q + 1)) && Plus(n * q, n) % n == 0
  {
    if q + 1 < top {
      Sticky.DivModUnique(n * q + n, TWO_64, 0, n * q + n);
      Sticky.DivModUnique(n * q + n, n, q + 1, 0);
    }
  }
}
