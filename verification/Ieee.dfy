/** What IEEE 754-2019 asks of a binary format: the values its bit patterns denote, correct
    rounding (section 4.3), overflow, underflow and inexact (section 7), stated over the reals. */
module Ieee {
  import opened Powers
  import opened Sticky

  /** A format with `msize` stored significand bits and `esize` exponent bits. */
  datatype Format = Format(msize: nat, esize: nat) {
    predicate Valid() { msize >= 2 && esize >= 5 }

    function Size(): nat { 1 + esize + msize }

    function RndSize(): nat
      requires esize >= 1
    {
      esize - 1
    }

    function ExpMask(): nat { Pow2(esize) - 1 }

    function Bias(): nat
      requires esize >= 1
    {
      Pow2(esize - 1) - 1
    }

    /** The magnitude bits of infinity. */
    function Inf(): (r: nat)
      requires Valid()
      ensures r >= Pow2(msize)
    {
      Pow2Succ(esize - 1);
      MulAtLeast(ExpMask(), Pow2(msize));
      ExpMask() * Pow2(msize)
    }

    /** The exponent of the least positive value. */
    function UnitExp(): int
      requires esize >= 1
    {
      1 - Bias() - msize
    }
  }

  type Fmt = f: Format | f.Valid() witness Format(23, 8)

  const Binary32: Fmt := Format(23, 8)
  const Binary64: Fmt := Format(52, 11)
  const Binary128: Fmt := Format(112, 15)

  datatype Mode = RNE | RTZ | RDN | RUP | RMM

  datatype Flag = InvalidOp | DivideZero | Overflow | Underflow | Inexact

  /** The magnitude denoted by magnitude bits `p`, in units of the least positive value. The exponent
      field is not limited above: `p` at and beyond infinity continues the sequence of values. */
  function MagU(f: Fmt, p: nat): (r: nat)
  {
    var e := p / Pow2(f.msize);
    if e == 0 then p else (Pow2(f.msize) + p % Pow2(f.msize)) * Pow2(e - 1)
  }

  /** The magnitude denoted by magnitude bits `p`. */
  ghost function Mag(f: Fmt, p: nat): (r: real)
  {
    MagU(f, p) as real * P2(f.UnitExp())
  }

  ghost function Abs(x: real): real { if x < 0.0 then -x else x }

  predicate Nearest(rm: Mode) { rm.RNE? || rm.RMM? }

  /** Directed rounding that does not increase the magnitude. */
  predicate TowardZero(rm: Mode, neg: bool)
  {
    rm.RTZ? || (rm.RDN? && !neg) || (rm.RUP? && neg)
  }

  /** Section 4.3, on a magnitude `x` of sign `neg`, with no upper limit on the exponent. */
  ghost predicate IsRounding(f: Fmt, rm: Mode, neg: bool, x: real, p: nat)
  {
    if Nearest(rm) then
      forall q: nat :: Abs(x - Mag(f, p)) <= Abs(x - Mag(f, q)) &&
        (q != p && Abs(x - Mag(f, p)) == Abs(x - Mag(f, q)) ==> if rm.RNE? then p % 2 == 0 else q < p)
    else if TowardZero(rm, neg) then
      Mag(f, p) <= x && forall q: nat :: Mag(f, q) <= x ==> q <= p
    else
      x <= Mag(f, p) && forall q: nat :: x <= Mag(f, q) ==> p <= q
  }

  // ---- values in units of the least positive one ----

  lemma MagAt(f: Fmt, e: nat, q: nat)
    requires e >= 1 && q <= 2 * Pow2(f.msize)
    requires e == 1 || q >= Pow2(f.msize)
    ensures MagU(f, (e - 1) * Pow2(f.msize) + q) == q * Pow2(e - 1)
  {
    var m := Pow2(f.msize);
    Pow2Succ(e - 1);
    hide Pow2;
    var p := (e - 1) * m + q;
    NextMultiples(e, m);
    if q < m {
      DivModUnique(p, m, 0, q);
    } else if q < 2 * m {
      DivModUnique(p, m, e, q - m);
    } else {
      DivModUnique(p, m, e + 1, 0);
      DoubleProduct(m, Pow2(e - 1));
      MulExchange(m, 2, Pow2(e - 1));
    }
  }

  lemma NextMultiples(e: int, m: int)
    ensures e * m == (e - 1) * m + m
    ensures (e + 1) * m == (e - 1) * m + 2 * m
  {
  }

  /** Every magnitude is a significand times a power of two. */
  lemma Decompose(f: Fmt, p: nat) returns (e: nat, q: nat)
    ensures e >= 1 && q < 2 * Pow2(f.msize) && (e == 1 || q >= Pow2(f.msize))
    ensures p == (e - 1) * Pow2(f.msize) + q
  {
    var m := Pow2(f.msize);
    DivModIs(p, m);
    if p < m {
      e, q := 1, p;
    } else {
      e, q := p / m, m + p % m;
      assert e == 0 ==> e * m == 0;
      assert e * m == (e - 1) * m + m;
    }
  }

  lemma MagStep(f: Fmt, p: nat)
    ensures MagU(f, p) < MagU(f, p + 1)
  {
    hide MagU;
    var e, q := Decompose(f, p);
    MagAt(f, e, q);
    MagAt(f, e, q + 1);
    MulOrder(q, q + 1, Pow2(e - 1));
  }

  lemma {:induction false} MagMono(f: Fmt, p: nat, q: nat)
    requires p < q
    ensures MagU(f, p) < MagU(f, q)
    decreases q
  {
    hide MagU;
    MagStep(f, q - 1);
    if p < q - 1 {
      MagMono(f, p, q - 1);
    }
  }

  lemma MagOrder(f: Fmt, p: nat, q: nat)
    ensures p < q <==> Mag(f, p) < Mag(f, q)
    ensures p == q <==> Mag(f, p) == Mag(f, q)
  {
    hide MagU;
    if p < q {
      MagMono(f, p, q);
    } else if q < p {
      MagMono(f, q, p);
    }
    RealMulOrder(MagU(f, p) as real, MagU(f, q) as real, P2(f.UnitExp()));
  }

  // ---- rounding between two neighbouring values ----

  /** Where a real lies between a grid point and the next one. */
  datatype Position = OnGrid | BelowHalf | Half | AboveHalf

  ghost predicate Within(d: real, s: real, pos: Position)
  {
    match pos
    case OnGrid => d == 0.0
    case BelowHalf => 0.0 < d && 2.0 * d < s
    case Half => 2.0 * d == s
    case AboveHalf => s < 2.0 * d && d < s
  }

  /** `z` lies at `pos` above the `n`th point of the grid of step `s`. */
  ghost predicate Located(z: real, n: int, s: real, pos: Position)
  {
    Within(z - n as real * s, s, pos)
  }

  /** The grid point a real at `pos` above `n` rounds to. */
  function Pick(rm: Mode, neg: bool, n: nat, pos: Position): (r: nat)
    ensures n <= r <= n + 1
    ensures pos.OnGrid? ==> r == n
  {
    match pos
    case OnGrid => n
    case BelowHalf => if Nearest(rm) || TowardZero(rm, neg) then n else n + 1
    case AboveHalf => if !Nearest(rm) && TowardZero(rm, neg) then n else n + 1
    case Half =>
      if rm.RNE? then n + n % 2
      else if rm.RMM? || !TowardZero(rm, neg) then n + 1 else n
  }

  lemma LocatedScale(z: real, n: int, s: real, pos: Position, c: real, z': real, s': real)
    requires c > 0.0 && Located(z, n, s, pos)
    requires z' == z * c && s' == s * c
    ensures Located(z', n, s', pos)
  {
    var d := z - n as real * s;
    ScaleDifference(z, n as real, s, c);
    WithinScale(d, s, pos, c, z' - n as real * s', s');
  }

  lemma WithinScale(d: real, s: real, pos: Position, c: real, d': real, s': real)
    requires c > 0.0 && Within(d, s, pos)
    requires d' == d * c && s' == s * c
    ensures Within(d', s', pos)
  {
    RealMulOrder(0.0, d, c);
    RealMulOrder(2.0 * d, s, c);
    RealMulOrder(s, 2.0 * d, c);
    RealMulOrder(d, s, c);
    assert (2.0 * d) * c == 2.0 * d';
  }

  lemma ScaleDifference(z: real, n: real, s: real, c: real)
    ensures z * c - n * (s * c) == (z - n * s) * c
  {
  }

  /** Between neighbours `lo` and `lo + 1` at distance `s`, `Pick` is correct rounding. */
  lemma NeighbourRounding(f: Fmt, rm: Mode, neg: bool, x: real, lo: nat, s: real, pos: Position)
    requires s > 0.0 && Mag(f, lo + 1) == Mag(f, lo) + s
    requires Within(x - Mag(f, lo), s, pos)
    ensures IsRounding(f, rm, neg, x, Pick(rm, neg, lo, pos))
  {
    hide Mag;
    var p := Pick(rm, neg, lo, pos);
    forall q: nat
      ensures q <= lo ==> Mag(f, q) <= Mag(f, lo)
      ensures q < lo ==> Mag(f, q) < Mag(f, lo)
      ensures q > lo ==> Mag(f, q) >= Mag(f, lo + 1)
      ensures q > lo + 1 ==> Mag(f, q) > Mag(f, lo + 1)
    {
      MagOrder(f, q, lo);
      MagOrder(f, lo + 1, q);
    }
  }

  /** Correct rounding of a magnitude that lies `pos` above `n` units of `2^(e-1)`. */
  lemma RoundingAt(f: Fmt, rm: Mode, neg: bool, x: real, e: nat, n: nat, pos: Position)
    requires e >= 1 && n < 2 * Pow2(f.msize) && (e == 1 || n >= Pow2(f.msize))
    requires Located(x, n, P2(e - 1 + f.UnitExp()), pos)
    ensures IsRounding(f, rm, neg, x, (e - 1) * Pow2(f.msize) + Pick(rm, neg, n, pos))
    ensures Mag(f, (e - 1) * Pow2(f.msize) + Pick(rm, neg, n, pos)) ==
            Pick(rm, neg, n, pos) as real * P2(e - 1 + f.UnitExp())
  {
    hide IsRounding, P2, Pow2, Mag, Pick, Located, Within, Format.UnitExp;
    var base, s := (e - 1) * Pow2(f.msize), P2(e - 1 + f.UnitExp());
    GridMag(f, e, Pick(rm, neg, n, pos)) by {
      PickNear(rm, neg, n, pos);
    }
    EvenMultiple(e - 1, Pow2(f.msize));
    PickOffset(rm, neg, base, n, pos);
    GridNeighbours(f, x, e, n, s, pos);
    NeighbourRounding(f, rm, neg, x, base + n, s, pos);
  }

  lemma PickNear(rm: Mode, neg: bool, n: nat, pos: Position)
    ensures n <= Pick(rm, neg, n, pos) <= n + 1
  {
  }

  lemma GridNeighbours(f: Fmt, x: real, e: nat, n: nat, s: real, pos: Position)
    requires e >= 1 && n < 2 * Pow2(f.msize) && (e == 1 || n >= Pow2(f.msize))
    requires s == P2(e - 1 + f.UnitExp()) && Located(x, n, s, pos)
    ensures var lo := (e - 1) * Pow2(f.msize) + n;
            Mag(f, lo + 1) == Mag(f, lo) + s && Within(x - Mag(f, lo), s, pos)
  {
    hide P2, Pow2, Mag, Located, Within, Format.UnitExp;
    GridMag(f, e, n);
    GridMag(f, e, n + 1);
    LocatedFromBase(x, n, s, pos);
    assert x - Mag(f, (e - 1) * Pow2(f.msize) + n) == x - n as real * s;
  }

  lemma LocatedFromBase(x: real, n: nat, s: real, pos: Position)
    requires Located(x, n, s, pos)
    ensures Within(x - n as real * s, s, pos)
    ensures (n + 1) as real * s == n as real * s + s
  {
  }

  lemma PickOffset(rm: Mode, neg: bool, base: nat, n: nat, pos: Position)
    requires base % 2 == 0
    ensures Pick(rm, neg, base + n, pos) == base + Pick(rm, neg, n, pos)
  {
  }

  lemma GridMag(f: Fmt, e: nat, q: nat)
    requires e >= 1 && q <= 2 * Pow2(f.msize) && (e == 1 || q >= Pow2(f.msize))
    ensures Mag(f, (e - 1) * Pow2(f.msize) + q) == q as real * P2(e - 1 + f.UnitExp())
  {
    hide P2, Pow2, MagU, Format.UnitExp;
    MagAt(f, e, q);
    P2Add(e - 1, f.UnitExp());
    P2Nat(e - 1);
    RealProduct(q, Pow2(e - 1));
    MulAssoc(q as real, P2(e - 1), P2(f.UnitExp()));
  }

  lemma MulAssoc(a: real, b: real, c: real)
    ensures (a * b) * c == a * (b * c)
  {
  }

  // ---- correct rounding exists and is unique ----

  lemma {:induction false} MagAtLeast(f: Fmt, p: nat)
    ensures MagU(f, p) >= p
  {
    hide MagU;
    if p > 0 {
      MagAtLeast(f, p - 1);
      MagStep(f, p - 1);
    }
  }

  lemma {:induction false} FindBelow(f: Fmt, x: real, p: nat) returns (lo: nat)
    requires Mag(f, 0) <= x < Mag(f, p)
    ensures Mag(f, lo) <= x < Mag(f, lo + 1)
  {
    hide Mag;
    if Mag(f, p - 1) <= x {
      lo := p - 1;
    } else {
      lo := FindBelow(f, x, p - 1);
    }
  }

  lemma Neighbours(f: Fmt, x: real) returns (lo: nat, pos: Position)
    requires x >= 0.0
    ensures Mag(f, lo + 1) > Mag(f, lo)
    ensures Within(x - Mag(f, lo), Mag(f, lo + 1) - Mag(f, lo), pos)
  {
    var u := P2(f.UnitExp());
    var k := (x / u).Floor;
    MagAtLeast(f, k + 1);
    assert Mag(f, k + 1) > x by {
      hide MagU, P2, Format.UnitExp;
      ScaleBound(x, u, k + 1, MagU(f, k + 1));
    }
    assert Mag(f, 0) == 0.0;
    lo := FindBelow(f, x, k + 1);
    hide Mag;
    var d, s := x - Mag(f, lo), Mag(f, lo + 1) - Mag(f, lo);
    pos := if d == 0.0 then OnGrid else if 2.0 * d < s then BelowHalf else if 2.0 * d == s then Half else AboveHalf;
  }

  lemma ScaleBound(x: real, u: real, k: int, m: int)
    requires u > 0.0 && x / u < k as real && k <= m
    ensures x < m as real * u
  {
    RealMulOrder(x / u, m as real, u);
    assert (x / u) * u == x;
  }

  lemma RoundingExists(f: Fmt, rm: Mode, neg: bool, x: real)
    requires x >= 0.0
    ensures exists p: nat :: IsRounding(f, rm, neg, x, p)
  {
    hide IsRounding;
    var lo, pos := Neighbours(f, x);
    NeighbourRounding(f, rm, neg, x, lo, Mag(f, lo + 1) - Mag(f, lo), pos);
  }

  lemma RoundingUnique(f: Fmt, rm: Mode, neg: bool, x: real, p: nat, p': nat)
    requires IsRounding(f, rm, neg, x, p) && IsRounding(f, rm, neg, x, p')
    ensures p == p'
  {
    hide Mag;
    if Nearest(rm) && p != p' {
      MagOrder(f, p, p');
      var between := if p < p' then p + 1 else p' + 1;
      MagOrder(f, p, between);
      MagOrder(f, between, p');
    }
  }

  /** The magnitude bits `x` rounds to when the exponent is not limited above. */
  ghost function Rounded(f: Fmt, rm: Mode, neg: bool, x: real): (p: nat)
    requires x >= 0.0
    ensures IsRounding(f, rm, neg, x, p)
  {
    RoundingExists(f, rm, neg, x);
    var p: nat :| IsRounding(f, rm, neg, x, p);
    p
  }

  // ---- the delivered result and its flags ----

  /** Section 7.4: what overflow delivers, by rounding mode and sign. */
  function OverflowBits(f: Fmt, rm: Mode, neg: bool): nat
  {
    if TowardZero(rm, neg) then f.Inf() - 1 else f.Inf()
  }

  ghost function Delivered(f: Fmt, rm: Mode, neg: bool, x: real): nat
    requires x >= 0.0
  {
    var p := Rounded(f, rm, neg, x);
    if p < f.Inf() then p else OverflowBits(f, rm, neg)
  }

  function SignBit(f: Fmt, neg: bool): nat
  {
    if neg then Pow2(f.Size() - 1) else 0
  }

  /** The least normal magnitude. */
  ghost function MinNormal(f: Fmt): real { Mag(f, Pow2(f.msize)) }

  /** Rounding `x` with the exponent range extended downwards by the factor `c`, far enough for `x`
      to be normal, gives a magnitude below the least normal one. */
  ghost predicate TinyScaled(f: Fmt, rm: Mode, neg: bool, x: real, c: real)
    requires x >= 0.0 && c > 0.0
  {
    var y := x * c;
    y >= MinNormal(f) && Mag(f, Rounded(f, rm, neg, y)) < MinNormal(f) * c
  }

  /** Section 7.5: tininess, detected after rounding as though the exponent range were unbounded. */
  ghost predicate Tiny(f: Fmt, rm: Mode, neg: bool, x: real)
    requires x >= 0.0
  {
    exists k: nat :: TinyScaled(f, rm, neg, x, P2(k))
  }

  ghost function RoundFlags(f: Fmt, rm: Mode, neg: bool, x: real): set<Flag>
    requires x >= 0.0
  {
    var p := Rounded(f, rm, neg, x);
    (if p >= f.Inf() then {Overflow, Inexact} else {}) +
    (if Mag(f, p) != x then {Inexact} else {}) +
    (if Mag(f, p) != x && Tiny(f, rm, neg, x) then {Underflow} else {})
  }

  lemma MinNormalIs(f: Fmt)
    ensures MinNormal(f) == Pow2(f.msize) as real * P2(f.UnitExp())
  {
    hide Mag, Pow2, P2, Format.UnitExp;
    GridMag(f, 1, Pow2(f.msize));
    assert (1 - 1) * Pow2(f.msize) + Pow2(f.msize) == Pow2(f.msize);
  }

  lemma RoundedIs(f: Fmt, rm: Mode, neg: bool, x: real, p: nat)
    requires x >= 0.0 && IsRounding(f, rm, neg, x, p)
    ensures Rounded(f, rm, neg, x) == p
  {
    hide IsRounding;
    RoundingUnique(f, rm, neg, x, p, Rounded(f, rm, neg, x));
  }

  lemma LocatedBounds(x: real, n: nat, s: real, pos: Position)
    requires s > 0.0 && Located(x, n, s, pos)
    ensures 0.0 <= n as real * s <= x < (n + 1) as real * s
  {
    assert n as real * s >= 0.0;
    assert (n + 1) as real * s == n as real * s + s;
  }

  /** Rounding commutes with scaling by a power of two, once the scaled magnitude is normal. */
  lemma RoundedScaled(f: Fmt, rm: Mode, neg: bool, x: real, e: int, n: nat, pos: Position, k: nat, y: real)
    requires Pow2(f.msize) <= n < 2 * Pow2(f.msize)
    requires Located(x, n, P2(e - 1 + f.UnitExp()), pos)
    requires e + k >= 1 && y == x * P2(k)
    ensures y >= MinNormal(f) && y >= 0.0
    ensures Mag(f, Rounded(f, rm, neg, y)) == (Pick(rm, neg, n, pos) as real * P2(e - 1 + f.UnitExp())) * P2(k)
  {
    hide Pow2, P2, Pick, Located, Mag, MinNormal, IsRounding, Format.UnitExp;
    var u := f.UnitExp();
    var s, c := P2(e - 1 + u), P2(k);
    var q := Pick(rm, neg, n, pos);
    P2Add(e - 1 + u, k);
    var s' := P2(e + k - 1 + u);
    LocatedScale(x, n, s, pos, c, y, s');
    RoundingAt(f, rm, neg, y, e + k, n, pos);
    LocatedBounds(y, n, s', pos);
    RoundedIs(f, rm, neg, y, (e + k - 1) * Pow2(f.msize) + q);
    MulAssoc(q as real, s, c);
    MinNormalIs(f);
    P2Mono(u, e + k - 1 + u);
    ProductMono(Pow2(f.msize) as real, n as real, P2(u), s');
  }

  /** Extending the exponent range far enough does not change whether the rounded value is tiny. */
  lemma TinyAtIff(f: Fmt, rm: Mode, neg: bool, x: real, e: int, n: nat, pos: Position, k: nat)
    requires Pow2(f.msize) <= n < 2 * Pow2(f.msize) && x >= 0.0
    requires Located(x, n, P2(e - 1 + f.UnitExp()), pos)
    requires e + k >= 1
    ensures TinyScaled(f, rm, neg, x, P2(k)) <==>
            Pick(rm, neg, n, pos) as real * P2(e - 1 + f.UnitExp()) < MinNormal(f)
  {
    hide Pow2, P2, Pick, Located, Mag, MinNormal, IsRounding, TinyScaled, Format.UnitExp;
    var c := P2(k);
    var y := x * c;
    RoundedScaled(f, rm, neg, x, e, n, pos, k, y);
    RealMulOrder(Pick(rm, neg, n, pos) as real * P2(e - 1 + f.UnitExp()), MinNormal(f), c);
    TinyScaledIs(f, rm, neg, x, c, y);
  }

  lemma TinyScaledIs(f: Fmt, rm: Mode, neg: bool, x: real, c: real, y: real)
    requires x >= 0.0 && c > 0.0 && y == x * c
    ensures y >= 0.0
    ensures TinyScaled(f, rm, neg, x, c) <==>
            (y >= MinNormal(f) && Mag(f, Rounded(f, rm, neg, y)) < MinNormal(f) * c)
  {
    hide Mag, MinNormal, IsRounding;
  }

  lemma ProductMono(a: real, b: real, c: real, d: real)
    requires 0.0 <= a <= b && 0.0 <= c <= d
    ensures a * c <= b * d
  {
    assert (b - a) * c >= 0.0;
    assert b * (d - c) >= 0.0;
  }

  lemma NotTinyBelow(f: Fmt, rm: Mode, neg: bool, x: real, e: int, n: nat, pos: Position, k: nat)
    requires n < 2 * Pow2(f.msize) && x >= 0.0
    requires Located(x, n, P2(e - 1 + f.UnitExp()), pos)
    requires e + k < 1
    ensures !TinyScaled(f, rm, neg, x, P2(k))
  {
    hide Pow2, P2, Pick, Located, Mag, MinNormal, IsRounding, Format.UnitExp;
    var u := f.UnitExp();
    var s, c := P2(e - 1 + u), P2(k);
    LocatedBounds(x, n, s, pos);
    RealMulOrder(x, (n + 1) as real * s, c);
    MulAssoc((n + 1) as real, s, c);
    P2Add(e - 1 + u, k);
    assert P2(e + k - 1 + u) == s * c;
    P2Mono(e + k - 1 + u, u - 1);
    P2Succ(u - 1);
    ProductMono((n + 1) as real, (2 * Pow2(f.msize)) as real, s * c, P2(u - 1));
    MinNormalIs(f);
    DoubleMove(Pow2(f.msize) as real, P2(u - 1));
  }

  lemma DoubleMove(a: real, b: real)
    ensures (2.0 * a) * b == a * (2.0 * b)
  {
  }

  /** Tininess after rounding, read off the significand rounded without any limit on the exponent. */
  lemma TinyIff(f: Fmt, rm: Mode, neg: bool, x: real, e: int, n: nat, pos: Position)
    requires Pow2(f.msize) <= n < 2 * Pow2(f.msize) && x >= 0.0
    requires Located(x, n, P2(e - 1 + f.UnitExp()), pos)
    ensures Tiny(f, rm, neg, x) <==>
            Pick(rm, neg, n, pos) as real * P2(e - 1 + f.UnitExp()) < MinNormal(f)
  {
    hide Pow2, P2, Pick, Located, MinNormal, TinyScaled;
    forall k: nat
      ensures TinyScaled(f, rm, neg, x, P2(k)) ==>
                Pick(rm, neg, n, pos) as real * P2(e - 1 + f.UnitExp()) < MinNormal(f)
    {
      if e + k >= 1 {
        TinyAtIff(f, rm, neg, x, e, n, pos, k);
      } else {
        NotTinyBelow(f, rm, neg, x, e, n, pos, k);
      }
    }
    TinyAtIff(f, rm, neg, x, e, n, pos, if e >= 1 then 0 else 1 - e);
  }
}
