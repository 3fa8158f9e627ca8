/** What each rounding mode means, said of signed values and words and mode by mode: IEEE 754-2019, section 4.3, and
    for overflow section 7.4. */
module RoundingLaws {
  import opened Powers
  import opened Sticky
  import opened Ieee
  import opened RoundPack
  import FS = FloatSpec

  ghost predicate IsNumber(f: Fmt, w: nat) { FS.IsWord(f, w) && FS.IsFinite(f, w) }

  /** No finite word lies above `v` and up to `s`. */
  ghost predicate NoneAbove(f: Fmt, s: real, v: real)
  {
    forall w: nat :: IsNumber(f, w) && FS.Value(f, w) <= s ==> FS.Value(f, w) <= v
  }

  /** No finite word lies below `v` and down to `s`. */
  ghost predicate NoneBelow(f: Fmt, s: real, v: real)
  {
    forall w: nat :: IsNumber(f, w) && s <= FS.Value(f, w) ==> v <= FS.Value(f, w)
  }

  /** The largest finite value, the power of two beyond it, and the point half-way. */
  ghost function Largest(f: Fmt): real { (2 * Pow2(f.msize) - 1) as real * P2(Pow2(f.esize - 1) - 1 - f.msize) }

  ghost function Beyond(f: Fmt): real { P2(Pow2(f.esize - 1)) }

  ghost function HalfWay(f: Fmt): real { (Largest(f) + Beyond(f)) / 2.0 }

  /** When the result is infinite. */
  ghost predicate BecomesInfinite(f: Fmt, rm: Mode, s: real)
  {
    match rm
    case RTZ => false
    case RDN => s < -Largest(f)
    case RUP => Largest(f) < s
    case RNE => HalfWay(f) <= Abs(s)
    case RMM => HalfWay(f) <= Abs(s)
  }

  /** The word `r` is what `s` rounds to. */
  ghost predicate Rounds(f: Fmt, rm: Mode, s: real, r: nat)
  {
    FS.IsWord(f, r) && !FS.IsNaN(f, r) && (FS.IsInf(f, r) <==> BecomesInfinite(f, rm, s)) &&
    (s != 0.0 ==> (FS.SignOf(f, r) <==> s < 0.0)) &&
    (FS.IsFinite(f, r) ==>
       var v := FS.Value(f, r);
       match rm
       case RTZ => if s >= 0.0 then v <= s && NoneAbove(f, s, v) else s <= v && NoneBelow(f, s, v)
       case RDN => v <= s && NoneAbove(f, s, v)
       case RUP => s <= v && NoneBelow(f, s, v)
       case RNE => forall w: nat :: IsNumber(f, w) ==> Closer(s, v, FS.Value(f, w), r % 2 == 0)
       case RMM => forall w: nat :: IsNumber(f, w) ==> Closer(s, v, FS.Value(f, w), Abs(FS.Value(f, w)) < Abs(v)))
  }

  /** `v` is at least as close to `s` as `u`, and wins a tie only under the condition given. */
  ghost predicate Closer(s: real, v: real, u: real, wins: bool)
  {
    Abs(s - v) <= Abs(s - u) && (v != u && Abs(s - v) == Abs(s - u) ==> wins)
  }

  // ---- words and their values ----

  lemma NumberIs(f: Fmt, w: nat)
    requires IsNumber(f, w)
    ensures FS.BitsOf(f, w) < f.Inf() && Mag(f, FS.BitsOf(f, w)) >= 0.0
  {
    hide Pow2, Mag, FS.SignOf, FS.BitsOf, FS.ExpOf, FS.MantOf;
    FS.Fields(f, w);
    FS.MagNonneg(f, FS.BitsOf(f, w));
    FS.FieldBound(FS.ExpOf(f, w), FS.MantOf(f, w), f.ExpMask(), Pow2(f.msize));
  }

  /** A sign and magnitude bits up to infinity make a word with that sign and those bits. */
  lemma WordIs(f: Fmt, neg: bool, p: nat)
    requires p <= f.Inf()
    ensures var w := SignBit(f, neg) + p;
            FS.IsWord(f, w) && FS.SignOf(f, w) == neg && FS.BitsOf(f, w) == p && !FS.IsNaN(f, w) &&
            (FS.IsInf(f, w) <==> p == f.Inf()) && (FS.IsFinite(f, w) <==> p < f.Inf()) &&
            FS.Value(f, w) == if neg then -Mag(f, p) else Mag(f, p)
  {
    hide Pow2, Mag, Quot, Rem;
    FS.ExpMaskBits(f);
    var h, w := Pow2(f.Size() - 1), SignBit(f, neg) + p;
    MulOrder(f.ExpMask(), Pow2(f.esize), Pow2(f.msize));
    QuotRemUnique(w, h, if neg then 1 else 0, p);
    FS.Fields(f, w);
    hide FS.SignOf, FS.BitsOf, FS.ExpOf, FS.MantOf, SignBit;
    ExpCompare(FS.ExpOf(f, w), FS.MantOf(f, w), f.ExpMask(), Pow2(f.msize));
  }

  /** The magnitudes at the top. */
  lemma Tops(f: Fmt)
    ensures Mag(f, f.Inf() - 1) == Largest(f) && Mag(f, f.Inf()) == Beyond(f) && Largest(f) < Beyond(f)
    ensures f.Inf() % 2 == 0
  {
    hide Pow2, P2, Mag, Format.Inf, Format.ExpMask, Format.UnitExp;
    var m, e := Pow2(f.msize), f.ExpMask();
    MagOrder(f, f.Inf() - 1, f.Inf());
    TopExponents(f);
    GridMag(f, e - 1, 2 * m - 1);
    GridMag(f, e, m);
    P2Nat(f.msize);
    P2Add(f.msize, e - 1 + f.UnitExp());
    EvenMultiple(e, m);
  }

  lemma TopExponents(f: Fmt)
    ensures var m, e, h := Pow2(f.msize), f.ExpMask(), Pow2(f.esize - 1);
            e >= 2 && f.Inf() == e * m == (e - 1) * m + m && f.Inf() - 1 == (e - 1 - 1) * m + (2 * m - 1) &&
            e - 1 - 1 + f.UnitExp() == h - 1 - f.msize && f.msize + (e - 1 + f.UnitExp()) == h
  {
    Pow2Succ(f.esize - 1);
    Pow2Succ(f.esize - 2);
    hide Pow2;
    NextMultiples(f.ExpMask(), Pow2(f.msize));
    NextMultiples(f.ExpMask() - 1, Pow2(f.msize));
  }

  // ---- magnitudes ----

  lemma Downward(f: Fmt, x: real, p: nat, d: nat)
    requires Mag(f, p) <= x && (forall q: nat :: Mag(f, q) <= x ==> q <= p)
    requires d == if p < f.Inf() then p else f.Inf() - 1
    ensures d < f.Inf() && Mag(f, d) <= x && forall q: nat :: q < f.Inf() && Mag(f, q) <= x ==> Mag(f, q) <= Mag(f, d)
  {
    hide Mag, Format.Inf;
    MagOrder(f, p, d);
    forall q: nat | q < f.Inf() && Mag(f, q) <= x
      ensures Mag(f, q) <= Mag(f, d)
    {
      MagOrder(f, d, q);
    }
  }

  lemma Upward(f: Fmt, x: real, p: nat)
    requires x <= Mag(f, p) && forall q: nat :: x <= Mag(f, q) ==> p <= q
    ensures p >= f.Inf() <==> Largest(f) < x
    ensures forall q: nat :: x <= Mag(f, q) ==> Mag(f, p) <= Mag(f, q)
  {
    hide Mag, Format.Inf, Largest;
    Tops(f);
    MagOrder(f, p, f.Inf() - 1);
    forall q: nat | x <= Mag(f, q)
      ensures Mag(f, p) <= Mag(f, q)
    {
      MagOrder(f, q, p);
    }
  }

  /** To nearest: the tie at the top goes to infinity in both modes. */
  lemma NearestTop(f: Fmt, rm: Mode, neg: bool, x: real, p: nat)
    requires x >= 0.0 && Nearest(rm) && IsRounding(f, rm, neg, x, p)
    ensures p >= f.Inf() <==> HalfWay(f) <= x
  {
    hide Mag, Format.Inf, Largest, Beyond;
    Tops(f);
    var top := f.Inf();
    MagOrder(f, p, top - 1);
    MagOrder(f, p, top);
    assert Abs(x - Mag(f, p)) <= Abs(x - Mag(f, top)) && Abs(x - Mag(f, p)) <= Abs(x - Mag(f, top - 1));
  }

  // ---- signs ----

  lemma SignedDown(f: Fmt, neg: bool, x: real, d: nat)
    requires x >= 0.0 && d < f.Inf() && Mag(f, d) <= x
    requires forall q: nat :: q < f.Inf() && Mag(f, q) <= x ==> Mag(f, q) <= Mag(f, d)
    ensures !neg ==> Mag(f, d) <= x && NoneAbove(f, x, Mag(f, d))
    ensures neg ==> -x <= -Mag(f, d) && NoneBelow(f, -x, -Mag(f, d))
  {
    hide Mag, Format.Inf, FS.SignOf, FS.BitsOf, FS.IsFinite, FS.IsWord;
    FS.MagNonneg(f, d);
    forall w: nat | IsNumber(f, w)
      ensures FS.Value(f, w) <= x ==> FS.Value(f, w) <= Mag(f, d)
      ensures -x <= FS.Value(f, w) ==> -Mag(f, d) <= FS.Value(f, w)
    {
      NumberIs(f, w);
    }
  }

  lemma SignedUp(f: Fmt, neg: bool, x: real, p: nat)
    requires x >= 0.0 && p < f.Inf() && x <= Mag(f, p) && (x == 0.0 ==> Mag(f, p) == 0.0)
    requires forall q: nat :: x <= Mag(f, q) ==> Mag(f, p) <= Mag(f, q)
    ensures !neg ==> NoneBelow(f, x, Mag(f, p))
    ensures neg ==> NoneAbove(f, -x, -Mag(f, p))
  {
    hide Mag, Format.Inf, FS.SignOf, FS.BitsOf, FS.IsFinite, FS.IsWord;
    forall w: nat | IsNumber(f, w)
      ensures x <= FS.Value(f, w) ==> Mag(f, p) <= FS.Value(f, w)
      ensures FS.Value(f, w) <= -x ==> FS.Value(f, w) <= -Mag(f, p)
    {
      NumberIs(f, w);
    }
  }

  lemma SignedNear(f: Fmt, rm: Mode, neg: bool, x: real, p: nat, w: nat)
    requires x >= 0.0 && Nearest(rm) && IsRounding(f, rm, neg, x, p) && p < f.Inf() && IsNumber(f, w)
    ensures var s, v, u := if neg then -x else x, if neg then -Mag(f, p) else Mag(f, p), FS.Value(f, w);
            Closer(s, v, u, if rm.RNE? then p % 2 == 0 else Abs(u) < Abs(v))
  {
    hide Mag, Format.Inf, FS.SignOf, FS.BitsOf, FS.IsFinite, FS.IsWord;
    NumberIs(f, w);
    FS.MagNonneg(f, p);
    var q := FS.BitsOf(f, w);
    MagOrder(f, q, p);
    MagOrder(f, 0, p);
    ZeroMag(f);
    assert Abs(x - Mag(f, p)) <= Abs(x - Mag(f, q)) && Abs(x - Mag(f, p)) <= Abs(x - Mag(f, 0));
    assert FS.Value(f, w) == Mag(f, q) || FS.Value(f, w) == -Mag(f, q);
  }

  // ---- the law ----

  lemma ZeroMag(f: Fmt)
    ensures Mag(f, 0) == 0.0
  {
  }

  /** Whatever the exact result, the delivered word is what the mode, by its name, asks for. */
  lemma RoundsRight(f: Fmt, rm: Mode, s: real, zeroNeg: bool)
    ensures Rounds(f, rm, s, FS.RoundExact(f, rm, s, zeroNeg).bits)
  {
    hide Mag, Pow2, P2, Largest, Beyond, SignBit, Format.Inf, FS.SignOf, FS.BitsOf, FS.ExpOf, FS.MantOf, FS.Value,
      FS.IsWord, FS.IsFinite, FS.IsNaN, FS.IsInf, NoneAbove, NoneBelow, Closer;
    var neg, x := if s == 0.0 then zeroNeg else s < 0.0, Abs(s);
    var p := Rounded(f, rm, neg, x);
    var d := Delivered(f, rm, neg, x);
    assert FS.RoundExact(f, rm, s, zeroNeg).bits == SignBit(f, neg) + d;
    WordIs(f, neg, d);
    Even(f, neg, d);
    if Nearest(rm) {
      NearestTop(f, rm, neg, x, p);
      if p < f.Inf() {
        forall w: nat | IsNumber(f, w)
          ensures Closer(s, FS.Value(f, SignBit(f, neg) + d), FS.Value(f, w),
                         if rm.RNE? then d % 2 == 0 else Abs(FS.Value(f, w)) < Abs(FS.Value(f, SignBit(f, neg) + d)))
        {
          SignedNear(f, rm, neg, x, p, w);
        }
      }
    } else {
      Directed(f, rm, neg, s, x, p, d);
    }
  }

  lemma Even(f: Fmt, neg: bool, d: nat)
    ensures (SignBit(f, neg) + d) % 2 == d % 2
  {
    Pow2Succ(f.Size() - 2);
    hide Pow2;
  }

  lemma Directed(f: Fmt, rm: Mode, neg: bool, s: real, x: real, p: nat, d: nat)
    requires !Nearest(rm) && x == Abs(s) && (s != 0.0 ==> (neg <==> s < 0.0))
    requires IsRounding(f, rm, neg, x, p) && d == if p < f.Inf() then p else OverflowBits(f, rm, neg)
    ensures d == f.Inf() <==> BecomesInfinite(f, rm, s)
    ensures d <= f.Inf()
    ensures d < f.Inf() ==>
              var v := if neg then -Mag(f, d) else Mag(f, d);
              match rm
              case RTZ => if s >= 0.0 then v <= s && NoneAbove(f, s, v) else s <= v && NoneBelow(f, s, v)
              case RDN => v <= s && NoneAbove(f, s, v)
              case RUP => s <= v && NoneBelow(f, s, v)
              case _ => true
  {
    hide Mag, Pow2, P2, Largest, Format.Inf, NoneAbove, NoneBelow;
    Tops(f);
    FS.MagNonneg(f, f.Inf() - 1);
    ZeroMag(f);
    var down := rm.RTZ? || (rm.RDN? && !neg) || (rm.RUP? && neg);
    if down {
      Downward(f, x, p, d);
      SignedDown(f, neg, x, d);
      if s == 0.0 {
        SignedDown(f, !neg, x, d);
      }
    } else {
      Upward(f, x, p);
      if p < f.Inf() {
        SignedUp(f, neg, x, p);
        if s == 0.0 {
          SignedUp(f, !neg, x, p);
        }
      }
    }
  }

  // ---- flags ----

  /** When overflow is signalled: the result, rounded as though the exponent had no limit, is too large. */
  ghost predicate TooLarge(f: Fmt, rm: Mode, s: real)
  {
    match rm
    case RTZ => Beyond(f) <= Abs(s)
    case RDN => s < -Largest(f) || Beyond(f) <= s
    case RUP => Largest(f) < s || s <= -Beyond(f)
    case RNE => HalfWay(f) <= Abs(s)
    case RMM => HalfWay(f) <= Abs(s)
  }

  /** The least normal value. */
  ghost function Least(f: Fmt): real { P2(2 - Pow2(f.esize - 1)) }

  /** The flags an exact result `s` raises when it is delivered as `r`. Underflow is certain if the result is below the
      least normal value and not exact, and excluded if the exact result is not below it. */
  ghost predicate Flags(f: Fmt, rm: Mode, s: real, r: nat, raised: set<Flag>)
  {
    raised <= {Overflow, Underflow, Inexact} &&
    (Overflow in raised <==> TooLarge(f, rm, s)) &&
    (Inexact in raised <==> FS.IsInf(f, r) || FS.Value(f, r) != s) &&
    (Underflow in raised ==> Inexact in raised && Abs(s) < Least(f)) &&
    (FS.IsFinite(f, r) && FS.Value(f, r) != s && Abs(FS.Value(f, r)) < Least(f) ==> Underflow in raised)
  }

  lemma LeastIs(f: Fmt)
    ensures MinNormal(f) == Least(f)
  {
    Pow2Succ(f.esize - 1);
    hide Pow2, P2, Mag;
    MinNormalIs(f);
    P2Nat(f.msize);
    P2Add(f.msize, f.UnitExp());
  }

  /** Rounding does not cross a magnitude the format has. */
  lemma StaysAbove(f: Fmt, rm: Mode, neg: bool, y: real, p: nat, g: nat)
    requires IsRounding(f, rm, neg, y, p) && Mag(f, g) <= y
    ensures Mag(f, g) <= Mag(f, p)
  {
    hide Mag;
    MagOrder(f, p, g);
    assert Nearest(rm) ==> Abs(y - Mag(f, p)) <= Abs(y - Mag(f, g));
  }

  lemma TinyBelow(f: Fmt, rm: Mode, neg: bool, x: real)
    requires x >= 0.0 && Tiny(f, rm, neg, x)
    ensures x < MinNormal(f)
  {
    hide Mag, P2, Pow2, IsRounding, MinNormal, Format.UnitExp;
    var k: nat :| TinyScaled(f, rm, neg, x, P2(k));
    var y := x * P2(k);
    if x >= MinNormal(f) {
      RealMulOrder(x, MinNormal(f), P2(k));
      ScaledLeast(f, k);
      TinyScaledIs(f, rm, neg, x, P2(k), y);
      StaysAbove(f, rm, neg, y, Rounded(f, rm, neg, y), k * Pow2(f.msize) + Pow2(f.msize));
    }
  }

  lemma ScaledLeast(f: Fmt, k: nat)
    ensures Mag(f, k * Pow2(f.msize) + Pow2(f.msize)) == MinNormal(f) * P2(k)
  {
    hide Mag, P2, Pow2, MinNormal, Format.UnitExp;
    MinNormalIs(f);
    GridMag(f, k + 1, Pow2(f.msize));
    P2Add(f.UnitExp(), k);
    MulAssoc(Pow2(f.msize) as real, P2(f.UnitExp()), P2(k));
  }

  /** A power of two that brings a positive number into the normal range. */
  lemma Reach(x: real, m: real) returns (k: nat)
    requires x > 0.0 && m > 0.0
    ensures m <= x * P2(k)
  {
    var n := (m / x).Floor + 1;
    assert (m / x) * x == m;
    k := n;
    PowerAtLeast(n);
    P2Nat(n);
    RealMulOrder(m / x, P2(n), x);
  }

  lemma {:induction false} PowerAtLeast(n: nat)
    ensures Pow2(n) > n
  {
    if n > 0 {
      PowerAtLeast(n - 1);
      Pow2Succ(n - 1);
    }
  }

  /** A positive number lies somewhere in a binade, which may be below the format's. */
  lemma Normalized(f: Fmt, x: real) returns (e: int, n: nat, pos: Position)
    requires x > 0.0
    ensures Pow2(f.msize) <= n < 2 * Pow2(f.msize) && Located(x, n, P2(e - 1 + f.UnitExp()), pos)
  {
    hide Mag, P2, Pow2, Within, Format.UnitExp;
    MinNormalIs(f);
    RealMulOrder(0.0, Pow2(f.msize) as real, P2(f.UnitExp()));
    var k := Reach(x, MinNormal(f));
    RealMulOrder(0.0, x, P2(k));
    var y := x * P2(k);
    var lo;
    lo, pos := Neighbours(f, y);
    WithinBounds(y - Mag(f, lo), Mag(f, lo + 1) - Mag(f, lo), pos);
    MagOrder(f, lo + 1, Pow2(f.msize));
    var e', q := Decompose(f, lo);
    assert (1 - 1) * Pow2(f.msize) == 0;
    GridMag(f, e', q);
    GridMag(f, e', q + 1);
    e, n := e' - k, q;
    var s := P2(e' - 1 + f.UnitExp());
    assert (q + 1) as real * s == q as real * s + s;
    assert lo + 1 == (e' - 1) * Pow2(f.msize) + (q + 1) && Mag(f, lo + 1) - Mag(f, lo) == s;
    assert y - Mag(f, lo) == y - q as real * s;
    P2Add(e' - 1 + f.UnitExp(), -k);
    P2Add(k, -k);
    P2Zero();
    MulAssoc(x, P2(k), P2(-k));
    LocatedScale(y, q, s, pos, P2(-k), x, P2(e - 1 + f.UnitExp()));
  }

  lemma P2Zero()
    ensures P2(0) == 1.0
  {
  }

  lemma WithinBounds(d: real, s: real, pos: Position)
    requires s > 0.0 && Within(d, s, pos)
    ensures 0.0 <= d < s
  {
  }

  /** A result below the normal range that is not exact is tiny, however it is rounded. */
  lemma BelowTiny(f: Fmt, rm: Mode, neg: bool, x: real, p: nat)
    requires x > 0.0 && IsRounding(f, rm, neg, x, p) && Mag(f, p) < MinNormal(f) && Mag(f, p) != x
    ensures Tiny(f, rm, neg, x)
  {
    hide Mag, P2, Pow2, IsRounding, Located, Pick, Tiny, Format.UnitExp;
    var m := Pow2(f.msize);
    if x >= MinNormal(f) {
      StaysAbove(f, rm, neg, x, p, m);
    }
    hide MinNormal;
    var e, n, pos := Normalized(f, x);
    TinyIff(f, rm, neg, x, e, n, pos);
    var s := P2(e - 1 + f.UnitExp());
    LocatedBounds(x, n, s, pos);
    MinNormalIs(f);
    LowExponent(m, n, e, s, x, f.UnitExp());
    PickNear(rm, neg, n, pos);
    if Pick(rm, neg, n, pos) as real * s >= MinNormal(f) {
      AtTop(f, e, n, Pick(rm, neg, n, pos), s);
      LastStep(f, rm, neg, x, n, s, pos, p);
    }
  }

  lemma LowExponent(m: nat, n: nat, e: int, s: real, x: real, u: int)
    requires s == P2(e - 1 + u) && m <= n && m > 0 && n as real * s <= x < m as real * P2(u)
    ensures e <= 0
  {
    hide P2;
    if e >= 1 {
      P2Mono(u, e - 1 + u);
      ProductMono(m as real, n as real, P2(u), s);
    }
  }

  /** Only the last significand of the binade just below can round up to the least normal value. */
  lemma AtTop(f: Fmt, e: int, n: nat, q: nat, s: real)
    requires e <= 0 && n < 2 * Pow2(f.msize) && q <= n + 1 && s == P2(e - 1 + f.UnitExp())
    requires q as real * s >= Pow2(f.msize) as real * P2(f.UnitExp())
    ensures e == 0 && n == 2 * Pow2(f.msize) - 1 && q == n + 1 && 2.0 * s == P2(f.UnitExp())
  {
    hide P2, Pow2, Format.UnitExp;
    var m, u := Pow2(f.msize), P2(f.UnitExp());
    P2Succ(f.UnitExp() - 1);
    var h := P2(f.UnitExp() - 1);
    DoubleMove(m as real, h);
    assert (2 * m) as real == 2.0 * m as real;
    P2Succ(f.UnitExp() - 2);
    RealMulOrder(P2(f.UnitExp() - 2), h, (2 * m) as real);
    Commute((2 * m) as real, P2(f.UnitExp() - 2), h);
    if e < 0 {
      P2Mono(e - 1 + f.UnitExp(), f.UnitExp() - 2);
      ProductMono(q as real, (2 * m) as real, s, P2(f.UnitExp() - 2));
    } else {
      RealMulOrder(q as real, (2 * m) as real, h);
    }
  }

  lemma Commute(a: real, b: real, c: real)
    ensures a * b == b * a && a * c == c * a
  {
  }

  /** There, the coarser grid of the format rounds up as well. */
  lemma LastStep(f: Fmt, rm: Mode, neg: bool, x: real, n: nat, s: real, pos: Position, p: nat)
    requires n == 2 * Pow2(f.msize) - 1 && 2.0 * s == P2(f.UnitExp()) && s > 0.0 && Located(x, n, s, pos)
    requires Pick(rm, neg, n, pos) == n + 1 && IsRounding(f, rm, neg, x, p)
    ensures Mag(f, p) == MinNormal(f)
  {
    hide Mag, P2, Pow2, MinNormal, IsRounding, Format.UnitExp;
    var m := Pow2(f.msize);
    assert Located(x, m - 1, 2.0 * s, AboveHalf) by {
      hide Pick;
      Coarser(x, m, n, s, pos);
    }
    assert f.UnitExp() == 1 - 1 + f.UnitExp();
    RoundingAt(f, rm, neg, x, 1, m - 1, AboveHalf);
    assert (1 - 1) * m == 0;
    RoundingUnique(f, rm, neg, x, p, Pick(rm, neg, m - 1, AboveHalf));
    MinNormalIs(f);
  }

  lemma Coarser(x: real, m: nat, n: nat, s: real, pos: Position)
    requires m > 0 && n == 2 * m - 1 && s > 0.0 && Located(x, n, s, pos) && pos != OnGrid
    ensures Located(x, m - 1, 2.0 * s, AboveHalf)
  {
    WithinBounds(x - n as real * s, s, pos);
    var d := x - n as real * s;
    assert n as real * s == (m - 1) as real * (2.0 * s) + s;
  }

  /** The flags are those the exact result asks for. */
  lemma FlagsRight(f: Fmt, rm: Mode, s: real, zeroNeg: bool)
    ensures var o := FS.RoundExact(f, rm, s, zeroNeg); Flags(f, rm, s, o.bits, o.raised)
  {
    hide Mag, Pow2, P2, Largest, Beyond, Least, SignBit, Format.Inf, FS.SignOf, FS.BitsOf, FS.ExpOf, FS.MantOf,
      FS.Value, FS.IsFinite, FS.IsInf, Tiny, IsRounding, MinNormal, TooLarge;
    var neg, x := if s == 0.0 then zeroNeg else s < 0.0, Abs(s);
    var p, d := Rounded(f, rm, neg, x), Delivered(f, rm, neg, x);
    WordIs(f, neg, d);
    LeastIs(f);
    TooLargeIs(f, rm, neg, s, x, p);
    ZeroMag(f);
    FS.MagNonneg(f, d);
    Tops(f);
    MagOrder(f, d, f.Inf() - 1);
    LeastFinite(f);
    TinyBounds(f, rm, neg, x, p);
  }

  lemma TinyBounds(f: Fmt, rm: Mode, neg: bool, x: real, p: nat)
    requires x >= 0.0 && IsRounding(f, rm, neg, x, p)
    ensures Tiny(f, rm, neg, x) ==> x < MinNormal(f)
    ensures Mag(f, p) != x && Mag(f, p) < MinNormal(f) ==> Tiny(f, rm, neg, x)
  {
    hide Mag, Pow2, P2, Tiny, IsRounding, MinNormal;
    if Tiny(f, rm, neg, x) {
      TinyBelow(f, rm, neg, x);
    }
    if x == 0.0 {
      RoundZero(f, rm, neg, p);
    } else if Mag(f, p) != x && Mag(f, p) < MinNormal(f) {
      BelowTiny(f, rm, neg, x, p);
    }
  }

  lemma LeastFinite(f: Fmt)
    ensures MinNormal(f) <= Largest(f)
  {
    hide Mag, P2;
    Tops(f);
    hide Largest;
    TopExponents(f);
    MulOrder(2, f.ExpMask(), Pow2(f.msize));
    hide Pow2, Format.ExpMask;
    MagOrder(f, f.Inf() - 1, Pow2(f.msize));
  }

  lemma RoundZero(f: Fmt, rm: Mode, neg: bool, p: nat)
    requires IsRounding(f, rm, neg, 0.0, p)
    ensures Mag(f, p) == 0.0
  {
    hide Mag;
    ZeroMag(f);
    FS.MagNonneg(f, p);
    assert Nearest(rm) ==> Abs(0.0 - Mag(f, p)) <= Abs(0.0 - Mag(f, 0));
    MagOrder(f, 0, p);
  }

  lemma TooLargeIs(f: Fmt, rm: Mode, neg: bool, s: real, x: real, p: nat)
    requires x == Abs(s) && (s != 0.0 ==> (neg <==> s < 0.0)) && IsRounding(f, rm, neg, x, p)
    ensures p >= f.Inf() <==> TooLarge(f, rm, s)
    ensures p >= f.Inf() ==> x > Largest(f)
  {
    hide Mag, Pow2, P2, Largest, Beyond, Format.Inf;
    Tops(f);
    FS.MagNonneg(f, f.Inf() - 1);
    if Nearest(rm) {
      NearestTop(f, rm, neg, x, p);
    } else if rm.RTZ? || (rm.RDN? && !neg) || (rm.RUP? && neg) {
      MagOrder(f, p, f.Inf());
    } else {
      Upward(f, x, p);
    }
  }
}
