/** Addition: align with three extra bits and a sticky bit, add or subtract, normalize, round once. */
module AddSf {
  import opened Powers
  import opened Sticky
  import opened Ieee
  import opened RoundPack
  import opened Normalize
  import opened OperationLaws
  import FS = FloatSpec

  /** The larger operand has the larger exponent. */
  lemma ScaleOrder(f: Fmt, a: nat, b: nat)
    requires FS.IsWord(f, a) && FS.IsWord(f, b) && FS.BitsOf(f, a) >= FS.BitsOf(f, b)
    ensures FS.ScaleOf(f, a) >= FS.ScaleOf(f, b)
    ensures FS.ScaleOf(f, a) > FS.ScaleOf(f, b) ==> FS.SigOf(f, a) >= Pow2(f.msize)
  {
    hide Pow2, FS.BitsOf, FS.ExpOf, FS.MantOf;
    FS.Fields(f, a);
    FS.Fields(f, b);
    if FS.ExpOf(f, a) < FS.ExpOf(f, b) {
      FS.FieldBound(FS.ExpOf(f, a), FS.MantOf(f, a), FS.ExpOf(f, b), Pow2(f.msize));
    }
  }

  /** The aligned smaller significand: exact at small distances, sticky beyond. */
  lemma Aligned(f: Fmt, sb: nat, d: nat, bm: nat, zb: real)
    requires sb < 2 * Pow2(f.msize) && 8 * sb < Pow2(f.Size()) && bm == RshiftRnd(f, 8 * sb, d)
    requires zb == (8 * sb) as real * P2(0 - d)
    ensures Jam(zb, bm, 2)
    ensures d <= 1 ==> zb == bm as real
    ensures d >= 2 ==> bm < 4 * Pow2(f.msize)
    ensures zb >= 0.0
  {
    hide Jam, Pow2, P2, Quot, Rem, OrBit, RshiftRnd;
    Unscale((8 * sb) as real, d, zb);
    AlignedJam(8 * sb, Pow2(d), zb);
    if d <= 1 {
      AlignedNear(sb, d, bm, zb);
    } else {
      AlignedFar(sb, d, bm, 4 * Pow2(f.msize));
    }
  }

  lemma Unscale(v: real, d: nat, z: real)
    requires v >= 0.0 && z == v * P2(0 - d)
    ensures z >= 0.0 && z * Pow2(d) as real == v
  {
    hide Pow2, P2;
    P2Nat(d);
    P2Nat(0);
    Pow2Succ(0);
    P2Add(0 - d, d);
    MulAssoc(v, P2(0 - d), P2(d));
    if z < 0.0 {
      RealMulOrder(z, 0.0, P2(d));
    }
  }

  lemma AlignedJam(v: nat, p: nat, z: real)
    requires p > 0 && z * p as real == v as real
    ensures Jam(z, OrBit(Quot(v, p), Rem(v, p) != 0), 2)
  {
    hide Jam, Quot, Rem, OrBit;
    JamExact(v, 2 * p);
    JamShift(v as real, v, 2, p, z);
  }

  lemma AlignedNear(sb: nat, d: nat, bm: nat, zb: real)
    requires d <= 1 && bm == OrBit(Quot(8 * sb, Pow2(d)), Rem(8 * sb, Pow2(d)) != 0)
    requires zb * Pow2(d) as real == (8 * sb) as real
    ensures zb == bm as real
  {
    Pow2Succ(0);
    hide Pow2, Quot, Rem;
    if d == 0 {
      QuotRemUnique(8 * sb, 1, 8 * sb, 0);
    } else {
      QuotRemUnique(8 * sb, 2, 4 * sb, 0);
    }
  }

  lemma AlignedFar(sb: nat, d: nat, bm: nat, c: nat)
    requires d >= 2 && 2 * sb < c && c % 4 == 0
    requires bm == OrBit(Quot(8 * sb, Pow2(d)), Rem(8 * sb, Pow2(d)) != 0)
    ensures bm < c
  {
    Pow2Mono(2, d);
    assert Pow2(2) == 4;
    hide Pow2, Quot, Rem;
    var p := Pow2(d);
    MulAtLeast(c, p);
    MulOrder(4, p, c);
    QuotBounds(8 * sb, p, c);
  }

  /** Three extra bits turn a magnitude into a word and a scale. */
  lemma ThreeBits(f: Fmt, w: nat, e: int, d: int, z: real, s: real)
    requires FS.IsWord(f, w) && d == e - FS.ScaleOf(f, w)
    requires z == (8 * FS.SigOf(f, w)) as real * P2(0 - d) && s == P2(e - 4 + f.UnitExp())
    ensures Mag(f, FS.BitsOf(f, w)) == z * s
  {
    hide Pow2, P2, Mag, FS.BitsOf, FS.SigOf, FS.ScaleOf, Format.UnitExp;
    var u, n := e - 4 + f.UnitExp(), FS.SigOf(f, w);
    FS.FiniteValue(f, w);
    P2Add(0 - d, u);
    TimesEight(0 - d + u);
    assert P2(FS.ScaleOf(f, w) - 1 + f.UnitExp()) == P2(0 - d + u + 3);
    EightMove(n, P2(0 - d + u));
    MulAssoc((8 * n) as real, P2(0 - d), P2(u));
  }

  lemma TimesEight(k: int)
    ensures P2(k + 3) == 8.0 * P2(k)
  {
    hide P2;
    P2Succ(k);
    P2Succ(k + 1);
    P2Succ(k + 2);
  }

  lemma EightMove(s: nat, p: real)
    ensures s as real * (8.0 * p) == (8 * s) as real * p
  {
  }

  lemma Unshifted(n: nat, z: real)
    requires z == n as real
    ensures z == n as real * P2(0 - 0)
  {
  }

  lemma ExactSum(f: Fmt, a: nat, b: nat, same: bool, d: int, za: real, zb: real, z: real, s: real, x: real)
    requires FS.IsWord(f, a) && FS.IsWord(f, b) && FS.BitsOf(f, a) >= FS.BitsOf(f, b)
    requires d == FS.ScaleOf(f, a) - FS.ScaleOf(f, b)
    requires za == (8 * FS.SigOf(f, a)) as real && zb == (8 * FS.SigOf(f, b)) as real * P2(0 - d) && zb >= 0.0
    requires z == (if same then za + zb else za - zb)
    requires s == P2(FS.ScaleOf(f, a) - 4 + f.UnitExp())
    requires x == (if same then Mag(f, FS.BitsOf(f, a)) + Mag(f, FS.BitsOf(f, b))
                           else Mag(f, FS.BitsOf(f, a)) - Mag(f, FS.BitsOf(f, b)))
    ensures x >= 0.0 && x == z * s && zb <= za
  {
    hide Pow2, P2, Mag, FS.BitsOf, FS.SigOf, FS.ScaleOf, Format.UnitExp;
    Unshifted(8 * FS.SigOf(f, a), za);
    ThreeBits(f, a, FS.ScaleOf(f, a), 0, za, s);
    ThreeBits(f, b, FS.ScaleOf(f, a), d, zb, s);
    MagOrder(f, FS.BitsOf(f, a), FS.BitsOf(f, b));
    SumScaled(za, zb, s, same, z, x);
  }

  /** The word formed from the aligned significands stands for the exact sum or difference. */
  lemma AlignedSum(f: Fmt, a: nat, b: nat, same: bool, d: nat, bm: nat, m: int, za: real, zb: real, z: real, s: real,
                   x: real)
    requires FS.IsWord(f, a) && FS.IsWord(f, b) && FS.BitsOf(f, a) >= FS.BitsOf(f, b)
    requires d == FS.ScaleOf(f, a) - FS.ScaleOf(f, b)
    requires 8 * FS.SigOf(f, b) < Pow2(f.Size()) && bm == RshiftRnd(f, 8 * FS.SigOf(f, b), d)
    requires za == (8 * FS.SigOf(f, a)) as real && zb == (8 * FS.SigOf(f, b)) as real * P2(0 - d)
    requires z == (if same then za + zb else za - zb)
    requires m == (if same then 8 * FS.SigOf(f, a) + bm else 8 * FS.SigOf(f, a) - bm)
    requires s == P2(FS.ScaleOf(f, a) - 4 + f.UnitExp())
    requires x == (if same then Mag(f, FS.BitsOf(f, a)) + Mag(f, FS.BitsOf(f, b))
                           else Mag(f, FS.BitsOf(f, a)) - Mag(f, FS.BitsOf(f, b)))
    ensures x >= 0.0 && x == z * s
    ensures m >= 0 && (m == 0 <==> z == 0.0)
    ensures Faithful(f, z, m, 1)
    ensures m < 32 * Pow2(f.msize)
  {
    hide Jam, Pow2, P2, Mag, RshiftRnd, Faithful, FS.BitsOf, FS.ExpOf, FS.MantOf, FS.SigOf, FS.ScaleOf, Format.UnitExp;
    ScaleOrder(f, a, b);
    Aligned(f, FS.SigOf(f, b), d, bm, zb);
    ExactSum(f, a, b, same, d, za, zb, z, s, x);
    SumJam(f, FS.SigOf(f, a), za, zb, bm, d, same, m, z);
  }

  lemma SumScaled(p: real, q: real, s: real, same: bool, z: real, x: real)
    requires s > 0.0 && p >= 0.0 && q >= 0.0 && q * s <= p * s
    requires z == (if same then p + q else p - q)
    requires x == (if same then p * s + q * s else p * s - q * s)
    ensures x == z * s && z >= 0.0 && x >= 0.0 && q <= p
  {
    RealMulOrder(p, q, s);
    RealMulOrder(0.0, p, s);
    RealMulOrder(0.0, q, s);
    RealMulOrder(0.0, z, s);
    RealMulOrder(z, 0.0, s);
  }

  lemma SumJam(f: Fmt, sa: nat, za: real, zb: real, bm: nat, d: nat, same: bool, m: int, z: real)
    requires za == (8 * sa) as real
    requires Jam(zb, bm, 2) && 0.0 <= zb <= za && sa < 2 * Pow2(f.msize)
    requires d <= 1 ==> zb == bm as real
    requires d >= 2 ==> bm < 4 * Pow2(f.msize) && sa >= Pow2(f.msize)
    requires m == (if same then 8 * sa + bm else 8 * sa - bm)
    requires z == (if same then za + zb else za - zb)
    ensures m >= 0 && (m == 0 <==> z == 0.0) && m < 32 * Pow2(f.msize)
    ensures Faithful(f, z, m, 1)
  {
    Pow2Succ(f.msize);
    Pow2Succ(f.msize + 1);
    Pow2Succ(0);
    hide Pow2;
    if same {
      JamAdd(zb, bm, 2, 8 * sa);
    } else {
      JamSub(zb, bm, 2, 8 * sa);
    }
  }

  // ---- the operation ----

  lemma AddSpecSymmetric(f: Fmt, a: nat, b: nat, rm: Mode)
    ensures FS.AddSpec(f, a, b, rm) == FS.AddSpec(f, b, a, rm)
  {
    hide Pow2, FS.SignOf, FS.ExpOf, FS.MantOf, FS.RoundExact, FS.Value;
    assert FS.Value(f, a) + FS.Value(f, b) == FS.Value(f, b) + FS.Value(f, a);
  }

  /** The sign and magnitude of a finite sum, larger magnitude first. */
  lemma FiniteSum(f: Fmt, a: nat, b: nat, rm: Mode, neg: bool, x: real)
    requires FS.IsWord(f, a) && FS.IsWord(f, b) && FS.BitsOf(f, a) >= FS.BitsOf(f, b)
    requires FS.IsFinite(f, a) && FS.IsFinite(f, b)
    requires var same := FS.SignOf(f, a) == FS.SignOf(f, b);
             x == (if same then Mag(f, FS.BitsOf(f, a)) + Mag(f, FS.BitsOf(f, b))
                           else Mag(f, FS.BitsOf(f, a)) - Mag(f, FS.BitsOf(f, b))) &&
             neg == if !same && x == 0.0 then rm.RDN? else FS.SignOf(f, a)
    requires x >= 0.0
    ensures FS.AddSpec(f, a, b, rm) == FS.Outcome(IeeeBits(f, rm, neg, x), RoundFlags(f, rm, neg, x))
  {
    hide Pow2, Mag, IeeeBits, RoundFlags, FS.SignOf, FS.BitsOf, FS.ExpOf, FS.MantOf;
    FS.MagNonneg(f, FS.BitsOf(f, a));
    FS.MagNonneg(f, FS.BitsOf(f, b));
  }

  lemma MantFits(f: Fmt)
    ensures 32 * Pow2(f.msize) <= Pow2(f.Size() - 1)
    ensures Pow2(f.msize + 3) == 8 * Pow2(f.msize)
    ensures 32 * Pow2(f.msize) < Pow2(f.Size())
  {
    Pow2Add(f.msize, 5);
    Pow2Add(f.msize, 3);
    assert Pow2(5) == 32 && Pow2(3) == 8;
    Pow2Mono(f.msize + 5, f.Size() - 1);
    Pow2Succ(f.Size() - 1);
  }

  method Add(f: Fmt, a0: nat, b0: nat, rm: Mode, fl0: set<Flag>) returns (r: nat, fl: set<Flag>)
    requires FS.IsWord(f, a0) && FS.IsWord(f, b0)
    ensures r == FS.AddSpec(f, a0, b0, rm).bits
    ensures fl == fl0 + FS.AddSpec(f, a0, b0, rm).raised
    ensures SumDelivered(f, a0, b0, rm, r, FS.AddSpec(f, a0, b0, rm).raised)
  {
    SumLaw(f, a0, b0, rm);
    hide SumDelivered;
    hide Jam, Pow2, P2, Mag, RshiftRnd, Faithful, IeeeBits, RoundFlags, FS.SignOf, FS.BitsOf, FS.ExpOf, FS.MantOf,
      FS.AddSpec, FS.IsSignanSf, Format.UnitExp, Format.ExpMask, Format.Inf;
    var a, b := a0, b0;
    if FS.BitsOf(f, a) < FS.BitsOf(f, b) {
      a, b := b, a;
    }
    AddSpecSymmetric(f, a0, b0, rm);
    var aSign, bSign := FS.SignOf(f, a), FS.SignOf(f, b);
    var aExp, bExp := FS.ExpOf(f, a), FS.ExpOf(f, b);
    var aMant, bMant := 8 * FS.MantOf(f, a), 8 * FS.MantOf(f, b);
    if aExp == f.ExpMask() {
      SpecialSum(f, a, b, rm);
      if aMant != 0 {
        fl := fl0;
        if !(aMant >= 8 * Pow2(f.msize - 1)) || FS.IsSignanSf(f, b) {
          fl := fl + {InvalidOp};
        }
        return FS.QNaN(f), fl;
      } else if bExp == f.ExpMask() && aSign != bSign {
        return FS.QNaN(f), fl0 + {InvalidOp};
      } else {
        return a, fl0;
      }
    }
    MantFits(f);
    if aExp == 0 {
      aExp := 1;
    } else {
      aMant := aMant + Pow2(f.msize + 3);
    }
    if bExp == 0 {
      bExp := 1;
    } else {
      bMant := bMant + Pow2(f.msize + 3);
    }
    FS.LargerClass(f, a, b);
    ScaleOrder(f, a, b);
    bMant := RshiftRnd(f, bMant, aExp - bExp);
    ghost var z, x := ReadyToRound(f, a, b, rm, bMant, if aSign == bSign then aMant + bMant else aMant - bMant);
    if aSign == bSign {
      aMant := aMant + bMant;
    } else {
      aMant := aMant - bMant;
      if aMant == 0 {
        aSign := rm.RDN?;
      }
    }
    r, fl := NormalizeSf(f, aSign, aExp + f.RndSize() - 3, aMant, rm, fl0, z, 1, x);
  }

  /** What is handed on to be normalized stands for the exact sum. */
  lemma ReadyToRound(f: Fmt, a: nat, b: nat, rm: Mode, bm: nat, m: int) returns (z: real, x: real)
    requires FS.IsWord(f, a) && FS.IsWord(f, b) && FS.BitsOf(f, a) >= FS.BitsOf(f, b)
    requires FS.IsFinite(f, a) && FS.IsFinite(f, b) && FS.ScaleOf(f, a) >= FS.ScaleOf(f, b)
    requires 8 * FS.SigOf(f, b) < Pow2(f.Size())
    requires bm == RshiftRnd(f, 8 * FS.SigOf(f, b), FS.ScaleOf(f, a) - FS.ScaleOf(f, b))
    requires m == (if FS.SignOf(f, a) == FS.SignOf(f, b) then 8 * FS.SigOf(f, a) + bm else 8 * FS.SigOf(f, a) - bm)
    ensures 0 <= m < Pow2(f.Size() - 1) && Faithful(f, z, m, 1) && x >= 0.0
    ensures x == z * P2(FS.ScaleOf(f, a) + f.RndSize() - 3 - 1 - f.RndSize() + f.UnitExp())
    ensures var neg := if FS.SignOf(f, a) != FS.SignOf(f, b) && m == 0 then rm.RDN? else FS.SignOf(f, a);
            FS.AddSpec(f, a, b, rm) == FS.Outcome(IeeeBits(f, rm, neg, x), RoundFlags(f, rm, neg, x))
  {
    hide Jam, Pow2, P2, Mag, RshiftRnd, Faithful, IeeeBits, RoundFlags, FS.SignOf, FS.BitsOf, FS.ExpOf, FS.MantOf,
      FS.AddSpec, FS.SigOf, FS.ScaleOf, Format.UnitExp;
    var same, d := FS.SignOf(f, a) == FS.SignOf(f, b), FS.ScaleOf(f, a) - FS.ScaleOf(f, b);
    var za, zb := (8 * FS.SigOf(f, a)) as real, (8 * FS.SigOf(f, b)) as real * P2(0 - d);
    z := if same then za + zb else za - zb;
    x := if same then Mag(f, FS.BitsOf(f, a)) + Mag(f, FS.BitsOf(f, b))
         else Mag(f, FS.BitsOf(f, a)) - Mag(f, FS.BitsOf(f, b));
    var s := P2(FS.ScaleOf(f, a) - 4 + f.UnitExp());
    AlignedSum(f, a, b, same, d, bm, m, za, zb, z, s, x);
    MantFits(f);
    assert x == 0.0 <==> m == 0 by {
      RealMulOrder(z, 0.0, s);
    }
    FiniteSum(f, a, b, rm, if !same && m == 0 then rm.RDN? else FS.SignOf(f, a), x);
  }

  lemma SpecialSum(f: Fmt, a: nat, b: nat, rm: Mode)
    requires FS.IsWord(f, a) && FS.IsWord(f, b) && FS.BitsOf(f, a) >= FS.BitsOf(f, b)
    requires FS.ExpOf(f, a) == f.ExpMask()
    ensures FS.AddSpec(f, a, b, rm) ==
      if FS.MantOf(f, a) != 0 then
        FS.Propagate(f, FS.MantOf(f, a) < Pow2(f.msize - 1) || FS.IsSignanSf(f, b))
      else if FS.ExpOf(f, b) == f.ExpMask() && FS.SignOf(f, a) != FS.SignOf(f, b) then FS.Invalid(f)
      else FS.Outcome(a, {})
  {
    hide Pow2, FS.SignOf, FS.BitsOf, FS.ExpOf, FS.MantOf, FS.RoundExact, FS.IsSignanSf, Format.ExpMask;
    FS.SignanIsSignaling(f, b);
    FS.LargerClass(f, a, b);
    FS.Fields(f, a);
    FS.Fields(f, b);
  }
}
