/** What the operations do with infinities, NaNs and zero divisors, by the classes of the words they take and return
    (IEEE 754-2019, sections 6.1, 6.2, 7.2 and 7.3). */
module SpecialLaws {
  import opened Powers
  import opened Sticky
  import opened Ieee
  import opened RoundPack
  import opened RoundingLaws
  import FS = FloatSpec

  /** A quiet NaN, with the invalid flag or without any. */
  ghost predicate IsQuiet(f: Fmt, o: FS.Outcome, invalid: bool)
  {
    FS.IsNaN(f, o.bits) && !FS.IsSignaling(f, o.bits) && o.raised == if invalid then {InvalidOp} else {}
  }

  ghost predicate IsInfinity(f: Fmt, o: FS.Outcome, neg: bool, raised: set<Flag>)
  {
    FS.IsInf(f, o.bits) && FS.SignOf(f, o.bits) == neg && o.raised == raised
  }

  lemma QuietWord(f: Fmt)
    ensures FS.IsNaN(f, FS.QNaN(f)) && !FS.IsSignaling(f, FS.QNaN(f))
  {
    hide Quot, Rem, Pow2;
    var h, m := Pow2(f.msize - 1), Pow2(f.msize);
    Pow2Succ(f.msize - 1);
    QuotRemUnique(FS.QNaN(f), m, f.ExpMask(), h);
    QuotRemUnique(f.ExpMask(), Pow2(f.esize), 0, f.ExpMask());
  }

  lemma InfiniteWord(f: Fmt, neg: bool)
    ensures var w := SignBit(f, neg) + f.Inf(); FS.IsInf(f, w) && FS.SignOf(f, w) == neg
  {
    hide FS.IsInf, FS.SignOf, SignBit, FS.Value, FS.IsFinite, FS.IsNaN, FS.BitsOf, Format.Inf;
    WordIs(f, neg, f.Inf());
  }

  lemma SumSpecials(f: Fmt, a: nat, b: nat, rm: Mode)
    ensures var o, x, y := FS.AddSpec(f, a, b, rm), FS.SignOf(f, a), FS.SignOf(f, b);
            (FS.IsNaN(f, a) || FS.IsNaN(f, b) ==> IsQuiet(f, o, FS.IsSignaling(f, a) || FS.IsSignaling(f, b))) &&
            (FS.IsInf(f, a) && FS.IsInf(f, b) && x != y ==> IsQuiet(f, o, true)) &&
            (FS.IsInf(f, a) && FS.IsInf(f, b) && x == y ==> IsInfinity(f, o, x, {})) &&
            (FS.IsInf(f, a) && FS.IsFinite(f, b) ==> IsInfinity(f, o, x, {})) &&
            (FS.IsFinite(f, a) && FS.IsInf(f, b) ==> IsInfinity(f, o, y, {}))
  {
    hide FS.RoundExact, FS.SignOf, FS.ExpOf, FS.MantOf, FS.Value, FS.QNaN, SignBit, Format.ExpMask, Format.Inf, Pow2;
    QuietWord(f);
    InfiniteWord(f, FS.SignOf(f, a));
    InfiniteWord(f, FS.SignOf(f, b));
  }

  lemma ProductSpecials(f: Fmt, a: nat, b: nat, rm: Mode)
    ensures var o, neg := FS.MulSpec(f, a, b, rm), FS.SignOf(f, a) != FS.SignOf(f, b);
            (FS.IsNaN(f, a) || FS.IsNaN(f, b) ==> IsQuiet(f, o, FS.IsSignaling(f, a) || FS.IsSignaling(f, b))) &&
            (FS.IsInf(f, a) && FS.IsZero(f, b) ==> IsQuiet(f, o, true)) &&
            (FS.IsZero(f, a) && FS.IsInf(f, b) ==> IsQuiet(f, o, true)) &&
            (FS.IsInf(f, a) && !FS.IsNaN(f, b) && !FS.IsZero(f, b) ==> IsInfinity(f, o, neg, {})) &&
            (FS.IsInf(f, b) && !FS.IsNaN(f, a) && !FS.IsZero(f, a) ==> IsInfinity(f, o, neg, {}))
  {
    hide FS.RoundExact, FS.SignOf, FS.ExpOf, FS.MantOf, FS.Value, FS.QNaN, SignBit, Format.ExpMask, Format.Inf, Pow2,
      FS.ExactProduct;
    FS.ExpMaskPositive(f);
    QuietWord(f);
    InfiniteWord(f, FS.SignOf(f, a) != FS.SignOf(f, b));
  }

  lemma QuotientSpecials(f: Fmt, a: nat, b: nat, rm: Mode)
    requires FS.IsWord(f, a) && FS.IsWord(f, b)
    ensures var o, neg := FS.DivSpec(f, a, b, rm), FS.SignOf(f, a) != FS.SignOf(f, b);
            (FS.IsNaN(f, a) || FS.IsNaN(f, b) ==> IsQuiet(f, o, FS.IsSignaling(f, a) || FS.IsSignaling(f, b))) &&
            (FS.IsInf(f, a) && FS.IsInf(f, b) ==> IsQuiet(f, o, true)) &&
            (FS.IsZero(f, a) && FS.IsZero(f, b) ==> IsQuiet(f, o, true)) &&
            (FS.IsInf(f, a) && FS.IsFinite(f, b) ==> IsInfinity(f, o, neg, {})) &&
            (FS.IsFinite(f, a) && FS.IsInf(f, b) ==>
               FS.IsZero(f, o.bits) && FS.SignOf(f, o.bits) == neg && o.raised == {}) &&
            (FS.IsFinite(f, a) && !FS.IsZero(f, a) && FS.IsZero(f, b) ==> IsInfinity(f, o, neg, {DivideZero}))
  {
    var neg := FS.SignOf(f, a) != FS.SignOf(f, b);
    hide FS.RoundExact, FS.SignOf, FS.ExpOf, FS.MantOf, FS.BitsOf, FS.QNaN, SignBit, Format.ExpMask, Format.Inf, Pow2,
      FS.ExactQuotient, Mag;
    FS.ExpMaskPositive(f);
    QuietWord(f);
    InfiniteWord(f, neg);
    FS.FiniteValue(f, b);
    ZeroWord(f, neg);
  }

  lemma ZeroWord(f: Fmt, neg: bool)
    ensures FS.IsZero(f, SignBit(f, neg)) && FS.SignOf(f, SignBit(f, neg)) == neg
  {
    hide FS.IsInf, FS.SignOf, FS.Value, FS.IsFinite, FS.IsNaN, FS.BitsOf, Format.Inf, Mag, FS.ExpOf, FS.MantOf, Pow2;
    assert SignBit(f, neg) + 0 == SignBit(f, neg);
    WordIs(f, neg, 0);
    hide SignBit;
    FS.Fields(f, SignBit(f, neg));
    Pow2Mono(0, f.msize);
    Pow2Succ(0);
    if FS.ExpOf(f, SignBit(f, neg)) > 0 {
      MulOrder(1, FS.ExpOf(f, SignBit(f, neg)), Pow2(f.msize));
    }
  }

  lemma FusedSpecials(f: Fmt, a: nat, b: nat, c: nat, rm: Mode)
    ensures var o, neg, z := FS.FmaSpec(f, a, b, c, rm), FS.SignOf(f, a) != FS.SignOf(f, b), FS.SignOf(f, c);
            var infinite, invalid := FS.IsInf(f, a) || FS.IsInf(f, b), FS.IsZero(f, a) || FS.IsZero(f, b);
            (FS.IsNaN(f, a) || FS.IsNaN(f, b) || FS.IsNaN(f, c) ==>
               IsQuiet(f, o, FS.IsSignaling(f, a) || FS.IsSignaling(f, b) || FS.IsSignaling(f, c))) &&
            (!FS.IsNaN(f, a) && !FS.IsNaN(f, b) && !FS.IsNaN(f, c) ==>
               (infinite && invalid ==> IsQuiet(f, o, true)) &&
               (infinite && !invalid && FS.IsInf(f, c) && neg != z ==> IsQuiet(f, o, true)) &&
               (infinite && !invalid && (FS.IsFinite(f, c) || neg == z) ==> IsInfinity(f, o, neg, {})) &&
               (!infinite && FS.IsInf(f, c) ==> IsInfinity(f, o, z, {})))
  {
    hide FS.RoundExact, FS.SignOf, FS.ExpOf, FS.MantOf, FS.Value, FS.QNaN, SignBit, Format.ExpMask, Format.Inf, Pow2,
      FS.ExactProduct;
    FS.ExpMaskPositive(f);
    QuietWord(f);
    InfiniteWord(f, FS.SignOf(f, a) != FS.SignOf(f, b));
    InfiniteWord(f, FS.SignOf(f, c));
  }

  /** The square root: a quiet NaN of a NaN, invalid below zero, and plus infinity. */
  lemma RootSpecials(f: Fmt, signaling: bool)
    ensures IsQuiet(f, FS.Propagate(f, signaling), signaling) && IsQuiet(f, FS.Invalid(f), true) &&
            IsInfinity(f, FS.Infinity(f, false), false, {})
  {
    hide FS.SignOf, FS.ExpOf, FS.MantOf, FS.QNaN, SignBit, Format.ExpMask, Format.Inf, Pow2;
    QuietWord(f);
    InfiniteWord(f, false);
  }
}
