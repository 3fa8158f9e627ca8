/** What each operation delivers for finite operands, in terms of the values of words and the names of the modes, and
    the words that stand for numbers everybody knows. */
module OperationLaws {
  import opened Powers
  import opened Sticky
  import opened Ieee
  import opened RoundPack
  import opened RoundingLaws
  import FS = FloatSpec

  /** The outcome of an operation whose exact result is `s`; an exact zero has the sign given. */
  ghost predicate Delivers(f: Fmt, rm: Mode, s: real, zeroNeg: bool, r: nat, raised: set<Flag>)
  {
    Rounds(f, rm, s, r) && Flags(f, rm, s, r, raised) &&
    (s == 0.0 ==> r == (if zeroNeg then Pow2(f.Size() - 1) else 0) && raised == {})
  }

  lemma RoundExactDelivers(f: Fmt, rm: Mode, s: real, zeroNeg: bool)
    ensures var o := FS.RoundExact(f, rm, s, zeroNeg); Delivers(f, rm, s, zeroNeg, o.bits, o.raised)
  {
    hide Rounds, Flags, Mag, IsRounding, Tiny, Pow2, P2, Format.Inf;
    RoundsRight(f, rm, s, zeroNeg);
    FlagsRight(f, rm, s, zeroNeg);
    if s == 0.0 {
      RoundZero(f, rm, zeroNeg, Rounded(f, rm, zeroNeg, 0.0));
      ZeroMag(f);
      MagOrder(f, 0, Rounded(f, rm, zeroNeg, 0.0));
      FS.ExpMaskPositive(f);
      InfPositive(f);
    }
  }

  lemma InfPositive(f: Fmt)
    ensures f.Inf() > 0
  {
    hide Format.ExpMask;
    Pow2Succ(0);
    Pow2Mono(0, f.msize);
  }

  /** The sign of an exact zero sum: that of the terms if they agree, else negative only when rounding down. */
  predicate NegativeZero(rm: Mode, aNeg: bool, bNeg: bool) { (aNeg && bNeg) || (aNeg != bNeg && rm == RDN) }

  /** The outcomes of the operations on finite operands. */
  ghost predicate SumDelivered(f: Fmt, a: nat, b: nat, rm: Mode, r: nat, raised: set<Flag>)
  {
    IsNumber(f, a) && IsNumber(f, b) ==>
      Delivers(f, rm, FS.Value(f, a) + FS.Value(f, b), NegativeZero(rm, FS.SignOf(f, a), FS.SignOf(f, b)), r, raised)
  }

  ghost function Times(x: real, y: real): real { x * y }

  ghost predicate ProductDelivered(f: Fmt, a: nat, b: nat, rm: Mode, r: nat, raised: set<Flag>)
  {
    IsNumber(f, a) && IsNumber(f, b) ==>
      Delivers(f, rm, Times(FS.Value(f, a), FS.Value(f, b)), FS.SignOf(f, a) != FS.SignOf(f, b), r, raised)
  }

  ghost predicate QuotientDelivered(f: Fmt, a: nat, b: nat, rm: Mode, r: nat, raised: set<Flag>)
  {
    IsNumber(f, a) && IsNumber(f, b) && FS.Value(f, b) != 0.0 ==>
      Delivers(f, rm, FS.Value(f, a) / FS.Value(f, b), FS.SignOf(f, a) != FS.SignOf(f, b), r, raised)
  }

  ghost predicate FusedDelivered(f: Fmt, a: nat, b: nat, c: nat, rm: Mode, r: nat, raised: set<Flag>)
  {
    IsNumber(f, a) && IsNumber(f, b) && IsNumber(f, c) ==>
      Delivers(f, rm, Times(FS.Value(f, a), FS.Value(f, b)) + FS.Value(f, c),
               NegativeZero(rm, FS.SignOf(f, a) != FS.SignOf(f, b), FS.SignOf(f, c)), r, raised)
  }

  lemma SumLaw(f: Fmt, a: nat, b: nat, rm: Mode)
    ensures var o := FS.AddSpec(f, a, b, rm); SumDelivered(f, a, b, rm, o.bits, o.raised)
  {
    hide FS.Value, FS.RoundExact, FS.SignOf, FS.ExpOf, FS.MantOf, Delivers, Format.ExpMask;
    RoundExactDelivers(f, rm, FS.Value(f, a) + FS.Value(f, b), NegativeZero(rm, FS.SignOf(f, a), FS.SignOf(f, b)));
  }

  lemma ProductIs(f: Fmt, a: nat, b: nat)
    ensures FS.ExactProduct(f, a, b) == FS.Value(f, a) * FS.Value(f, b)
  {
    hide FS.Value;
  }

  lemma ProductLaw(f: Fmt, a: nat, b: nat, rm: Mode)
    ensures var o := FS.MulSpec(f, a, b, rm); ProductDelivered(f, a, b, rm, o.bits, o.raised)
  {
    hide FS.Value, FS.RoundExact, FS.SignOf, FS.ExpOf, FS.MantOf, Delivers, Format.ExpMask;
    ProductIs(f, a, b);
    hide FS.ExactProduct;
    var s, neg := FS.ExactProduct(f, a, b), FS.SignOf(f, a) != FS.SignOf(f, b);
    RoundExactDelivers(f, rm, s, neg);
    assert s == Times(FS.Value(f, a), FS.Value(f, b));
  }

  lemma QuotientLaw(f: Fmt, a: nat, b: nat, rm: Mode)
    ensures var o := FS.DivSpec(f, a, b, rm); QuotientDelivered(f, a, b, rm, o.bits, o.raised)
  {
    hide FS.RoundExact, FS.SignOf, FS.BitsOf, FS.ExpOf, FS.MantOf, Mag, Delivers, Format.ExpMask;
    if IsNumber(f, a) && IsNumber(f, b) && FS.Value(f, b) != 0.0 {
      FS.FiniteValue(f, b);
      RoundExactDelivers(f, rm, FS.Value(f, a) / FS.Value(f, b), FS.SignOf(f, a) != FS.SignOf(f, b));
    }
  }

  lemma FusedLaw(f: Fmt, a: nat, b: nat, c: nat, rm: Mode)
    ensures var o := FS.FmaSpec(f, a, b, c, rm); FusedDelivered(f, a, b, c, rm, o.bits, o.raised)
  {
    hide FS.Value, FS.RoundExact, FS.SignOf, FS.ExpOf, FS.MantOf, Delivers, Format.ExpMask;
    ProductIs(f, a, b);
    hide FS.ExactProduct;
    assert FS.ExactProduct(f, a, b) == Times(FS.Value(f, a), FS.Value(f, b));
    hide Times;
    RoundExactDelivers(f, rm, FS.ExactProduct(f, a, b) + FS.Value(f, c),
                       NegativeZero(rm, FS.SignOf(f, a) != FS.SignOf(f, b), FS.SignOf(f, c)));
  }

  // ---- familiar words ----

  lemma SingleFields(w: nat, s: nat, e: nat, m: nat)
    requires s <= 1 && e < 256 && m < 0x80_0000 && w == s * 0x8000_0000 + e * 0x80_0000 + m
    ensures FS.IsWord(Binary32, w) && FS.SignOf(Binary32, w) == (s == 1) && FS.ExpOf(Binary32, w) == e
    ensures FS.MantOf(Binary32, w) == m && FS.BitsOf(Binary32, w) == e * 0x80_0000 + m
  {
    FS.SinglePowers();
    Pow2Add(8, 23);
    Pow2Succ(31);
    hide Pow2, Quot, Rem;
    assert Pow2(31) == 0x8000_0000;
    QuotRemUnique(w, 0x8000_0000, s, e * 0x80_0000 + m);
    QuotRemUnique(w, 0x80_0000, s * 256 + e, m);
    QuotRemUnique(s * 256 + e, 256, s, e);
  }

  /** In 32 bits: one, minus two, the least positive number, infinity and NaNs. */
  lemma SingleWords()
    ensures FS.Value(Binary32, 0x3F80_0000) == 1.0 && FS.Value(Binary32, 0xC000_0000) == -2.0
    ensures FS.Value(Binary32, 1) == P2(-149) && FS.Value(Binary32, 0x80_0000) == P2(-126)
    ensures FS.IsInf(Binary32, 0x7F80_0000) && FS.QNaN(Binary32) == 0x7FC0_0000
    ensures FS.IsSignaling(Binary32, 0x7F80_0001) && FS.IsNaN(Binary32, 0x7FC0_0000) &&
            !FS.IsSignaling(Binary32, 0x7FC0_0000)
  {
    SingleNumbers();
    SingleFields(0x7F80_0000, 0, 255, 0);
    SingleFields(0x7F80_0001, 0, 255, 1);
    SingleFields(0x7FC0_0000, 0, 255, 0x40_0000);
    FS.SinglePowers();
    hide Pow2, P2, FS.Value, FS.SignOf, FS.BitsOf, FS.ExpOf, FS.MantOf;
  }

  lemma SingleNumbers()
    ensures FS.Value(Binary32, 0x3F80_0000) == 1.0 && FS.Value(Binary32, 0xC000_0000) == -2.0
    ensures FS.Value(Binary32, 1) == P2(-149) && FS.Value(Binary32, 0x80_0000) == P2(-126)
  {
    hide Pow2, P2, FS.Value;
    SingleValue(0x3F80_0000, 0, 127, 0);
    SingleValue(0xC000_0000, 1, 128, 0);
    SingleValue(1, 0, 0, 1);
    SingleValue(0x80_0000, 0, 1, 0);
    FS.SinglePowers();
    P2Nat(23);
    P2Add(23, -23);
    P2Add(23, -22);
    P2Add(23, -149);
    P2Zero();
    P2Succ(0);
  }

  lemma SingleValue(w: nat, s: nat, e: nat, m: nat)
    requires s <= 1 && e < 255 && m < 0x80_0000 && w == s * 0x8000_0000 + e * 0x80_0000 + m
    ensures var sig, x := if e == 0 then m else 0x80_0000 + m, (if e == 0 then 1 else e) - 150;
            FS.Value(Binary32, w) == if s == 1 then -(sig as real * P2(x)) else sig as real * P2(x)
  {
    SingleFields(w, s, e, m);
    FS.SinglePowers();
    Pow2Succ(7);
    hide Pow2, P2, Mag, FS.SignOf, FS.BitsOf, FS.ExpOf, FS.MantOf;
    assert Binary32.UnitExp() == -149;
    hide Format.UnitExp;
    assert FS.SigOf(Binary32, w) == if e == 0 then m else 0x80_0000 + m;
    assert FS.ScaleOf(Binary32, w) == if e == 0 then 1 else e;
    hide FS.SigOf, FS.ScaleOf;
    FS.FiniteValue(Binary32, w);
  }
}
