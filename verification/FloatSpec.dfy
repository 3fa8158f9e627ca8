/** The fields and classes of a floating-point word, the real it denotes, and what each arithmetic
    operation must return (IEEE 754-2019, sections 5.4.1, 6 and 7). */
module FloatSpec {
  import opened Powers
  import opened Sticky
  import opened Ieee
  import opened RoundPack

  ghost predicate IsWord(f: Fmt, w: nat) { w < Pow2(f.Size()) }

  function SignOf(f: Fmt, w: nat): bool { Quot(w, Pow2(f.Size() - 1)) % 2 == 1 }

  function ExpOf(f: Fmt, w: nat): (e: nat)
    ensures e <= f.ExpMask()
  {
    Rem(Quot(w, Pow2(f.msize)), Pow2(f.esize))
  }

  function MantOf(f: Fmt, w: nat): (m: nat)
    ensures m < Pow2(f.msize)
  {
    Rem(w, Pow2(f.msize))
  }

  /** The magnitude bits: everything but the sign. */
  function BitsOf(f: Fmt, w: nat): nat { Rem(w, Pow2(f.Size() - 1)) }

  predicate IsNaN(f: Fmt, w: nat) { ExpOf(f, w) == f.ExpMask() && MantOf(f, w) != 0 }

  predicate IsInf(f: Fmt, w: nat) { ExpOf(f, w) == f.ExpMask() && MantOf(f, w) == 0 }

  predicate IsFinite(f: Fmt, w: nat) { ExpOf(f, w) != f.ExpMask() }

  predicate IsZero(f: Fmt, w: nat) { ExpOf(f, w) == 0 && MantOf(f, w) == 0 }

  /** A signaling NaN has the leading bit of its significand field clear. */
  predicate IsSignaling(f: Fmt, w: nat) { IsNaN(f, w) && MantOf(f, w) < Pow2(f.msize - 1) }

  function QNaN(f: Fmt): nat { f.Inf() + Pow2(f.msize - 1) }

  /** The real number a finite word denotes. */
  ghost function Value(f: Fmt, w: nat): real
  {
    if SignOf(f, w) then -Mag(f, BitsOf(f, w)) else Mag(f, BitsOf(f, w))
  }

  ghost function ExactProduct(f: Fmt, a: nat, b: nat): real { Value(f, a) * Value(f, b) }

  ghost function ExactQuotient(f: Fmt, a: nat, b: nat): real
    requires Value(f, b) != 0.0
  {
    Value(f, a) / Value(f, b)
  }

  datatype Outcome = Outcome(bits: nat, raised: set<Flag>)

  /** Rounding an exact result; `zeroNeg` is the sign an exact zero gets. */
  ghost function RoundExact(f: Fmt, rm: Mode, s: real, zeroNeg: bool): Outcome
  {
    var neg := if s == 0.0 then zeroNeg else s < 0.0;
    Outcome(IeeeBits(f, rm, neg, Abs(s)), RoundFlags(f, rm, neg, Abs(s)))
  }

  function Invalid(f: Fmt): Outcome { Outcome(QNaN(f), {InvalidOp}) }

  function Propagate(f: Fmt, signaling: bool): Outcome
  {
    Outcome(QNaN(f), if signaling then {InvalidOp} else {})
  }

  function Infinity(f: Fmt, neg: bool): Outcome { Outcome(SignBit(f, neg) + f.Inf(), {}) }

  function SumZeroNeg(f: Fmt, rm: Mode, aNeg: bool, bNeg: bool): bool
  {
    if aNeg == bNeg then aNeg else rm.RDN?
  }

  ghost function AddSpec(f: Fmt, a: nat, b: nat, rm: Mode): Outcome
  {
    if IsNaN(f, a) || IsNaN(f, b) then Propagate(f, IsSignaling(f, a) || IsSignaling(f, b))
    else if IsInf(f, a) && IsInf(f, b) && SignOf(f, a) != SignOf(f, b) then Invalid(f)
    else if IsInf(f, a) then Infinity(f, SignOf(f, a))
    else if IsInf(f, b) then Infinity(f, SignOf(f, b))
    else RoundExact(f, rm, Value(f, a) + Value(f, b), SumZeroNeg(f, rm, SignOf(f, a), SignOf(f, b)))
  }

  ghost function MulSpec(f: Fmt, a: nat, b: nat, rm: Mode): Outcome
  {
    var neg := SignOf(f, a) != SignOf(f, b);
    if IsNaN(f, a) || IsNaN(f, b) then Propagate(f, IsSignaling(f, a) || IsSignaling(f, b))
    else if (IsInf(f, a) && IsZero(f, b)) || (IsInf(f, b) && IsZero(f, a)) then Invalid(f)
    else if IsInf(f, a) || IsInf(f, b) then Infinity(f, neg)
    else RoundExact(f, rm, ExactProduct(f, a, b), neg)
  }

  ghost function DivSpec(f: Fmt, a: nat, b: nat, rm: Mode): Outcome
  {
    var neg := SignOf(f, a) != SignOf(f, b);
    if IsNaN(f, a) || IsNaN(f, b) then Propagate(f, IsSignaling(f, a) || IsSignaling(f, b))
    else if (IsInf(f, a) && IsInf(f, b)) || (IsZero(f, a) && IsZero(f, b)) then Invalid(f)
    else if IsInf(f, a) then Infinity(f, neg)
    else if IsInf(f, b) then Outcome(SignBit(f, neg), {})
    else if Value(f, b) == 0.0 then Outcome(SignBit(f, neg) + f.Inf(), {DivideZero})
    else RoundExact(f, rm, ExactQuotient(f, a, b), neg)
  }

  /** The square root `root` is given by its defining equation. */
  ghost predicate IsRoot(f: Fmt, a: nat, root: real)
  {
    root >= 0.0 && root * root == Value(f, a)
  }

  ghost function FmaSpec(f: Fmt, a: nat, b: nat, c: nat, rm: Mode): Outcome
  {
    var neg := SignOf(f, a) != SignOf(f, b);
    if IsNaN(f, a) || IsNaN(f, b) || IsNaN(f, c) then
      Propagate(f, IsSignaling(f, a) || IsSignaling(f, b) || IsSignaling(f, c))
    else if (IsInf(f, a) && IsZero(f, b)) || (IsInf(f, b) && IsZero(f, a)) then Invalid(f)
    else if IsInf(f, a) || IsInf(f, b) then
      if IsInf(f, c) && neg != SignOf(f, c) then Invalid(f) else Infinity(f, neg)
    else if IsInf(f, c) then Infinity(f, SignOf(f, c))
    else RoundExact(f, rm, ExactProduct(f, a, b) + Value(f, c), SumZeroNeg(f, rm, neg, SignOf(f, c)))
  }

  predicate InfTimesZero(f: Fmt, a: nat, b: nat)
  {
    (IsInf(f, a) && IsZero(f, b)) || (IsInf(f, b) && IsZero(f, a))
  }

  /** What RISC-V asks for (Unprivileged Architecture, section 11.6): infinity times zero is invalid even when the
      addend is a quiet NaN. */
  ghost function RiscvFma(f: Fmt, a: nat, b: nat, c: nat, rm: Mode): Outcome
  {
    var o := FmaSpec(f, a, b, c, rm);
    if InfTimesZero(f, a, b) then Outcome(QNaN(f), {InvalidOp}) else o
  }

  /** The addend hides the invalid product: it is a quiet NaN. */
  predicate HidesInvalid(f: Fmt, a: nat, b: nat, c: nat)
  {
    InfTimesZero(f, a, b) && IsNaN(f, c) && !IsSignaling(f, c)
  }

  /** The code's outcome is RISC-V's exactly if the addend hides no invalid product. */
  lemma FmaInvalid(f: Fmt, a: nat, b: nat, c: nat, rm: Mode)
    ensures FmaSpec(f, a, b, c, rm) == RiscvFma(f, a, b, c, rm) <==> !HidesInvalid(f, a, b, c)
    ensures FmaSpec(f, a, b, c, rm).bits == RiscvFma(f, a, b, c, rm).bits
    ensures HidesInvalid(f, a, b, c) ==> FmaSpec(f, a, b, c, rm).raised == {}
  {
    hide ExpOf, MantOf, Pow2, RoundExact;
    ExpMaskPositive(f);
    hide Format.ExpMask;
  }

  /** Single precision: infinity times zero plus the quiet NaN 7FC00000. */
  lemma FmaSilent(rm: Mode)
    ensures HidesInvalid(Binary32, 0x7F80_0000, 0, 0x7FC0_0000)
    ensures FmaSpec(Binary32, 0x7F80_0000, 0, 0x7FC0_0000, rm) == Outcome(0x7FC0_0000, {})
    ensures RiscvFma(Binary32, 0x7F80_0000, 0, 0x7FC0_0000, rm) == Outcome(0x7FC0_0000, {InvalidOp})
  {
    SinglePowers();
    hide Pow2;
    DivModUnique(0x7F80_0000, 0x80_0000, 255, 0);
    DivModUnique(0x7FC0_0000, 0x80_0000, 255, 0x40_0000);
    DivModUnique(255, 256, 0, 255);
    DivModUnique(0, 256, 0, 0);
    DivModUnique(0, 0x80_0000, 0, 0);
    FmaInvalid(Binary32, 0x7F80_0000, 0, 0x7FC0_0000, rm);
  }

  lemma SinglePowers()
    ensures Pow2(8) == 256 && Pow2(22) == 0x40_0000 && Pow2(23) == 0x80_0000
  {
    assert Pow2(2) == 4;
    Pow2Add(2, 2);
    Pow2Add(4, 4);
    Pow2Add(8, 8);
    Pow2Add(16, 4);
    Pow2Add(20, 2);
    Pow2Succ(22);
  }

  // ---- unpacking ----

  lemma ExpMaskBits(f: Fmt)
    ensures Pow2(f.Size() - 1) == Pow2(f.esize) * Pow2(f.msize)
    ensures Pow2(f.Size()) == 2 * Pow2(f.Size() - 1)
  {
    Pow2Add(f.esize, f.msize);
    Pow2Succ(f.Size() - 1);
  }

  /** A word is its sign bit, exponent field and significand field laid side by side. */
  lemma Fields(f: Fmt, w: nat)
    requires IsWord(f, w)
    ensures w == SignBit(f, SignOf(f, w)) + BitsOf(f, w)
    ensures BitsOf(f, w) == ExpOf(f, w) * Pow2(f.msize) + MantOf(f, w) < Pow2(f.Size() - 1)
  {
    hide Quot, Rem, Pow2;
    var h, m, e := Pow2(f.Size() - 1), Pow2(f.msize), Pow2(f.esize);
    ExpMaskBits(f);
    QuotBounds(w, h, 2);
    QuotRem(w, h);
    QuotRem(w, m);
    QuotRem(Quot(w, m), e);
    var s, x, y := Quot(Quot(w, m), e), ExpOf(f, w), MantOf(f, w);
    assert w == s * h + (x * m + y) by {
      DistributeRight(s * e, x, m);
      MulExchange(s, e, m);
    }
    FieldBound(x, y, e, m);
    QuotRemUnique(w, h, s, x * m + y);
    assert 0 * h == 0 && 1 * h == h;
  }

  lemma FieldBound(x: nat, y: nat, e: nat, m: nat)
    requires x < e && y < m
    ensures x * m + y < e * m
  {
    MulOrder(x + 1, e, m);
    DistributeRight(x, 1, m);
  }

  /** The significand with its hidden bit, and the exponent field it is scaled by. */
  function SigOf(f: Fmt, w: nat): (s: nat)
    ensures s < 2 * Pow2(f.msize)
  {
    if ExpOf(f, w) == 0 then MantOf(f, w) else Pow2(f.msize) + MantOf(f, w)
  }

  function ScaleOf(f: Fmt, w: nat): (e: nat)
    ensures e >= 1
  {
    if ExpOf(f, w) == 0 then 1 else ExpOf(f, w)
  }

  lemma FiniteValue(f: Fmt, w: nat)
    requires IsWord(f, w)
    ensures ScaleOf(f, w) == 1 || SigOf(f, w) >= Pow2(f.msize)
    ensures BitsOf(f, w) == (ScaleOf(f, w) - 1) * Pow2(f.msize) + SigOf(f, w)
    ensures Mag(f, BitsOf(f, w)) == SigOf(f, w) as real * P2(ScaleOf(f, w) - 1 + f.UnitExp())
    ensures IsZero(f, w) <==> Mag(f, BitsOf(f, w)) == 0.0
  {
    hide Quot, Rem, Pow2, P2, Mag, BitsOf, ExpOf, MantOf, Format.UnitExp;
    Fields(f, w);
    NextMultiples(ScaleOf(f, w), Pow2(f.msize));
    GridMag(f, ScaleOf(f, w), SigOf(f, w));
    RealMulOrder(0.0, SigOf(f, w) as real, P2(ScaleOf(f, w) - 1 + f.UnitExp()));
  }

  lemma MagNonneg(f: Fmt, p: nat)
    ensures Mag(f, p) >= 0.0
  {
    hide MagU, P2, Format.UnitExp;
    ProductMono(0.0, MagU(f, p) as real, 0.0, P2(f.UnitExp()));
  }

  lemma ExpMaskPositive(f: Fmt)
    ensures f.ExpMask() > 0
  {
    Pow2Succ(f.esize - 1);
  }

  lemma InfBits(f: Fmt)
    ensures f.ExpMask() * Pow2(f.msize) == f.Inf()
  {
  }

  /** The words returned for zero and infinity. */
  lemma PackedConstants(f: Fmt, neg: bool)
    ensures Pack(f, neg, 0, 0) == SignBit(f, neg)
    ensures Pack(f, neg, f.ExpMask(), 0) == SignBit(f, neg) + f.Inf()
  {
    hide Pow2, SignBit, Rem, Quot;
    QuotRemUnique(0, Pow2(f.msize), 0, 0);
  }

  // ---- classification by order and by bits ----

  lemma LargerClass(f: Fmt, a: nat, b: nat)
    requires IsWord(f, a) && IsWord(f, b) && BitsOf(f, a) >= BitsOf(f, b)
    ensures IsNaN(f, b) ==> IsNaN(f, a)
    ensures IsFinite(f, a) ==> IsFinite(f, b)
  {
    hide Pow2, BitsOf, ExpOf, MantOf;
    Fields(f, a);
    Fields(f, b);
    if ExpOf(f, a) < ExpOf(f, b) {
      FieldBound(ExpOf(f, a), MantOf(f, a), ExpOf(f, b), Pow2(f.msize));
    }
  }

  /** The test on the exponent field and the leading significand bit taken together. */
  predicate IsSignanSf(f: Fmt, w: nat)
  {
    Rem(Quot(w, Pow2(f.msize - 1)), Pow2(f.esize + 1)) == 2 * f.ExpMask() && MantOf(f, w) != 0
  }

  lemma SignanIsSignaling(f: Fmt, w: nat)
    requires IsWord(f, w)
    ensures IsSignanSf(f, w) <==> IsSignaling(f, w)
  {
    Pow2Succ(f.msize - 1);
    hide Quot, Rem, Pow2, ExpOf, MantOf;
    QuotBounds(MantOf(f, w), Pow2(f.msize - 1), 2);
    QuotBounds(MantOf(f, w), Pow2(f.msize - 1), 1);
    SignanField(f, w);
  }

  lemma SignanField(f: Fmt, w: nat)
    requires IsWord(f, w)
    ensures Rem(Quot(w, Pow2(f.msize - 1)), Pow2(f.esize + 1)) ==
            2 * ExpOf(f, w) + Quot(MantOf(f, w), Pow2(f.msize - 1))
  {
    Pow2Succ(f.esize);
    Pow2Succ(f.msize - 1);
    hide Quot, Rem, Pow2, ExpOf, MantOf;
    var h, n := Pow2(f.msize - 1), Pow2(f.esize + 1);
    Fields(f, w);
    QuotRem(MantOf(f, w), h);
    QuotBounds(MantOf(f, w), h, 2);
    var e, q, r := ExpOf(f, w), Quot(MantOf(f, w), h), Rem(MantOf(f, w), h);
    var s := if SignOf(f, w) then 1 else 0;
    WidthSplit(f);
    RegroupFields(s, n, e, q, h, Pow2(f.msize));
    assert s * (n * h) == SignBit(f, SignOf(f, w));
    QuotRemUnique(w, h, s * n + (2 * e + q), r);
    QuotRemUnique(s * n + (2 * e + q), n, s, 2 * e + q);
  }

  lemma WidthSplit(f: Fmt)
    ensures Pow2(f.Size() - 1) == Pow2(f.esize + 1) * Pow2(f.msize - 1)
  {
    Pow2Add(f.esize + 1, f.msize - 1);
  }

  lemma RegroupFields(s: int, n: int, e: int, q: int, h: int, m: int)
    requires m == 2 * h
    ensures (s * n + (2 * e + q)) * h == s * (n * h) + e * m + q * h
  {
    DistributeRight(s * n, 2 * e + q, h);
    DistributeRight(2 * e, q, h);
    MulExchange(s, n, h);
    MulExchange(e, 2, h);
  }
}
