/** Multiplication: normalize both significands, form the double-width product, fold its low word into
    the sticky bit, round once. */
module MulSf {
  import opened Powers
  import opened Sticky
  import opened Ieee
  import opened RoundPack
  import opened Normalize
  import W = WideWords
  import opened OperationLaws
  import FS = FloatSpec

  /** `sig` has its leading bit at `msize`, and together with the exponent `e` denotes the magnitude of `w`. */
  ghost predicate Unpacked(f: Fmt, w: nat, sig: nat, e: int)
  {
    Pow2(f.msize) <= sig < 2 * Pow2(f.msize) &&
    Mag(f, FS.BitsOf(f, w)) == sig as real * P2(e - 1 + f.UnitExp())
  }

  lemma UnpackNormal(f: Fmt, w: nat)
    requires FS.IsWord(f, w) && FS.ExpOf(f, w) != 0
    ensures Unpacked(f, w, FS.MantOf(f, w) + Pow2(f.msize), FS.ExpOf(f, w))
  {
    hide Pow2, P2, Mag, FS.BitsOf, FS.MantOf, FS.ExpOf, Format.UnitExp;
    FS.FiniteValue(f, w);
  }

  /** Shifts a subnormal significand up and adjusts the exponent. */
  method NormalizeSubnormalSf(f: Fmt, mant: nat, ghost w: nat) returns (exp: int, sig: nat)
    requires FS.IsWord(f, w) && FS.ExpOf(f, w) == 0 && mant == FS.MantOf(f, w) != 0
    ensures Unpacked(f, w, sig, exp) && 1 - f.msize <= exp <= 0
  {
    hide Pow2, BitLen, P2, Mag, Shl, Unpacked, FS.BitsOf, FS.MantOf, FS.ExpOf;
    BitLenAtMost(mant, f.msize);
    Pow2Mono(f.msize + 1, f.Size());
    Pow2Succ(f.msize);
    var shift := f.msize - (f.Size() - 1 - Clz(f, mant));
    exp := 1 - shift;
    sig := Shl(f, mant, shift);
    SubnormalUp(f, w, shift);
  }

  lemma SubnormalUp(f: Fmt, w: nat, shift: nat)
    requires FS.IsWord(f, w) && FS.ExpOf(f, w) == 0 && FS.MantOf(f, w) != 0
    requires shift == f.msize + 1 - BitLen(FS.MantOf(f, w))
    ensures Unpacked(f, w, Shl(f, FS.MantOf(f, w), shift), 1 - shift)
  {
    hide Pow2, BitLen, P2, Mag, Shl, FS.BitsOf, FS.MantOf, FS.ExpOf, Format.UnitExp;
    var m := FS.MantOf(f, w);
    LeadingBit(m, f.msize + 1);
    Pow2Succ(f.msize);
    Pow2Mono(f.msize + 1, f.Size());
    ShlExact(f, m, shift);
    FS.FiniteValue(f, w);
    UpDown(m, shift, f.UnitExp());
    assert 1 - 1 + f.UnitExp() == f.UnitExp() && 1 - shift - 1 + f.UnitExp() == f.UnitExp() - shift;
  }

  lemma UpDown(m: nat, s: nat, u: int)
    ensures (m * Pow2(s)) as real * P2(u - s) == m as real * P2(u)
  {
    hide Pow2, P2;
    P2Nat(s);
    P2Add(s, u - s);
    RealProduct(m, Pow2(s));
    MulAssoc(m as real, P2(s), P2(u - s));
  }

  /** Both words of the product of two words, by double-width arithmetic. */
  method MulU(f: Fmt, a: nat, b: nat) returns (hi: nat, lo: nat)
    requires a < Pow2(f.Size()) && b < Pow2(f.Size())
    ensures hi * Pow2(f.Size()) + lo == a * b
    ensures hi < Pow2(f.Size()) && lo < Pow2(f.Size())
  {
    hide Pow2, Quot, Rem;
    var p := Pow2(f.Size());
    if f.Size() % 2 == 0 {
      Pow2Add(f.Size() / 2, f.Size() / 2);
      hi, lo := W.MulHalves(Pow2(f.Size() / 2), a, b);
    } else {
      var r := a * b;
      QuotRem(r, p);
      W.ProductBound(a, b, p);
      QuotBounds(r, p, p);
      hi, lo := Quot(r, p), Rem(r, p);
    }
  }

  /** Products of significands, scaled. */
  lemma ScaledProduct(p: real, i: int, q: real, j: int)
    ensures (p * P2(i)) * (q * P2(j)) == (p * q) * P2(i + j)
  {
    hide P2;
    P2Add(i, j);
    FourFactors(p, P2(i), q, P2(j));
  }

  lemma FourFactors(a: real, b: real, c: real, d: real)
    ensures (a * b) * (c * d) == (a * c) * (b * d)
  {
    MulAssoc(a, b, c * d);
    MulAssoc(b, c, d);
    MulAssoc(c, b, d);
    MulAssoc(a, c, b * d);
  }

  lemma ShiftedSig(f: Fmt, sig: nat, k: nat)
    requires Pow2(f.msize) <= sig < 2 * Pow2(f.msize) && f.msize + 1 + k <= f.Size()
    ensures Shl(f, sig, k) == sig * Pow2(k)
    ensures Pow2(f.msize + k) <= sig * Pow2(k) < Pow2(f.msize + k + 1)
  {
    hide Pow2, Shl;
    Pow2Add(f.msize, k);
    Pow2Add(f.msize + 1, k);
    Pow2Succ(f.msize);
    MulOrder(Pow2(f.msize), sig, Pow2(k));
    MulOrder(sig, 2 * Pow2(f.msize), Pow2(k));
    Pow2Mono(f.msize + k + 1, f.Size());
    ShlExact(f, sig, k);
  }

  lemma BetweenPowers(a: nat, i: nat, b: nat, j: nat)
    requires Pow2(i) <= a < Pow2(i + 1) && Pow2(j) <= b < Pow2(j + 1)
    ensures Pow2(i + j) <= a * b < Pow2(i + j + 2)
  {
    hide Pow2;
    Pow2Add(i, j);
    Pow2Add(i + 1, j + 1);
    MulOrder(Pow2(i), a, Pow2(j));
    MulOrder(Pow2(j), b, a);
    MulOrder(a, Pow2(i + 1), Pow2(j + 1));
    MulOrder(b, Pow2(j + 1), a);
  }

  lemma ProductWord(f: Fmt, sa: nat, sb: nat, v: nat)
    requires Pow2(f.msize) <= sa < 2 * Pow2(f.msize) && Pow2(f.msize) <= sb < 2 * Pow2(f.msize)
    requires v == (sa * Pow2(f.RndSize())) * (sb * Pow2(f.RndSize() + 1))
    ensures Pow2(2 * f.Size() - 3) <= v < Pow2(2 * f.Size() - 1)
    ensures v as real == (sa as real * sb as real) * P2(2 * f.RndSize() + 1)
  {
    hide Pow2, P2, Shl;
    var k := f.RndSize();
    ShiftedSig(f, sa, k);
    ShiftedSig(f, sb, k + 1);
    BetweenPowers(sa * Pow2(k), f.msize + k, sb * Pow2(k + 1), f.msize + k + 1);
    ScaledProduct(sa as real, k, sb as real, k + 1);
    P2Nat(k);
    P2Nat(k + 1);
    RealProduct(sa, Pow2(k));
    RealProduct(sb, Pow2(k + 1));
    RealProduct(sa * Pow2(k), sb * Pow2(k + 1));
  }

  lemma DroppedWord(f: Fmt, v: nat, mant: nat, z: real)
    requires Pow2(2 * f.Size() - 3) <= v < Pow2(2 * f.Size() - 1)
    requires mant == OrBit(Quot(v, Pow2(f.Size())), Rem(v, Pow2(f.Size())) != 0)
    requires z == v as real * P2(0 - f.Size())
    ensures Faithful(f, z, mant, 1) && mant < Pow2(f.Size() - 1)
  {
    hide Jam, Pow2, P2, Quot, Rem;
    var p := Pow2(f.Size());
    StickyWord(v, f.Size(), z);
    Pow2Add(f.Size() - 3, f.Size());
    Pow2Add(f.Size() - 1, f.Size());
    QuotBounds(v, p, Pow2(f.Size() - 3));
    QuotBounds(v, p, Pow2(f.Size() - 1));
    Pow2Mono(f.msize + 2, f.Size() - 3);
    Pow2Succ(0);
  }

  lemma StickyWord(v: nat, k: nat, z: real)
    requires z == v as real * P2(0 - k)
    ensures Jam(z, OrBit(Quot(v, Pow2(k)), Rem(v, Pow2(k)) != 0), 2)
  {
    hide Jam, Pow2, P2, Quot, Rem, OrBit;
    P2Nat(k);
    P2Nat(0);
    P2Add(0 - k, k);
    MulAssoc(v as real, P2(0 - k), P2(k));
    JamExact(v, 2 * Pow2(k));
    JamShift(v as real, v, 2, Pow2(k), z);
  }

  lemma ProductValue(f: Fmt, a: nat, sa: nat, ea: int, b: nat, sb: nat, eb: int, v: nat, z: real, x: real)
    requires Unpacked(f, a, sa, ea) && Unpacked(f, b, sb, eb)
    requires v as real == (sa as real * sb as real) * P2(2 * f.RndSize() + 1)
    requires z == v as real * P2(0 - f.Size())
    requires x == Mag(f, FS.BitsOf(f, a)) * Mag(f, FS.BitsOf(f, b))
    ensures x == z * P2(ea + eb - Pow2(f.esize - 1) + 2 - 1 - f.RndSize() + f.UnitExp())
  {
    hide P2, Mag, Pow2, FS.BitsOf;
    var u, w := f.UnitExp(), sa as real * sb as real;
    ScaledProduct(sa as real, ea - 1 + u, sb as real, eb - 1 + u);
    var k := ea + eb - Pow2(f.esize - 1) + 2 - 1 - f.RndSize() + u;
    var i, j := 2 * f.RndSize() + 1, 0 - f.Size();
    P2Add(i, j);
    P2Add(i + j, k);
    MulAssoc(w, P2(i), P2(j));
    MulAssoc(w, P2(i + j), P2(k));
    assert P2(i + j + k) == P2(ea - 1 + u + (eb - 1 + u));
  }

  lemma SignedProduct(f: Fmt, a: nat, b: nat, rm: Mode, neg: bool, x: real)
    requires neg == (FS.SignOf(f, a) != FS.SignOf(f, b))
    requires x == Mag(f, FS.BitsOf(f, a)) * Mag(f, FS.BitsOf(f, b))
    ensures x >= 0.0 && (x == 0.0 <==> Mag(f, FS.BitsOf(f, a)) == 0.0 || Mag(f, FS.BitsOf(f, b)) == 0.0)
    ensures FS.RoundExact(f, rm, FS.ExactProduct(f, a, b), neg) ==
            FS.Outcome(IeeeBits(f, rm, neg, x), RoundFlags(f, rm, neg, x))
  {
    hide Mag, Pow2, FS.BitsOf, FS.SignOf, IeeeBits, RoundFlags;
    var p, q := Mag(f, FS.BitsOf(f, a)), Mag(f, FS.BitsOf(f, b));
    FS.MagNonneg(f, FS.BitsOf(f, a));
    FS.MagNonneg(f, FS.BitsOf(f, b));
    ProductSigns(p, q);
    assert FS.ExactProduct(f, a, b) == if neg then -x else x;
  }

  lemma ProductSigns(p: real, q: real)
    requires p >= 0.0 && q >= 0.0
    ensures p * q >= 0.0 && (p * q == 0.0 <==> p == 0.0 || q == 0.0)
    ensures (-p) * q == -(p * q) && p * (-q) == -(p * q) && (-p) * (-q) == p * q
  {
  }

  // ---- the operation ----

  method Mul(f: Fmt, a: nat, b: nat, rm: Mode, fl0: set<Flag>) returns (r: nat, fl: set<Flag>)
    requires FS.IsWord(f, a) && FS.IsWord(f, b)
    ensures r == FS.MulSpec(f, a, b, rm).bits
    ensures fl == fl0 + FS.MulSpec(f, a, b, rm).raised
    ensures ProductDelivered(f, a, b, rm, r, FS.MulSpec(f, a, b, rm).raised)
  {
    ProductLaw(f, a, b, rm);
    hide ProductDelivered;
    hide Jam, Pow2, P2, Mag, Faithful, IeeeBits, RoundFlags, Unpacked, Shl, Quot, Rem, SignBit, FS.SignOf, FS.BitsOf,
      FS.ExpOf, FS.MantOf, FS.IsSignanSf, FS.IsSignaling, FS.ExactProduct, FS.RoundExact, Format.UnitExp,
      Format.ExpMask, Format.Inf;
    var rSign := FS.SignOf(f, a) != FS.SignOf(f, b);
    var aExp: int, bExp: int := FS.ExpOf(f, a), FS.ExpOf(f, b);
    var aMant, bMant := FS.MantOf(f, a), FS.MantOf(f, b);
    FS.SignanIsSignaling(f, a);
    FS.SignanIsSignaling(f, b);
    FS.PackedConstants(f, rSign);
    if aExp == f.ExpMask() || bExp == f.ExpMask() {
      if FS.IsNaN(f, a) || FS.IsNaN(f, b) {
        return FS.QNaN(f), if FS.IsSignanSf(f, a) || FS.IsSignanSf(f, b) then fl0 + {InvalidOp} else fl0;
      } else if (aExp == f.ExpMask() && bExp == 0 && bMant == 0) || (bExp == f.ExpMask() && aExp == 0 && aMant == 0) {
        return FS.QNaN(f), fl0 + {InvalidOp};
      } else {
        return Pack(f, rSign, f.ExpMask(), 0), fl0;
      }
    }
    ghost var x := Mag(f, FS.BitsOf(f, a)) * Mag(f, FS.BitsOf(f, b));
    SignedProduct(f, a, b, rm, rSign, x);
    FS.FiniteValue(f, a);
    FS.FiniteValue(f, b);
    ZeroOutcome(f, rm, rSign);
    if aExp == 0 {
      if aMant == 0 {
        return Pack(f, rSign, 0, 0), fl0;
      }
      aExp, aMant := NormalizeSubnormalSf(f, aMant, a);
    } else {
      UnpackNormal(f, a);
      aMant := aMant + Pow2(f.msize);
    }
    if bExp == 0 {
      if bMant == 0 {
        return Pack(f, rSign, 0, 0), fl0;
      }
      bExp, bMant := NormalizeSubnormalSf(f, bMant, b);
    } else {
      UnpackNormal(f, b);
      bMant := bMant + Pow2(f.msize);
    }
    r, fl := MulFinite(f, a, aExp, aMant, b, bExp, bMant, rm, fl0, rSign, x);
  }

  /** The product of two nonzero finite operands, unpacked. */
  method MulFinite(f: Fmt, ghost a: nat, aExp: int, aMant: nat, ghost b: nat, bExp: int, bMant: nat, rm: Mode,
                   fl0: set<Flag>, rSign: bool, ghost x: real) returns (r: nat, fl: set<Flag>)
    requires Unpacked(f, a, aMant, aExp) && Unpacked(f, b, bMant, bExp)
    requires x >= 0.0 && x == Mag(f, FS.BitsOf(f, a)) * Mag(f, FS.BitsOf(f, b))
    ensures r == IeeeBits(f, rm, rSign, x) && fl == fl0 + RoundFlags(f, rm, rSign, x)
  {
    hide Jam, Pow2, P2, Mag, Faithful, IeeeBits, RoundFlags, Unpacked, Shl, Quot, Rem, OrBit, FS.BitsOf, Format.UnitExp;
    SigBounds(f, a, aMant, aExp);
    SigBounds(f, b, bMant, bExp);
    var rExp := aExp + bExp - Pow2(f.esize - 1) + 2;
    ShiftedSig(f, aMant, f.RndSize());
    ShiftedSig(f, bMant, f.RndSize() + 1);
    var rMant, low := MulU(f, Shl(f, aMant, f.RndSize()), Shl(f, bMant, f.RndSize() + 1));
    ghost var v := (aMant * Pow2(f.RndSize())) * (bMant * Pow2(f.RndSize() + 1));
    ghost var z := v as real * P2(0 - f.Size());
    QuotRemUnique(v, Pow2(f.Size()), rMant, low);
    rMant := OrBit(rMant, low != 0);
    ProductWord(f, aMant, bMant, v);
    DroppedWord(f, v, rMant, z);
    ProductValue(f, a, aMant, aExp, b, bMant, bExp, v, z, x);
    r, fl := NormalizeSf(f, rSign, rExp, rMant, rm, fl0, z, 1, x);
  }

  lemma SigBounds(f: Fmt, w: nat, sig: nat, e: int)
    requires Unpacked(f, w, sig, e)
    ensures Pow2(f.msize) <= sig < 2 * Pow2(f.msize)
  {
  }
}
