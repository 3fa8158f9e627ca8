/** Bringing an intermediate result, one or two words long, to the position that rounding expects. */
module Normalize {
  import opened Powers
  import opened Sticky
  import opened Ieee
  import opened RoundPack

  /** Leading zeros of a word. */
  function Clz(f: Fmt, a: nat): (n: nat)
    requires a < Pow2(f.Size())
  {
    BitLenAtMost(a, f.Size());
    f.Size() - BitLen(a)
  }

  /** Left shift of a word: bits beyond the word are lost. */
  function Shl(f: Fmt, a: nat, d: nat): (r: nat)
    ensures r < Pow2(f.Size())
  {
    Rem(a * Pow2(d), Pow2(f.Size()))
  }

  lemma ShlExact(f: Fmt, a: nat, d: nat)
    requires a * Pow2(d) < Pow2(f.Size())
    ensures Shl(f, a, d) == a * Pow2(d)
  {
    QuotRemUnique(a * Pow2(d), Pow2(f.Size()), 0, a * Pow2(d));
  }

  /** `v` stands for `z`, either exactly or well enough for its leading `msize + 1` bits. */
  ghost predicate Faithful(f: Fmt, z: real, v: nat, j: nat)
  {
    z == v as real || (v >= Pow2(f.msize + 1 + j) && Jam(z, v, Pow2(j)))
  }

  /** Moving the leading bit to the top of a field of `b` bits. */
  lemma LeadingBit(v: nat, b: nat)
    requires v > 0 && BitLen(v) <= b
    ensures Pow2(b - 1) <= v * Pow2(b - BitLen(v)) < Pow2(b)
  {
    hide Pow2, BitLen;
    var s := b - BitLen(v);
    BitLenBounds(v);
    Pow2Add(BitLen(v) - 1, s);
    Pow2Add(BitLen(v), s);
    MulOrder(Pow2(BitLen(v) - 1), v, Pow2(s));
    MulOrder(v, Pow2(BitLen(v)), Pow2(s));
  }

  /** Shift left by `s`, then drop `t` low bits into the sticky bit. */
  lemma NormalizedJam(f: Fmt, z: real, v: nat, j: nat, s: nat, t: nat, z': real, w: nat)
    requires z == v as real || (Jam(z, v, Pow2(j)) && j + s <= f.RndSize() - 1 + t)
    requires z' == z * P2(s - t) && w == v * Pow2(s)
    ensures Jam(z', OrBit(Quot(w, Pow2(t)), Rem(w, Pow2(t)) != 0), HalfUlp(f))
  {
    hide Jam, Pow2, P2, Quot, Rem, OrBit, HalfUlp;
    var y, g := z * P2(s), Pow2(f.RndSize() - 1 + t);
    LeftShiftJam(z, v, j, s, f.RndSize() - 1 + t, y, w);
    RightJam(f, z, s, y, w, t, z', g);
  }

  lemma LeftShiftJam(z: real, v: nat, j: nat, s: nat, t: nat, y: real, w: nat)
    requires z == v as real || (Jam(z, v, Pow2(j)) && j + s <= t)
    requires y == z * P2(s) && w == v * Pow2(s)
    ensures Jam(y, w, Pow2(t))
  {
    hide Jam, Pow2, P2;
    if z == v as real {
      ExactLeft(z, v, s, y, w);
      JamExact(w, Pow2(t));
    } else {
      LeftJam(z, v, j, s, t, y, w);
    }
  }

  lemma ExactLeft(z: real, v: nat, s: nat, y: real, w: nat)
    requires z == v as real && y == z * P2(s) && w == v * Pow2(s)
    ensures y == w as real
  {
    hide P2, Pow2;
    P2Nat(s);
    RealProduct(v, Pow2(s));
  }

  lemma RightJam(f: Fmt, z: real, s: int, y: real, w: nat, t: nat, z': real, g: nat)
    requires g == Pow2(f.RndSize() - 1 + t) && Jam(y, w, g)
    requires y == z * P2(s) && z' == z * P2(s - t)
    ensures Jam(z', OrBit(Quot(w, Pow2(t)), Rem(w, Pow2(t)) != 0), HalfUlp(f))
  {
    hide Jam, Pow2, P2, Quot, Rem, OrBit, HalfUlp;
    P2Nat(t);
    P2Add(s - t, t);
    MulAssoc(z, P2(s - t), P2(t));
    HalfUlpScaled(f, t);
    JamShift(y, w, HalfUlp(f), Pow2(t), z');
  }

  lemma LeftJam(z: real, v: nat, j: nat, s: nat, t: nat, y: real, w: nat)
    requires Jam(z, v, Pow2(j)) && j + s <= t
    requires y == z * P2(s) && w == v * Pow2(s)
    ensures Jam(y, w, Pow2(t))
  {
    hide Jam, Pow2, P2;
    P2Nat(s);
    Pow2Add(j, s);
    Pow2Add(j + s, t - j - s);
    JamScale(z, v, Pow2(j), Pow2(s), y, w, Pow2(j + s));
    JamCoarser(y, w, Pow2(j + s), Pow2(t - j - s), Pow2(t));
  }

  lemma HalfUlpScaled(f: Fmt, t: nat)
    ensures HalfUlp(f) * Pow2(t) == Pow2(f.RndSize() - 1 + t)
  {
    Pow2Add(f.RndSize() - 1, t);
  }

  lemma ShiftScale(f: Fmt, z: real, x: real, exp: int, d: int, z': real)
    requires x == z * P2(exp - 1 - f.RndSize() + f.UnitExp()) && z' == z * P2(d)
    ensures x == z' * P2(exp - d - 1 - f.RndSize() + f.UnitExp())
  {
    hide P2, Format.UnitExp;
    var k := exp - d - 1 - f.RndSize() + f.UnitExp();
    P2Add(d, k);
    assert P2(d + k) == P2(exp - 1 - f.RndSize() + f.UnitExp());
    MulAssoc(z, P2(d), P2(k));
  }

  method NormalizeSf(f: Fmt, neg: bool, aExp: int, aMant: nat, rm: Mode, fl0: set<Flag>,
                     ghost z: real, ghost j: nat, ghost x: real) returns (r: nat, fl: set<Flag>)
    requires aMant < Pow2(f.Size() - 1) && Faithful(f, z, aMant, j)
    requires x >= 0.0 && x == z * P2(aExp - 1 - f.RndSize() + f.UnitExp())
    ensures r == IeeeBits(f, rm, neg, x)
    ensures fl == fl0 + RoundFlags(f, rm, neg, x)
  {
    hide Jam, Pow2, P2, Quot, Rem, OrBit, HalfUlp, IeeeBits, RoundFlags, Shl, BitLen, Format.UnitExp;
    Pow2Succ(f.Size() - 1);
    BitLenAtMost(aMant, f.Size() - 1);
    var shift := Clz(f, aMant) - 1;
    var mant := Shl(f, aMant, shift);
    ghost var z' := z * P2(shift);
    NormalizeStep(f, z, aMant, j, shift, z');
    ShiftScale(f, z, x, aExp, shift, z');
    r, fl := RoundPackSf(f, neg, aExp - shift, mant, rm, fl0, z', x);
  }

  lemma NormalizeStep(f: Fmt, z: real, v: nat, j: nat, s: nat, z': real)
    requires v < Pow2(f.Size() - 1) && Faithful(f, z, v, j)
    requires s == f.Size() - 1 - BitLen(v) && z' == z * P2(s)
    ensures Jam(z', Shl(f, v, s), HalfUlp(f))
    ensures Shl(f, v, s) == 0 || Pow2(f.Size() - 2) <= Shl(f, v, s) < Pow2(f.Size() - 1)
  {
    hide Jam, Pow2, P2, Quot, Rem, OrBit, HalfUlp, Shl, BitLen;
    Pow2Succ(f.Size() - 1);
    if v == 0 {
      assert v * Pow2(s) == 0;
    } else {
      LeadingBit(v, f.Size() - 1);
    }
    ShlExact(f, v, s);
    if z != v as real {
      BitLenAtLeast(v, f.msize + 1 + j);
    }
    NormalizedJam(f, z, v, j, s, 0, z', v * Pow2(s));
    DropNothing(v * Pow2(s));
  }

  lemma DropNothing(a: nat)
    ensures OrBit(Quot(a, Pow2(0)), Rem(a, Pow2(0)) != 0) == a
  {
    QuotRemUnique(a, 1, a, 0);
  }

  lemma Determined(f: Fmt, rm: Mode, neg: bool, aExp: int, aMant: nat, j: nat, z1: real, x1: real, z2: real, x2: real)
    requires aMant < Pow2(f.Size() - 1) && Faithful(f, z1, aMant, j) && Faithful(f, z2, aMant, j)
    requires x1 >= 0.0 && x1 == z1 * P2(aExp - 1 - f.RndSize() + f.UnitExp())
    requires x2 >= 0.0 && x2 == z2 * P2(aExp - 1 - f.RndSize() + f.UnitExp())
    ensures IeeeBits(f, rm, neg, x1) == IeeeBits(f, rm, neg, x2)
    ensures RoundFlags(f, rm, neg, x1) == RoundFlags(f, rm, neg, x2)
  {
    hide Jam, Pow2, P2, HalfUlp, Shl, BitLen, IeeeBits, RoundFlags, Faithful, Format.UnitExp;
    BitLenAtMost(aMant, f.Size() - 1);
    var s := f.Size() - 1 - BitLen(aMant);
    var z1', z2' := z1 * P2(s), z2 * P2(s);
    NormalizeStep(f, z1, aMant, j, s, z1');
    NormalizeStep(f, z2, aMant, j, s, z2');
    ShiftScale(f, z1, x1, aExp, s, z1');
    ShiftScale(f, z2, x2, aExp, s, z2');
    WordDetermines(f, rm, neg, aExp - s, Shl(f, aMant, s), z1', x1, z2', x2);
  }

  // ---- two words ----

  lemma BitLenConcat(hi: nat, lo: nat, k: nat)
    requires lo < Pow2(k)
    ensures BitLen(hi * Pow2(k) + lo) == if hi == 0 then BitLen(lo) else BitLen(hi) + k
  {
    hide Pow2, BitLen;
    var p, v := Pow2(k), hi * Pow2(k) + lo;
    if hi == 0 {
      assert v == lo;
    } else {
      var n := BitLen(hi);
      BitLenBounds(hi);
      ConcatBounds(hi, lo, p, Pow2(n - 1), Pow2(n));
      Pow2Add(n - 1, k);
      Pow2Add(n, k);
      BitLenAtLeast(v, n - 1 + k);
      BitLenAtMost(v, n + k);
    }
  }

  lemma ConcatBounds(hi: nat, lo: nat, p: nat, a: nat, b: nat)
    requires lo < p && a <= hi < b
    ensures a * p <= hi * p + lo < b * p
  {
    MulOrder(a, hi, p);
    MulOrder(hi + 1, b, p);
    DistributeRight(hi, 1, p);
  }

  /** The bits a left shift moves into the upper word, and those it keeps. */
  lemma ShiftAcross(f: Fmt, lo: nat, d: nat)
    requires lo < Pow2(f.Size()) && 0 < d < f.Size()
    ensures lo * Pow2(d) == Quot(lo, Pow2(f.Size() - d)) * Pow2(f.Size()) + Shl(f, lo, d)
  {
    hide Quot, Rem, Pow2;
    var c, p := Pow2(f.Size() - d), Pow2(f.Size());
    Pow2Add(f.Size() - d, d);
    QuotRem(lo, c);
    var a, b := Quot(lo, c), Rem(lo, c);
    MulOrder(b, c, Pow2(d));
    MulExchange(a, c, Pow2(d));
    assert (a * c + b) * Pow2(d) == a * p + b * Pow2(d);
    QuotRemUnique(lo * Pow2(d), p, a, b * Pow2(d));
  }

  /** The upper word after a two-word left shift, with the rest folded into its lowest bit. */
  function UpperWord(f: Fmt, hi: nat, lo: nat, shift: nat): (r: nat)
    requires lo < Pow2(f.Size())
  {
    if shift == 0 then OrBit(hi, lo != 0)
    else if shift < f.Size() then
      OrBit(Shl(f, hi, shift) + Quot(lo, Pow2(f.Size() - shift)), Shl(f, lo, shift) != 0)
    else Shl(f, lo, shift - f.Size())
  }

  lemma UpperWordIs(f: Fmt, hi: nat, lo: nat, shift: nat, w: nat)
    requires lo < Pow2(f.Size()) && w == (hi * Pow2(f.Size()) + lo) * Pow2(shift)
    requires w < Pow2(f.Size()) * Pow2(f.Size()) && (shift >= f.Size() ==> hi == 0)
    ensures UpperWord(f, hi, lo, shift) == OrBit(Quot(w, Pow2(f.Size())), Rem(w, Pow2(f.Size())) != 0)
  {
    hide Quot, Rem, Pow2, Shl, OrBit;
    if shift == 0 {
      Pow2Succ(0);
      QuotRemUnique(w, Pow2(f.Size()), hi, lo);
    } else if shift < f.Size() {
      UpperWordShort(f, hi, lo, shift, w);
    } else {
      UpperWordLong(f, lo, shift, w);
    }
  }

  lemma UpperWordShort(f: Fmt, hi: nat, lo: nat, shift: nat, w: nat)
    requires lo < Pow2(f.Size()) && w == (hi * Pow2(f.Size()) + lo) * Pow2(shift)
    requires w < Pow2(f.Size()) * Pow2(f.Size()) && 0 < shift < f.Size()
    ensures Quot(w, Pow2(f.Size())) == Shl(f, hi, shift) + Quot(lo, Pow2(f.Size() - shift))
    ensures Rem(w, Pow2(f.Size())) == Shl(f, lo, shift)
  {
    hide Quot, Rem, Pow2, Shl;
    var p, s := Pow2(f.Size()), Pow2(shift);
    var a, b := Quot(lo, Pow2(f.Size() - shift)), Shl(f, lo, shift);
    var hs := hi * s;
    assert w == (hs + a) * p + b by {
      ShiftAcross(f, lo, shift);
      MulExchange(hi, p, s);
      DistributeRight(hi * p, lo, s);
      DistributeRight(hs, a, p);
    }
    QuotRemUnique(w, p, hs + a, b);
    MulOrder(hs + a, p, p);
    ShlExact(f, hi, shift);
  }

  lemma UpperWordLong(f: Fmt, lo: nat, shift: nat, w: nat)
    requires lo < Pow2(f.Size()) && w == (0 * Pow2(f.Size()) + lo) * Pow2(shift)
    requires w < Pow2(f.Size()) * Pow2(f.Size()) && shift >= f.Size()
    ensures Shl(f, lo, shift - f.Size()) == OrBit(Quot(w, Pow2(f.Size())), Rem(w, Pow2(f.Size())) != 0)
  {
    hide Quot, Rem, Pow2, Shl, OrBit;
    var p, d := Pow2(f.Size()), shift - f.Size();
    var ls := lo * Pow2(d);
    assert w == ls * p by {
      Pow2Add(d, f.Size());
      MulExchange(lo, Pow2(d), p);
    }
    QuotRemUnique(w, p, ls, 0);
    MulOrder(ls, p, p);
    ShlExact(f, lo, d);
    NoSticky(ls);
  }

  lemma NoSticky(a: nat)
    ensures OrBit(a, false) == a
  {
  }

  method Normalize2Sf(f: Fmt, neg: bool, aExp: int, aMant1: nat, aMant0: nat, rm: Mode, fl0: set<Flag>,
                      ghost z: real, ghost j: nat, ghost x: real) returns (r: nat, fl: set<Flag>)
    requires aMant1 < Pow2(f.Size() - 1) && aMant0 < Pow2(f.Size())
    requires Faithful(f, z, aMant1 * Pow2(f.Size()) + aMant0, j)
    requires x >= 0.0 && x == z * P2(aExp - f.Size() - 1 - f.RndSize() + f.UnitExp())
    ensures r == IeeeBits(f, rm, neg, x)
    ensures fl == fl0 + RoundFlags(f, rm, neg, x)
  {
    hide Jam, Pow2, P2, Quot, Rem, OrBit, HalfUlp, IeeeBits, RoundFlags, Shl, BitLen, Faithful, Format.UnitExp;
    Pow2Succ(f.Size() - 1);
    BitLenAtMost(aMant1, f.Size() - 1);
    BitLenConcat(aMant1, aMant0, f.Size());
    var l := if aMant1 == 0 then f.Size() + Clz(f, aMant0) else Clz(f, aMant1);
    var shift := l - 1;
    var mant: nat;
    if shift == 0 {
      mant := OrBit(aMant1, aMant0 != 0);
    } else if shift < f.Size() {
      mant := OrBit(Shl(f, aMant1, shift) + Quot(aMant0, Pow2(f.Size() - shift)), Shl(f, aMant0, shift) != 0);
    } else {
      mant := Shl(f, aMant0, shift - f.Size());
    }
    assert mant == UpperWord(f, aMant1, aMant0, shift);
    ghost var z' := z * P2(shift - f.Size());
    Normalize2Step(f, z, aMant1, aMant0, j, shift, z', aMant1 * Pow2(f.Size()) + aMant0);
    hide UpperWord;
    ShiftScale(f, z, x, aExp - f.Size(), shift - f.Size(), z');
    r, fl := RoundPackSf(f, neg, aExp - shift, mant, rm, fl0, z', x);
  }

  lemma Normalize2Step(f: Fmt, z: real, hi: nat, lo: nat, j: nat, s: nat, z': real, v: nat)
    requires hi < Pow2(f.Size() - 1) && lo < Pow2(f.Size()) && v == hi * Pow2(f.Size()) + lo
    requires Faithful(f, z, v, j)
    requires BitLen(v) <= 2 * f.Size() - 1 && s == 2 * f.Size() - 1 - BitLen(v) && z' == z * P2(s - f.Size())
    ensures Jam(z', UpperWord(f, hi, lo, s), HalfUlp(f))
    ensures UpperWord(f, hi, lo, s) == 0 || Pow2(f.Size() - 2) <= UpperWord(f, hi, lo, s) < Pow2(f.Size() - 1)
  {
    hide Jam, Pow2, P2, Quot, Rem, OrBit, HalfUlp, BitLen, UpperWord;
    var w := v * Pow2(s);
    Pow2Add(f.Size(), f.Size());
    Pow2Mono(2 * f.Size() - 1, 2 * f.Size());
    if v == 0 {
      assert w == 0;
    } else {
      LeadingBit(v, 2 * f.Size() - 1);
    }
    if z != v as real {
      BitLenAtLeast(v, f.msize + 1 + j);
    }
    ShortWhenUpper(f, hi, lo, s, v);
    UpperWordIs(f, hi, lo, s, w);
    NormalizedJam(f, z, v, j, s, f.Size(), z', w);
    UpperWordRange(f, w);
  }

  lemma ShortWhenUpper(f: Fmt, hi: nat, lo: nat, s: nat, v: nat)
    requires lo < Pow2(f.Size()) && v == hi * Pow2(f.Size()) + lo
    requires s == 2 * f.Size() - 1 - BitLen(v)
    ensures s >= f.Size() ==> hi == 0
  {
    BitLenConcat(hi, lo, f.Size());
  }

  lemma UpperWordRange(f: Fmt, w: nat)
    requires w == 0 || Pow2(2 * f.Size() - 2) <= w < Pow2(2 * f.Size() - 1)
    ensures var u := OrBit(Quot(w, Pow2(f.Size())), Rem(w, Pow2(f.Size())) != 0);
            u == 0 || Pow2(f.Size() - 2) <= u < Pow2(f.Size() - 1)
  {
    hide Quot, Rem, Pow2;
    var p := Pow2(f.Size());
    if w == 0 {
      QuotRemUnique(0, p, 0, 0);
    } else {
      Pow2Add(f.Size() - 2, f.Size());
      Pow2Add(f.Size() - 1, f.Size());
      QuotBounds(w, p, Pow2(f.Size() - 2));
      QuotBounds(w, p, Pow2(f.Size() - 1));
    }
  }
}
