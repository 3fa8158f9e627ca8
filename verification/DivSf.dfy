/** Division: bitwise long division of normalized significands, remainder into the sticky bit, round once. */
module DivSf {
  import opened Powers
  import opened Sticky
  import opened Ieee
  import opened RoundPack
  import opened Normalize
  import opened MulSf
  import opened OperationLaws
  import FS = FloatSpec

  // ---- long division of a double word ----

  /** One step: the next bit of the dividend enters the running remainder. */
  lemma DivideStep(top: nat, q: nat, rem: nat, b: nat, t: nat, qb: nat)
    requires b > 0 && rem < b && t <= 1 && top == q * b + rem
    requires qb == if 2 * rem + t >= b then 1 else 0
    ensures 2 * top + t == (2 * q + qb) * b + (2 * rem + t - qb * b)
    ensures 0 <= 2 * rem + t - qb * b < b
  {
    assert (2 * q + qb) * b == 2 * (q * b) + qb * b;
  }

  /** The bits of the dividend's low word not yet consumed are the top bits of the register. */
  lemma NextBit(f: Fmt, a0: nat, i: nat, low: nat, q: nat)
    requires a0 < Pow2(f.Size()) && i < f.Size() && q < Pow2(i)
    requires low == Rem(a0, Pow2(f.Size() - i)) * Pow2(i) + q
    ensures low < Pow2(f.Size())
    ensures var t := Quot(low, Pow2(f.Size() - 1));
            t <= 1 &&
            Quot(a0, Pow2(f.Size() - i - 1)) == 2 * Quot(a0, Pow2(f.Size() - i)) + t &&
            Shl(f, low, 1) == Rem(a0, Pow2(f.Size() - i - 1)) * Pow2(i + 1) + 2 * q
  {
    hide Pow2, Quot, Rem;
    var n := f.Size();
    Pow2Succ(n - i - 1);
    Pow2Succ(i);
    Pow2Succ(n - 1);
    Pow2Succ(0);
    Pow2Add(n - i - 1, i);
    NextBitInts(a0, Pow2(n - i - 1), Pow2(i), Pow2(n - 1), low, q);
  }

  lemma NextBitInts(a0: nat, half: nat, p: nat, top: nat, low: nat, q: nat)
    requires half > 0 && q < p && top == half * p
    requires low == Rem(a0, 2 * half) * p + q
    ensures top > 0 && low < 2 * top
    ensures Quot(low, top) <= 1
    ensures Quot(a0, half) == 2 * Quot(a0, 2 * half) + Quot(low, top)
    ensures Rem(low * 2, 2 * top) == Rem(a0, half) * (2 * p) + 2 * q
  {
    hide Quot, Rem;
    var r := Rem(a0, 2 * half);
    QuotRem(a0, 2 * half);
    QuotRem(r, half);
    QuotBounds(r, half, 2);
    var t, s := Quot(r, half), Rem(r, half);
    LowerHalf(Quot(a0, 2 * half), t, half);
    QuotRemUnique(a0, half, 2 * Quot(a0, 2 * half) + t, s);
    BitAtTop(t, s, half, p, q, top, low);
    QuotRemUnique(low * 2, 2 * top, t, s * (2 * p) + 2 * q);
  }

  lemma LowerHalf(a: nat, t: nat, half: nat)
    ensures a * (2 * half) + t * half == (2 * a + t) * half
  {
  }

  lemma BitAtTop(t: nat, s: nat, half: nat, p: nat, q: nat, top: nat, low: nat)
    requires t <= 1 && s < half && q < p && top == half * p
    requires low == (t * half + s) * p + q
    ensures top > 0 && Quot(low, top) == t
    ensures 2 * low == t * (2 * top) + (s * (2 * p) + 2 * q)
    ensures s * (2 * p) + 2 * q < 2 * top && low < 2 * top
  {
    assert low == t * top + (s * p + q);
    FS.FieldBound(s, q, half, p);
    QuotRemUnique(low, top, t, s * p + q);
    assert s * (2 * p) == 2 * (s * p);
  }

  /** After `i` steps: `quo` and `a1` are quotient and remainder of the top `Size + i` bits of the dividend, and
      the register `a0` holds the bits still to come above the quotient bits found so far. Divided by zero, every bit
      of the quotient is one. */
  ghost predicate Dividing(f: Fmt, ah: nat, al: nat, b: nat, i: nat, a1: nat, a0: nat, quo: nat)
    requires i <= f.Size()
  {
    quo < Pow2(i) && a0 == Rem(al, Pow2(f.Size() - i)) * Pow2(i) + quo &&
    if b == 0 then quo == Pow2(i) - 1
    else a1 < b && ah * Pow2(i) + Quot(al, Pow2(f.Size() - i)) == quo * b + a1
  }

  lemma DividingStep(f: Fmt, ah: nat, al: nat, b: nat, i: nat, a1: nat, a0: nat, quo: nat, ab: nat, t: nat, a1': nat,
                     qb: nat)
    requires (b == 0 || ah < b) && b < Pow2(f.Size()) && al < Pow2(f.Size())
    requires i < f.Size() && Dividing(f, ah, al, b, i, a1, a0, quo)
    requires ab == Quot(a1, Pow2(f.Size() - 1)) && t == Quot(a0, Pow2(f.Size() - 1))
    requires qb <= 1 && (qb == 1 <==> ab != 0 || Shl(f, a1, 1) + t >= b)
    requires a1' == if qb == 1 then Rem(Shl(f, a1, 1) + t + (Pow2(f.Size()) - b), Pow2(f.Size())) else Shl(f, a1, 1) + t
    ensures Dividing(f, ah, al, b, i + 1, a1', Shl(f, a0, 1) + qb, 2 * quo + qb)
  {
    hide Pow2, Quot, Rem, Shl, Dividing;
    RegisterStep(f, ah, al, b, i, a1, a0, quo, qb);
    if b == 0 {
      AllOnes(f, ah, al, i, a1, a0, quo, a1', Shl(f, a0, 1) + 1);
    } else {
      RemainderStep(f, ah, al, b, i, a1, a0, quo, ab, t, a1', qb);
      DividingIs(f, ah, al, b, i + 1, a1', Shl(f, a0, 1) + qb, 2 * quo + qb);
    }
  }

  lemma AllOnes(f: Fmt, ah: nat, al: nat, i: nat, a1: nat, a0: nat, quo: nat, a1': nat, a0': nat)
    requires i < f.Size() && Dividing(f, ah, al, 0, i, a1, a0, quo)
    requires 2 * quo + 1 < Pow2(i + 1)
    requires a0' == Rem(al, Pow2(f.Size() - (i + 1))) * Pow2(i + 1) + (2 * quo + 1)
    ensures Dividing(f, ah, al, 0, i + 1, a1', a0', 2 * quo + 1)
  {
    Pow2Succ(i);
    hide Pow2, Quot, Rem;
  }

  lemma DividingIs(f: Fmt, ah: nat, al: nat, b: nat, i: nat, a1: nat, a0: nat, quo: nat)
    requires i <= f.Size() && b > 0
    requires a1 < b && quo < Pow2(i)
    requires a0 == Rem(al, Pow2(f.Size() - i)) * Pow2(i) + quo
    requires ah * Pow2(i) + Quot(al, Pow2(f.Size() - i)) == quo * b + a1
    ensures Dividing(f, ah, al, b, i, a1, a0, quo)
  {
    hide Pow2, Quot, Rem;
  }

  lemma RemainderStep(f: Fmt, ah: nat, al: nat, b: nat, i: nat, a1: nat, a0: nat, quo: nat, ab: nat, t: nat, a1': nat,
                      qb: nat)
    requires ah < b < Pow2(f.Size()) && al < Pow2(f.Size())
    requires i < f.Size() && Dividing(f, ah, al, b, i, a1, a0, quo)
    requires ab == Quot(a1, Pow2(f.Size() - 1)) && t == Quot(a0, Pow2(f.Size() - 1))
    requires qb <= 1 && (qb == 1 <==> ab != 0 || Shl(f, a1, 1) + t >= b)
    requires a1' == if qb == 1 then Rem(Shl(f, a1, 1) + t + (Pow2(f.Size()) - b), Pow2(f.Size())) else Shl(f, a1, 1) + t
    ensures a1' < b
    ensures ah * Pow2(i + 1) + Quot(al, Pow2(f.Size() - (i + 1))) == (2 * quo + qb) * b + a1'
  {
    hide Pow2, Quot, Rem, Shl;
    NextBit(f, al, i, a0, quo);
    DoubleWord(f, a1);
    Pow2Succ(i);
    RemainderInts(ah, Pow2(i), Quot(al, Pow2(f.Size() - i)), b, Pow2(f.Size()), a1, quo, ab, t, Shl(f, a1, 1), a1', qb);
  }

  lemma RemainderInts(ah: nat, p: nat, x: nat, b: nat, n: nat, a1: nat, quo: nat, ab: nat, t: nat, sh: nat, a1': nat,
                      qb: nat)
    requires a1 < b < n && t <= 1 && ah * p + x == quo * b + a1
    requires 2 * a1 == ab * n + sh && ab <= 1 && sh < n && sh % 2 == 0
    requires n % 2 == 0 && qb <= 1 && (qb == 1 <==> ab != 0 || sh + t >= b)
    requires a1' == if qb == 1 then Rem(sh + t + (n - b), n) else sh + t
    ensures a1' < b
    ensures ah * (2 * p) + (2 * x + t) == (2 * quo + qb) * b + a1'
  {
    hide Rem;
    TimesBit(ab, n);
    SubtractWraps(ab, 2 * a1 + t, b, n, a1', qb);
    DivideStep(ah * p + x, quo, a1, b, t, qb);
    DoubleTop(ah, p, x, t);
  }

  lemma TimesBit(a: nat, n: nat)
    requires a <= 1
    ensures a * n == if a == 0 then 0 else n
  {
  }

  lemma RegisterStep(f: Fmt, ah: nat, al: nat, b: nat, i: nat, a1: nat, a0: nat, quo: nat, qb: nat)
    requires al < Pow2(f.Size()) && qb <= 1
    requires i < f.Size() && Dividing(f, ah, al, b, i, a1, a0, quo)
    ensures 2 * quo + qb < Pow2(i + 1)
    ensures Shl(f, a0, 1) + qb == Rem(al, Pow2(f.Size() - (i + 1))) * Pow2(i + 1) + (2 * quo + qb)
  {
    hide Pow2, Quot, Rem, Shl;
    NextBit(f, al, i, a0, quo);
    Pow2Succ(i);
  }

  /** One bit of the quotient. */
  method DivideBit(f: Fmt, b: nat, a1: nat, a0: nat, ghost ah: nat, ghost al: nat, ghost i: nat, ghost quo: nat)
    returns (a1': nat, a0': nat, ghost quo': nat)
    requires (b == 0 || ah < b) && b < Pow2(f.Size()) && al < Pow2(f.Size())
    requires i < f.Size() && Dividing(f, ah, al, b, i, a1, a0, quo)
    ensures Dividing(f, ah, al, b, i + 1, a1', a0', quo')
  {
    hide Pow2, Quot, Rem, Shl, Dividing;
    var ab := Quot(a1, Pow2(f.Size() - 1));
    var t := Quot(a0, Pow2(f.Size() - 1));
    a1' := Shl(f, a1, 1) + t;
    var qb: nat;
    if ab != 0 || a1' >= b {
      a1' := Rem(a1' + (Pow2(f.Size()) - b), Pow2(f.Size()));
      qb := 1;
    } else {
      qb := 0;
    }
    a0' := Shl(f, a0, 1) + qb;
    quo' := 2 * quo + qb;
    DividingStep(f, ah, al, b, i, a1, a0, quo, ab, t, a1', qb);
  }

  method DivremU(f: Fmt, ah: nat, al: nat, b: nat) returns (q: nat, r: nat)
    requires (b == 0 || ah < b) && b < Pow2(f.Size()) && al < Pow2(f.Size())
    ensures b > 0 ==> ah * Pow2(f.Size()) + al == q * b + r && r < b
    ensures q < Pow2(f.Size()) && (b == 0 ==> q == Pow2(f.Size()) - 1)
  {
    hide Pow2, Quot, Rem, Dividing;
    var a1, a0 := ah, al;
    ghost var quo := 0;
    Start(f, ah, al, b);
    for i := 0 to f.Size()
      invariant Dividing(f, ah, al, b, i, a1, a0, quo)
    {
      a1, a0, quo := DivideBit(f, b, a1, a0, ah, al, i, quo);
    }
    Finish(f, ah, al, b, a1, a0, quo);
    q, r := a0, a1;
  }

  lemma DoubleTop(a: nat, p: nat, x: nat, t: nat)
    ensures 2 * (a * p + x) + t == a * (2 * p) + (2 * x + t)
  {
  }

  lemma Start(f: Fmt, ah: nat, al: nat, b: nat)
    requires (b == 0 || ah < b) && al < Pow2(f.Size())
    ensures Dividing(f, ah, al, b, 0, ah, al, 0)
  {
    Pow2Succ(0);
    hide Pow2;
    QuotRemUnique(al, Pow2(f.Size()), 0, al);
  }

  lemma Finish(f: Fmt, ah: nat, al: nat, b: nat, a1: nat, a0: nat, quo: nat)
    requires Dividing(f, ah, al, b, f.Size(), a1, a0, quo)
    ensures b > 0 ==> ah * Pow2(f.Size()) + al == a0 * b + a1 && a1 < b
    ensures a0 < Pow2(f.Size()) && (b == 0 ==> a0 == Pow2(f.Size()) - 1)
  {
    Pow2Succ(0);
    hide Pow2, Quot, Rem;
    QuotRemUnique(al, 1, al, 0);
  }

  lemma DoubleWord(f: Fmt, a: nat)
    requires a < Pow2(f.Size())
    ensures 2 * a == Quot(a, Pow2(f.Size() - 1)) * Pow2(f.Size()) + Shl(f, a, 1)
    ensures Quot(a, Pow2(f.Size() - 1)) <= 1
    ensures Shl(f, a, 1) % 2 == 0
  {
    hide Pow2, Quot, Rem;
    var h := Pow2(f.Size() - 1);
    Pow2Succ(f.Size() - 1);
    Pow2Succ(f.Size() - 2);
    Pow2Succ(0);
    QuotRem(a, h);
    QuotBounds(a, h, 2);
    QuotRemUnique(2 * a, 2 * h, Quot(a, h), 2 * Rem(a, h));
  }

  /** Subtracting within the word is exact even when the shift carried out of it. */
  lemma SubtractWraps(ab: nat, wide: nat, b: nat, n: nat, a1: nat, qb: nat)
    requires 0 < b < n && wide < 2 * b && ab <= 1 && ab * n <= wide < ab * n + n
    requires qb <= 1 && (qb == 1 <==> ab != 0 || wide - ab * n >= b)
    requires a1 == if qb == 1 then Rem(wide - ab * n + (n - b), n) else wide - ab * n
    ensures a1 == wide - qb * b && a1 < b
    ensures qb == if wide >= b then 1 else 0
  {
    hide Quot, Rem;
    if qb == 1 {
      if ab == 1 {
        QuotRemUnique(wide - b, n, 0, wide - b);
      } else {
        QuotRemUnique(wide + (n - b), n, 1, wide - b);
      }
    }
  }

  // ---- the quotient of two significands ----

  lemma QuotientWord(f: Fmt, sa: nat, sb: nat, q: nat, r: nat, z: real)
    requires Pow2(f.msize) <= sa < 2 * Pow2(f.msize) && Pow2(f.msize) <= sb < 2 * Pow2(f.msize)
    requires sa * Pow2(f.Size()) == q * (4 * sb) + r && r < 4 * sb
    requires z * (4 * sb) as real == (sa * Pow2(f.Size())) as real
    ensures Faithful(f, z, OrBit(q, r != 0), 1) && OrBit(q, r != 0) < Pow2(f.Size() - 1)
  {
    hide Jam, Pow2;
    QuotientRange(f, sa, sb, q, r);
    QuotientFloor(4 * sb, q, r, z);
    JamFloor(z, q, r != 0);
    Pow2Mono(f.msize + 2, f.Size() - 3);
    Pow2Succ(f.Size() - 2);
    Pow2Succ(0);
  }

  lemma QuotientFloor(d: nat, q: nat, r: nat, z: real)
    requires r < d && z * d as real == (q * d + r) as real
    ensures q as real <= z < (q + 1) as real
    ensures z == q as real <==> r == 0
  {
    var t, qd := z * d as real, q as real * d as real;
    RealProduct(q, d);
    assert t == qd + r as real;
    assert (q + 1) as real * d as real == qd + d as real;
    RealMulOrder(q as real, z, d as real);
    RealMulOrder(z, (q + 1) as real, d as real);
  }

  lemma QuotientRange(f: Fmt, sa: nat, sb: nat, q: nat, r: nat)
    requires Pow2(f.msize) <= sa < 2 * Pow2(f.msize) && Pow2(f.msize) <= sb < 2 * Pow2(f.msize)
    requires sa * Pow2(f.Size()) == q * (4 * sb) + r && r < 4 * sb
    ensures Pow2(f.Size() - 3) <= q < Pow2(f.Size() - 1)
  {
    hide Pow2;
    var m, p := Pow2(f.msize), Pow2(f.Size() - 3);
    Pow2Succ(f.Size() - 1);
    Pow2Succ(f.Size() - 2);
    Pow2Succ(f.Size() - 3);
    QuotientRangeInts(m, p, sa, sb, q, r);
  }

  lemma QuotientRangeInts(m: nat, p: nat, sa: nat, sb: nat, q: nat, r: nat)
    requires p > 0 && m <= sa < 2 * m && m <= sb < 2 * m
    requires sa * (8 * p) == q * (4 * sb) + r && r < 4 * sb
    ensures p <= q < 4 * p
  {
    LowQuotient(8 * sa, 4 * sb, p, q, r);
    HighQuotient(8 * sa, 4 * sb, p, q, r);
    MulExchange(sa, 8, p);
  }

  lemma LowQuotient(a: nat, b: nat, p: nat, q: nat, r: nat)
    requires 0 < b <= a && a * p == q * b + r && r < b
    ensures p <= q
  {
    MulOrder(b, a, q + 1);
    MulOrder(p, q + 1, a);
    assert (q + 1) * b == q * b + b;
  }

  lemma HighQuotient(a: nat, b: nat, p: nat, q: nat, r: nat)
    requires p > 0 && 0 < b && a < 4 * b && a * p == q * b + r
    ensures q < 4 * p
  {
    MulOrder(a, 4 * b, p);
    MulOrder(q, 4 * p, b);
    assert (4 * b) * p == (4 * p) * b;
  }

  lemma QuotientValue(f: Fmt, a: nat, sa: nat, ea: int, b: nat, sb: nat, eb: int, z: real, k: int)
    requires Unpacked(f, a, sa, ea) && Unpacked(f, b, sb, eb)
    requires z * (4 * sb) as real == (sa * Pow2(f.Size())) as real
    requires k == ea - eb - f.Size() + 2
    ensures (z * P2(k)) * Mag(f, FS.BitsOf(f, b)) == Mag(f, FS.BitsOf(f, a))
  {
    hide P2, Pow2, Mag, FS.BitsOf, Format.UnitExp;
    P2Nat(f.Size());
    RealProduct(sa, Pow2(f.Size()));
    ScaledQuotient(z, sa as real, sb as real, f.Size(), k, eb - 1 + f.UnitExp(), ea - 1 + f.UnitExp());
  }

  lemma ScaledQuotient(z: real, sa: real, sb: real, n: int, k: int, j: int, i: int)
    requires z * (4.0 * sb) == sa * P2(n) && n + (k + j - 2) == i
    ensures (z * P2(k)) * (sb * P2(j)) == sa * P2(i)
  {
    hide P2;
    var h := k + j - 2;
    P2Add(k, j);
    P2Succ(h + 1);
    P2Succ(h);
    P2Add(n, h);
    QuotientFactors(z, P2(k), sb, P2(j), P2(h), sa, P2(n), P2(k + j), P2(i));
  }

  lemma QuotientFactors(z: real, pk: real, sb: real, pj: real, ph: real, sa: real, pn: real, pkj: real, pi: real)
    requires pkj == pk * pj && pkj == 4.0 * ph && pi == pn * ph && z * (4.0 * sb) == sa * pn
    ensures (z * pk) * (sb * pj) == sa * pi
  {
    calc {
      (z * pk) * (sb * pj);
      { FourFactors(z, pk, sb, pj); }
      (z * sb) * pkj;
      { QuarterMove(z, sb, ph); }
      (z * (4.0 * sb)) * ph;
      (sa * pn) * ph;
      { MulAssoc(sa, pn, ph); }
      sa * pi;
    }
  }

  lemma QuarterMove(z: real, s: real, p: real)
    ensures (z * s) * (4.0 * p) == (z * (4.0 * s)) * p
  {
    assert z * (4.0 * s) == 4.0 * (z * s);
    MulAssoc(4.0, z * s, p);
  }

  lemma SignedQuotient(f: Fmt, a: nat, b: nat, rm: Mode, neg: bool, x: real)
    requires neg == (FS.SignOf(f, a) != FS.SignOf(f, b)) && FS.Value(f, b) != 0.0
    requires x * Mag(f, FS.BitsOf(f, b)) == Mag(f, FS.BitsOf(f, a)) && x >= 0.0
    ensures FS.RoundExact(f, rm, FS.ExactQuotient(f, a, b), neg) ==
            FS.Outcome(IeeeBits(f, rm, neg, x), RoundFlags(f, rm, neg, x))
  {
    hide Mag, Pow2, FS.BitsOf, FS.SignOf, IeeeBits, RoundFlags;
    var p, q := Mag(f, FS.BitsOf(f, a)), Mag(f, FS.BitsOf(f, b));
    QuotientSigns(p, q, x);
    assert FS.ExactQuotient(f, a, b) == if neg then -x else x;
  }

  lemma QuotientSigns(p: real, q: real, x: real)
    requires q != 0.0 && x * q == p
    ensures p / q == x && (-p) / q == -x && p / (-q) == -x && (-p) / (-q) == x
  {
    assert p / q == x;
    assert (-x) * q == -p;
    assert (-p) / q == -x;
    assert x * (-q) == -p;
    assert (-p) / (-q) == x;
    assert (-x) * (-q) == p;
    assert p / (-q) == -x;
  }

  lemma QuotientNonneg(x: real, p: real, q: real)
    requires q > 0.0 && p >= 0.0 && x * q == p
    ensures x >= 0.0
  {
    if x < 0.0 {
      RealMulOrder(x, 0.0, q);
    }
  }

  // ---- the operation ----

  method Div(f: Fmt, a: nat, b: nat, rm: Mode, fl0: set<Flag>) returns (r: nat, fl: set<Flag>)
    requires FS.IsWord(f, a) && FS.IsWord(f, b)
    ensures r == FS.DivSpec(f, a, b, rm).bits
    ensures fl == fl0 + FS.DivSpec(f, a, b, rm).raised
    ensures QuotientDelivered(f, a, b, rm, r, FS.DivSpec(f, a, b, rm).raised)
  {
    QuotientLaw(f, a, b, rm);
    hide QuotientDelivered;
    hide Jam, Pow2, P2, Mag, Faithful, IeeeBits, RoundFlags, Unpacked, Shl, Quot, Rem, SignBit, FS.SignOf, FS.BitsOf,
      FS.ExpOf, FS.MantOf, FS.IsSignanSf, FS.IsSignaling, FS.ExactQuotient, FS.RoundExact,
      Format.UnitExp, Format.ExpMask, Format.Inf;
    var rSign := FS.SignOf(f, a) != FS.SignOf(f, b);
    var aExp: int, bExp: int := FS.ExpOf(f, a), FS.ExpOf(f, b);
    var aMant, bMant := FS.MantOf(f, a), FS.MantOf(f, b);
    FS.SignanIsSignaling(f, a);
    FS.SignanIsSignaling(f, b);
    FS.PackedConstants(f, rSign);
    FS.ExpMaskPositive(f);
    if aExp == f.ExpMask() {
      if aMant != 0 || FS.IsNaN(f, b) {
        return FS.QNaN(f), if FS.IsSignanSf(f, a) || FS.IsSignanSf(f, b) then fl0 + {InvalidOp} else fl0;
      } else if bExp == f.ExpMask() {
        return FS.QNaN(f), fl0 + {InvalidOp};
      } else {
        return Pack(f, rSign, f.ExpMask(), 0), fl0;
      }
    } else if bExp == f.ExpMask() {
      if bMant != 0 {
        return FS.QNaN(f), if FS.IsSignanSf(f, a) || FS.IsSignanSf(f, b) then fl0 + {InvalidOp} else fl0;
      } else {
        return Pack(f, rSign, 0, 0), fl0;
      }
    }
    FS.FiniteValue(f, a);
    FS.FiniteValue(f, b);
    if bExp == 0 {
      if bMant == 0 {
        if aExp == 0 && aMant == 0 {
          return FS.QNaN(f), fl0 + {InvalidOp};
        } else {
          return Pack(f, rSign, f.ExpMask(), 0), fl0 + {DivideZero};
        }
      }
      bExp, bMant := NormalizeSubnormalSf(f, bMant, b);
    } else {
      UnpackNormal(f, b);
      bMant := bMant + Pow2(f.msize);
    }
    if aExp == 0 {
      if aMant == 0 {
        ZeroOutcome(f, rm, rSign);
        SignedQuotient(f, a, b, rm, rSign, 0.0);
        return Pack(f, rSign, 0, 0), fl0;
      }
      aExp, aMant := NormalizeSubnormalSf(f, aMant, a);
    } else {
      UnpackNormal(f, a);
      aMant := aMant + Pow2(f.msize);
    }
    r, fl := DivFinite(f, a, aExp, aMant, b, bExp, bMant, rm, fl0, rSign);
  }

  /** The quotient of two nonzero finite operands, unpacked. */
  method DivFinite(f: Fmt, ghost a: nat, aExp: int, aMant: nat, ghost b: nat, bExp: int, bMant: nat, rm: Mode,
                   fl0: set<Flag>, rSign: bool) returns (r: nat, fl: set<Flag>)
    requires Unpacked(f, a, aMant, aExp) && Unpacked(f, b, bMant, bExp)
    requires FS.Value(f, b) != 0.0 && rSign == (FS.SignOf(f, a) != FS.SignOf(f, b))
    ensures r == FS.RoundExact(f, rm, FS.ExactQuotient(f, a, b), rSign).bits
    ensures fl == fl0 + FS.RoundExact(f, rm, FS.ExactQuotient(f, a, b), rSign).raised
  {
    hide Jam, Pow2, P2, Mag, Faithful, IeeeBits, RoundFlags, Unpacked, Shl, Quot, Rem, OrBit, FS.BitsOf, FS.SignOf,
      FS.ExactQuotient, FS.RoundExact, Format.UnitExp;
    SigBounds(f, a, aMant, aExp);
    SigBounds(f, b, bMant, bExp);
    DivisorFits(f, bMant);
    var rExp := aExp - bExp + Pow2(f.esize - 1) - 1;
    var rMant, rem := DivremU(f, aMant, 0, Shl(f, bMant, 2));
    ghost var z := (aMant * Pow2(f.Size())) as real / (4 * bMant) as real;
    ghost var x := z * P2(rExp - 1 - f.RndSize() + f.UnitExp());
    ScaleExponent(f, aExp, bExp);
    QuotientWord(f, aMant, bMant, rMant, rem, z);
    QuotientValue(f, a, aMant, aExp, b, bMant, bExp, z, aExp - bExp - f.Size() + 2);
    NonnegExact(f, a, b, x);
    SignedQuotient(f, a, b, rm, rSign, x);
    if rem != 0 {
      rMant := OrBit(rMant, true);
    } else {
      NoSticky(rMant);
    }
    r, fl := NormalizeSf(f, rSign, rExp, rMant, rm, fl0, z, 1, x);
  }

  lemma NonnegExact(f: Fmt, a: nat, b: nat, x: real)
    requires FS.Value(f, b) != 0.0 && x * Mag(f, FS.BitsOf(f, b)) == Mag(f, FS.BitsOf(f, a))
    ensures x >= 0.0
  {
    hide Mag, FS.BitsOf, FS.SignOf;
    FS.MagNonneg(f, FS.BitsOf(f, a));
    FS.MagNonneg(f, FS.BitsOf(f, b));
    QuotientNonneg(x, Mag(f, FS.BitsOf(f, a)), Mag(f, FS.BitsOf(f, b)));
  }

  lemma ScaleExponent(f: Fmt, ea: int, eb: int)
    ensures ea - eb + Pow2(f.esize - 1) - 1 - 1 - f.RndSize() + f.UnitExp() == ea - eb - f.Size() + 2
  {
    hide Pow2;
  }

  lemma DivisorFits(f: Fmt, sb: nat)
    requires Pow2(f.msize) <= sb < 2 * Pow2(f.msize)
    ensures Shl(f, sb, 2) == 4 * sb && 4 * sb < Pow2(f.Size())
    ensures 2 * Pow2(f.msize) <= 4 * sb
  {
    hide Pow2, Shl;
    ShiftedSig(f, sb, 2);
    Pow2Mono(f.msize + 3, f.Size());
    Pow2Succ(0);
    Pow2Succ(1);
  }
}
