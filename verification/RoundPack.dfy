/** The one place where a result is rounded: shift right with a sticky bit, round the significand,
    detect underflow and overflow, and pack the fields. */
module RoundPack {
  import opened Powers
  import opened Sticky
  import opened Ieee

  // ---- the fields of a word ----

  function Pack(f: Fmt, neg: bool, exp: nat, mant: nat): (w: nat)
    requires exp <= f.ExpMask()
  {
    SignBit(f, neg) + exp * Pow2(f.msize) + Rem(mant, Pow2(f.msize))
  }

  function RshiftRnd(f: Fmt, a: nat, d: nat): (r: nat)
    requires a < Pow2(f.Size())
    ensures r == OrBit(Quot(a, Pow2(d)), Rem(a, Pow2(d)) != 0)
  {
    if d == 0 then a
    else if d >= f.Size() then
      Pow2Mono(f.Size(), d);
      QuotRemUnique(a, Pow2(d), 0, a);
      if a != 0 then 1 else 0
    else OrBit(Quot(a, Pow2(d)), Rem(a, Pow2(d)) != 0)
  }

  // ---- rounding the significand ----

  /** What is added before the rounding bits are dropped; `h` is half a unit of the result. */
  function Addend(rm: Mode, neg: bool, h: nat): (r: nat)
    requires h > 0
    ensures r < 2 * h
    ensures r == 0 <==> TowardZero(rm, neg)
  {
    if Nearest(rm) then h else if TowardZero(rm, neg) then 0 else 2 * h - 1
  }

  /** The rounded significand. */
  function RoundMant(rm: Mode, neg: bool, h: nat, mant: nat): (q: nat)
    requires h > 0
  {
    var s := Quot(mant + Addend(rm, neg, h), 2 * h);
    if rm.RNE? && Rem(mant, 2 * h) == h then s - s % 2 else s
  }

  lemma HalfSteps(z: real, m: nat, h: nat, n: nat, r: nat) returns (pos: Position)
    requires h > 0 && Jam(z, m, h)
    requires m == n * (2 * h) + r && r < 2 * h
    ensures Located(z, n, (2 * h) as real, pos)
    ensures pos.OnGrid? <==> r == 0
    ensures pos.BelowHalf? <==> 0 < r < h
    ensures pos.Half? <==> r == h
  {
    RealProduct(n, 2 * h);
    assert n * (2 * h) == (2 * n) * h;
    if r < h {
      DivModUnique(m, h, 2 * n, r);
      pos := if r == 0 then OnGrid else BelowHalf;
    } else {
      assert (2 * n + 1) * h == (2 * n) * h + h;
      DivModUnique(m, h, 2 * n + 1, r - h);
      pos := if r == h then Half else AboveHalf;
    }
  }

  lemma QuotSplit(n: nat, d: nat, t: nat)
    requires t < 2 * d
    ensures Quot(n * d + t, d) == if t < d then n else n + 1
  {
    if t < d {
      QuotRemUnique(n * d + t, d, n, t);
    } else {
      assert (n + 1) * d == n * d + d;
      QuotRemUnique(n * d + t, d, n + 1, t - d);
    }
  }

  lemma PickByRemainder(rm: Mode, neg: bool, h: nat, n: nat, r: nat, pos: Position)
    requires h > 0 && r < 2 * h
    requires (pos.OnGrid? <==> r == 0) && (pos.BelowHalf? <==> 0 < r < h) && (pos.Half? <==> r == h)
    ensures var s := if r + Addend(rm, neg, h) < 2 * h then n else n + 1;
            Pick(rm, neg, n, pos) == if rm.RNE? && r == h then s - s % 2 else s
  {
  }

  /** Adding and truncating picks the neighbour that correct rounding picks. */
  lemma RoundMantPicks(rm: Mode, neg: bool, z: real, h: nat, mant: nat) returns (pos: Position)
    requires h > 0 && Jam(z, mant, h)
    ensures Located(z, Quot(mant, 2 * h), (2 * h) as real, pos)
    ensures pos.OnGrid? <==> Rem(mant, 2 * h) == 0
    ensures RoundMant(rm, neg, h, mant) == Pick(rm, neg, Quot(mant, 2 * h), pos)
  {
    hide Jam, Located, Quot, Rem, Pick, Addend;
    var n, r := Quot(mant, 2 * h), Rem(mant, 2 * h);
    QuotRem(mant, 2 * h);
    pos := HalfSteps(z, mant, h, n, r);
    QuotSplit(n, 2 * h, r + Addend(rm, neg, h));
    PickByRemainder(rm, neg, h, n, r, pos);
  }

  /** Half a unit in the last place of a word that carries `RndSize` rounding bits. */
  function HalfUlp(f: Fmt): (h: nat)
    ensures h > 0 && h % 2 == 0
    ensures 2 * h == Pow2(f.RndSize())
  {
    Pow2Succ(f.RndSize() - 1);
    Pow2(f.RndSize() - 1)
  }

  lemma LocateMant(f: Fmt, rm: Mode, neg: bool, z: real, x: real, e: int, mant: nat) returns (pos: Position)
    requires Jam(z, mant, HalfUlp(f))
    requires x == z * P2(e - 1 - f.RndSize() + f.UnitExp())
    ensures Located(x, Quot(mant, 2 * HalfUlp(f)), P2(e - 1 + f.UnitExp()), pos)
    ensures pos.OnGrid? <==> Rem(mant, 2 * HalfUlp(f)) == 0
    ensures RoundMant(rm, neg, HalfUlp(f), mant) == Pick(rm, neg, Quot(mant, 2 * HalfUlp(f)), pos)
  {
    hide Jam, Located, Pow2, P2, Quot, Rem, RoundMant, Pick, HalfUlp, Format.UnitExp;
    var h := HalfUlp(f);
    pos := RoundMantPicks(rm, neg, z, h, mant);
    var k := e - 1 - f.RndSize() + f.UnitExp();
    P2Nat(f.RndSize());
    P2Add(f.RndSize(), k);
    assert P2(f.RndSize() + k) == P2(e - 1 + f.UnitExp());
    LocatedScale(z, Quot(mant, 2 * h), (2 * h) as real, pos, P2(k), x, P2(e - 1 + f.UnitExp()));
  }

  lemma WordSplit(f: Fmt)
    ensures Pow2(f.Size() - 2) == Pow2(f.msize) * (2 * HalfUlp(f))
    ensures Pow2(f.Size() - 1) == (2 * Pow2(f.msize)) * (2 * HalfUlp(f))
  {
    Pow2Add(f.msize, f.RndSize());
    Pow2Add(f.msize + 1, f.RndSize());
    Pow2Succ(f.msize);
  }

  lemma QuotBounds(a: nat, d: nat, k: nat)
    requires d > 0
    ensures Quot(a, d) < k <==> a < k * d
  {
    hide Quot, Rem;
    QuotRem(a, d);
    var q := Quot(a, d);
    MulOrder(q + 1, k, d);
    MulOrder(q, k, d);
    assert (q + 1) * d == q * d + d;
  }

  /** A word with `RndSize` rounding bits, whose exponent field would be `e`, rounds to the magnitude
      bits one gets by adding the rounded significand to the exponent field below. */
  lemma RoundWord(f: Fmt, rm: Mode, neg: bool, z: real, x: real, e: nat, mant: nat)
    requires Jam(z, mant, HalfUlp(f)) && x >= 0.0
    requires e >= 1 && x == z * P2(e - 1 - f.RndSize() + f.UnitExp())
    requires mant < Pow2(f.Size() - 1) && (e == 1 || mant >= Pow2(f.Size() - 2))
    ensures var q := RoundMant(rm, neg, HalfUlp(f), mant);
            Rounded(f, rm, neg, x) == (e - 1) * Pow2(f.msize) + q &&
            q <= 2 * Pow2(f.msize) && (e == 1 || q >= Pow2(f.msize))
    ensures Mag(f, Rounded(f, rm, neg, x)) == x <==> Rem(mant, 2 * HalfUlp(f)) == 0
  {
    hide Jam, Located, Pow2, P2, Quot, Rem, RoundMant, Pick, HalfUlp, IsRounding, Mag, Format.UnitExp;
    var pos := LocateMant(f, rm, neg, z, x, e, mant);
    var n := Quot(mant, 2 * HalfUlp(f));
    WordSplit(f);
    QuotBounds(mant, 2 * HalfUlp(f), 2 * Pow2(f.msize));
    QuotBounds(mant, 2 * HalfUlp(f), Pow2(f.msize));
    RoundingAt(f, rm, neg, x, e, n, pos);
    RoundedIs(f, rm, neg, x, (e - 1) * Pow2(f.msize) + Pick(rm, neg, n, pos));
    PickIsExact(rm, neg, x, n, P2(e - 1 + f.UnitExp()), pos);
  }

  lemma PickIsExact(rm: Mode, neg: bool, x: real, n: nat, s: real, pos: Position)
    requires s > 0.0 && Located(x, n, s, pos)
    ensures Pick(rm, neg, n, pos) as real * s == x <==> pos.OnGrid?
  {
    assert (n + 1) as real * s == n as real * s + s;
  }

  /** The code's test for a subnormal result is tininess after rounding. */
  lemma TinyWord(f: Fmt, rm: Mode, neg: bool, z: real, x: real, exp: int, mant: nat)
    requires Jam(z, mant, HalfUlp(f)) && x >= 0.0
    requires x == z * P2(exp - 1 - f.RndSize() + f.UnitExp())
    requires Pow2(f.Size() - 2) <= mant < Pow2(f.Size() - 1)
    ensures Tiny(f, rm, neg, x) <==>
            exp < 0 || (exp == 0 && mant + Addend(rm, neg, HalfUlp(f)) < Pow2(f.Size() - 1))
  {
    hide Jam, Located, Pow2, P2, Quot, Rem, RoundMant, Pick, HalfUlp, Addend, Tiny, MinNormal, Format.UnitExp;
    var h, m := HalfUlp(f), Pow2(f.msize);
    var pos := LocateMant(f, rm, neg, z, x, exp, mant);
    var n := Quot(mant, 2 * h);
    var q := Pick(rm, neg, n, pos);
    WordSplit(f);
    QuotBounds(mant, 2 * h, 2 * m);
    QuotBounds(mant, 2 * h, m);
    TinyIff(f, rm, neg, x, exp, n, pos);
    MinNormalIs(f);
    RoundMantCarry(rm, neg, h, mant, m);
    TinyByExponent(f, exp, q);
  }

  lemma RoundMantCarry(rm: Mode, neg: bool, h: nat, mant: nat, m: nat)
    requires h > 0 && Quot(mant, 2 * h) < 2 * m
    ensures RoundMant(rm, neg, h, mant) < 2 * m <==> mant + Addend(rm, neg, h) < (2 * m) * (2 * h)
  {
    hide Quot, Rem;
    var a := Addend(rm, neg, h);
    QuotBounds(mant + a, 2 * h, 2 * m);
    QuotBounds(mant + a, 2 * h, 2 * m + 1);
    QuotBounds(mant, 2 * h, 2 * m);
    assert (2 * m + 1) * (2 * h) == (2 * m) * (2 * h) + 2 * h;
  }

  lemma TinyByExponent(f: Fmt, exp: int, q: nat)
    requires Pow2(f.msize) <= q <= 2 * Pow2(f.msize)
    ensures q as real * P2(exp - 1 + f.UnitExp()) < Pow2(f.msize) as real * P2(f.UnitExp()) <==>
            exp < 0 || (exp == 0 && q < 2 * Pow2(f.msize))
  {
    hide Pow2, P2, Format.UnitExp;
    var u, m := f.UnitExp(), Pow2(f.msize);
    P2Succ(u - 1);
    P2Succ(u - 2);
    if exp >= 1 {
      P2Mono(u, exp - 1 + u);
      ProductMono(m as real, q as real, P2(u), P2(exp - 1 + u));
    } else if exp == 0 {
      DoubleMove(m as real, P2(u - 1));
      RealMulOrder(q as real, (2 * m) as real, P2(u - 1));
      assert P2(exp - 1 + u) == P2(u - 1);
    } else {
      P2Mono(exp - 1 + u, u - 2);
      ProductMono(q as real, (2 * m) as real, P2(exp - 1 + u), P2(u - 2));
      DoubleMove(m as real, P2(u - 2));
      RealMulOrder(0.0, m as real, P2(u - 1));
      DoubleMove(m as real, P2(u - 1));
    }
  }

  // ---- the packed word ----

  /** The word that is rounded, and the exponent field it belongs to. */
  lemma SubnormalShift(f: Fmt, z: real, x: real, exp: int, mant: nat) returns (z': real)
    requires Jam(z, mant, HalfUlp(f)) && exp <= 0
    requires x == z * P2(exp - 1 - f.RndSize() + f.UnitExp())
    requires mant < Pow2(f.Size() - 1)
    ensures mant < Pow2(f.Size())
    ensures Jam(z', RshiftRnd(f, mant, 1 - exp), HalfUlp(f))
    ensures x == z' * P2(1 - 1 - f.RndSize() + f.UnitExp())
    ensures RshiftRnd(f, mant, 1 - exp) < Pow2(f.Size() - 1)
  {
    hide Jam, Pow2, P2, Quot, Rem, OrBit, RshiftRnd, HalfUlp, Format.UnitExp;
    Pow2Succ(f.Size() - 1);
    Pow2Succ(f.Size() - 2);
    var d := 1 - exp;
    z' := z * P2(-d);
    P2Add(-d, d);
    P2Nat(d);
    P2Nat(0);
    MulAssoc(z, P2(-d), P2(d));
    JamCoarser(z, mant, HalfUlp(f), Pow2(d), HalfUlp(f) * Pow2(d));
    JamShift(z, mant, HalfUlp(f), Pow2(d), z');
    var k := 1 - 1 - f.RndSize() + f.UnitExp();
    P2Add(-d, k);
    assert P2(-d + k) == P2(exp - 1 - f.RndSize() + f.UnitExp());
    MulAssoc(z, P2(-d), P2(k));
    StickyNoGrowth(mant, Pow2(d), Pow2(f.Size() - 1));
  }

  lemma StickyNoGrowth(a: nat, d: nat, b: nat)
    requires a < b && b % 2 == 0 && d >= 1
    ensures OrBit(Quot(a, d), Rem(a, d) != 0) < b
  {
    QuotRem(a, d);
    hide Quot, Rem;
    assert Quot(a, d) * d >= Quot(a, d);
  }

  /** The rounded magnitude bits, exactness and tininess of the word being packed. */
  lemma RoundedOrZero(f: Fmt, rm: Mode, neg: bool, z: real, x: real, aExp: int, aMant: nat, z': real, e: nat, word: nat)
    requires aMant == 0 || Pow2(f.Size() - 2) <= aMant < Pow2(f.Size() - 1)
    requires Jam(z, aMant, HalfUlp(f))
    requires x >= 0.0 && x == z * P2(aExp - 1 - f.RndSize() + f.UnitExp())
    requires e >= 1 && e == (if aExp <= 0 then 1 else aExp)
    requires aMant < Pow2(f.Size()) && word == (if aExp <= 0 then RshiftRnd(f, aMant, 1 - aExp) else aMant)
    requires Jam(z', word, HalfUlp(f)) && x == z' * P2(e - 1 - f.RndSize() + f.UnitExp())
    requires word < Pow2(f.Size() - 1)
    ensures var q := RoundMant(rm, neg, HalfUlp(f), word);
            if aMant == 0 then word == 0 && q == 0 && Rounded(f, rm, neg, x) == 0
            else Rounded(f, rm, neg, x) == (e - 1) * Pow2(f.msize) + q &&
                 q <= 2 * Pow2(f.msize) && (e == 1 || q >= Pow2(f.msize))
    ensures Mag(f, Rounded(f, rm, neg, x)) == x <==> Rem(word, 2 * HalfUlp(f)) == 0
    ensures aMant == 0 ==> Mag(f, Rounded(f, rm, neg, x)) == x
    ensures aMant != 0 ==> (Tiny(f, rm, neg, x) <==>
            aExp < 0 || (aExp == 0 && aMant + Addend(rm, neg, HalfUlp(f)) < Pow2(f.Size() - 1)))
  {
    hide Jam, Pow2, P2, Quot, Rem, RoundMant, Addend, RshiftRnd, HalfUlp, Tiny, Mag, IsRounding, Format.UnitExp;
    if aMant != 0 {
      RoundWord(f, rm, neg, z', x, e, word);
      TinyWord(f, rm, neg, z, x, aExp, aMant);
    } else {
      ZeroWord(f, rm, neg, z, x, aExp);
    }
  }

  lemma ZeroWord(f: Fmt, rm: Mode, neg: bool, z: real, x: real, aExp: int)
    requires Jam(z, 0, HalfUlp(f)) && x == z * P2(aExp - 1 - f.RndSize() + f.UnitExp())
    ensures x == 0.0 && Rounded(f, rm, neg, x) == 0 && Mag(f, 0) == 0.0
    ensures 0 < Pow2(f.Size()) && (aExp <= 0 ==> RshiftRnd(f, 0, 1 - aExp) == 0)
    ensures RoundMant(rm, neg, HalfUlp(f), 0) == 0 && Rem(0, 2 * HalfUlp(f)) == 0
  {
    hide Pow2, P2, Quot, Rem, HalfUlp, IsRounding, Format.UnitExp;
    var h := HalfUlp(f);
    assert z == 0.0;
    QuotRemUnique(0, 2 * h, 0, 0);
    QuotRemUnique(Addend(rm, neg, h), 2 * h, 0, Addend(rm, neg, h));
    if aExp <= 0 {
      QuotRemUnique(0, Pow2(1 - aExp), 0, 0);
    }
    assert MagU(f, 0) == 0;
    RoundWord(f, rm, neg, 0.0, 0.0, 1, 0);
  }

  lemma PackedBits(f: Fmt, e: nat, q: nat)
    requires e >= 1 && q <= 2 * Pow2(f.msize) && (e == 1 || q >= Pow2(f.msize))
    ensures var p := (e - 1) * Pow2(f.msize) + q;
            var e' := e + Quot(q, 2 * Pow2(f.msize));
            if q < Pow2(f.msize) then Rem(q, Pow2(f.msize)) == q == p < f.Inf()
            else e' * Pow2(f.msize) + Rem(q, Pow2(f.msize)) == p && (e' >= f.ExpMask() <==> p >= f.Inf())
  {
    hide Pow2, Quot, Rem;
    var m := Pow2(f.msize);
    NextMultiples(e, m);
    if q < m {
      QuotRemUnique(q, m, 0, q);
    } else if q < 2 * m {
      QuotRemUnique(q, m, 1, q - m);
      QuotRemUnique(q, 2 * m, 0, q);
      ExpCompare(e, q - m, f.ExpMask(), m);
    } else {
      QuotRemUnique(q, m, 2, 0);
      QuotRemUnique(q, 2 * m, 1, 0);
      ExpCompare(e + 1, 0, f.ExpMask(), m);
    }
  }

  lemma ExpCompare(e: nat, r: nat, k: nat, m: nat)
    requires r < m
    ensures e >= k <==> e * m + r >= k * m
  {
    MulOrder(k, e, m);
    MulOrder(e + 1, k, m);
    assert (e + 1) * m == e * m + m;
  }

  /** The largest finite magnitude is one below infinity. */
  lemma LargestFinite(f: Fmt)
    ensures f.ExpMask() >= 1
    ensures (f.ExpMask() - 1) * Pow2(f.msize) + Rem(Pow2(f.msize) - 1, Pow2(f.msize)) == f.Inf() - 1
    ensures f.ExpMask() * Pow2(f.msize) + Rem(0, Pow2(f.msize)) == f.Inf()
  {
    Pow2Succ(f.esize - 1);
    hide Pow2, Quot, Rem;
    QuotRemUnique(Pow2(f.msize) - 1, Pow2(f.msize), 0, Pow2(f.msize) - 1);
    QuotRemUnique(0, Pow2(f.msize), 0, 0);
    NextMultiples(f.ExpMask(), Pow2(f.msize));
  }

  ghost function IeeeBits(f: Fmt, rm: Mode, neg: bool, x: real): nat
    requires x >= 0.0
  {
    SignBit(f, neg) + Delivered(f, rm, neg, x)
  }

  /** The fields packed from a rounded significand `q` at exponent field `e`. */
  lemma PackIsDelivered(f: Fmt, rm: Mode, neg: bool, x: real, e: nat, q: nat)
    requires x >= 0.0 && e >= 1
    requires if q == 0 then Rounded(f, rm, neg, x) == 0
             else Rounded(f, rm, neg, x) == (e - 1) * Pow2(f.msize) + q &&
                  q <= 2 * Pow2(f.msize) && (e == 1 || q >= Pow2(f.msize))
    ensures var e' := e + Quot(q, 2 * Pow2(f.msize));
            f.ExpMask() >= 1 &&
            (Rounded(f, rm, neg, x) >= f.Inf() <==> q >= Pow2(f.msize) && e' >= f.ExpMask()) &&
            IeeeBits(f, rm, neg, x) ==
            if q < Pow2(f.msize) then Pack(f, neg, 0, q)
            else if e' < f.ExpMask() then Pack(f, neg, e', q)
            else if TowardZero(rm, neg) then Pack(f, neg, f.ExpMask() - 1, Pow2(f.msize) - 1)
            else Pack(f, neg, f.ExpMask(), 0)
  {
    hide Pow2, Quot, Rem, SignBit, Format.Inf, Format.ExpMask, IsRounding;
    LargestFinite(f);
    if q == 0 {
      PackedBits(f, 1, 0);
    } else {
      PackedBits(f, e, q);
    }
  }

  lemma FlagsAre(f: Fmt, rm: Mode, neg: bool, x: real, fl0: set<Flag>, fl: set<Flag>)
    requires x >= 0.0 && fl0 <= fl
    requires forall a :: a in fl && a !in fl0 ==> a in {Overflow, Underflow, Inexact}
    requires Overflow !in fl0 ==> (Overflow in fl <==> Rounded(f, rm, neg, x) >= f.Inf())
    requires Underflow !in fl0 ==> (Underflow in fl <==> Mag(f, Rounded(f, rm, neg, x)) != x && Tiny(f, rm, neg, x))
    requires Inexact !in fl0 ==>
      (Inexact in fl <==> Mag(f, Rounded(f, rm, neg, x)) != x || Rounded(f, rm, neg, x) >= f.Inf())
    ensures fl == fl0 + RoundFlags(f, rm, neg, x)
  {
    hide Mag, Tiny, Format.Inf;
  }

  /** Rounds and packs the magnitude `x` that the word `aMant`, with its top bit at `Size - 2` and
      scaled by `aExp`, stands for. `z` is the real number the word stands for. */
  method RoundPackSf(f: Fmt, neg: bool, aExp: int, aMant: nat, rm: Mode, fl0: set<Flag>, ghost z: real, ghost x: real)
    returns (r: nat, fl: set<Flag>)
    requires aMant == 0 || Pow2(f.Size() - 2) <= aMant < Pow2(f.Size() - 1)
    requires Jam(z, aMant, HalfUlp(f))
    requires x >= 0.0 && x == z * P2(aExp - 1 - f.RndSize() + f.UnitExp())
    ensures r == IeeeBits(f, rm, neg, x)
    ensures fl == fl0 + RoundFlags(f, rm, neg, x)
  {
    hide Jam, Pow2, P2, Quot, Rem, OrBit, Addend, RshiftRnd, HalfUlp, Tiny, Mag, IsRounding, SignBit, Pack,
      IeeeBits, TowardZero, Format.UnitExp, Format.Inf, Format.ExpMask;
    var half := HalfUlp(f);
    var addend := Addend(rm, neg, half);
    var exp, mant := aExp, aMant;
    var rndBits: nat;
    fl := fl0;
    Pow2Succ(f.Size() - 1);
    ghost var z' := z;
    if exp <= 0 {
      var isSubnormal := exp < 0 || mant + addend < Pow2(f.Size() - 1);
      z' := SubnormalShift(f, z, x, exp, mant);
      mant := RshiftRnd(f, mant, 1 - exp);
      rndBits := Rem(mant, 2 * half);
      if isSubnormal && rndBits != 0 {
        fl := fl + {Underflow};
      }
      exp := 1;
    } else {
      rndBits := Rem(mant, 2 * half);
    }
    if rndBits != 0 {
      fl := fl + {Inexact};
    }
    ghost var e, word := exp, mant;
    mant := Quot(mant + addend, 2 * half);
    // half way: select the even result
    if rm.RNE? && rndBits == half {
      mant := mant - mant % 2;
    }
    assert mant == RoundMant(rm, neg, half, word);
    RoundedOrZero(f, rm, neg, z, x, aExp, aMant, z', e, word);
    PackIsDelivered(f, rm, neg, x, e, mant);
    exp := exp + Quot(mant, 2 * Pow2(f.msize));
    if mant < Pow2(f.msize) {
      exp := 0;
    } else if exp >= f.ExpMask() {
      if addend == 0 {
        exp := f.ExpMask() - 1;
        mant := Pow2(f.msize) - 1;
      } else {
        exp := f.ExpMask();
        mant := 0;
      }
      fl := fl + {Overflow, Inexact};
    }
    r := Pack(f, neg, exp, mant);
    FlagsAre(f, rm, neg, x, fl0, fl);
  }

  /** An exact zero is delivered as zero and raises nothing. */
  lemma ZeroOutcome(f: Fmt, rm: Mode, neg: bool)
    ensures IeeeBits(f, rm, neg, 0.0) == SignBit(f, neg)
    ensures RoundFlags(f, rm, neg, 0.0) == {}
  {
    hide Pow2, P2, Mag, Quot, Rem, RoundMant, IsRounding, HalfUlp, SignBit, Format.UnitExp;
    JamExact(0, HalfUlp(f));
    ZeroWord(f, rm, neg, 0.0, 0.0, 1);
  }

  /** Every magnitude a word may stand for is rounded alike: the word determines the outcome. */
  lemma WordDetermines(f: Fmt, rm: Mode, neg: bool, aExp: int, aMant: nat, z1: real, x1: real, z2: real, x2: real)
    requires aMant == 0 || Pow2(f.Size() - 2) <= aMant < Pow2(f.Size() - 1)
    requires Jam(z1, aMant, HalfUlp(f)) && x1 >= 0.0 && x1 == z1 * P2(aExp - 1 - f.RndSize() + f.UnitExp())
    requires Jam(z2, aMant, HalfUlp(f)) && x2 >= 0.0 && x2 == z2 * P2(aExp - 1 - f.RndSize() + f.UnitExp())
    ensures IeeeBits(f, rm, neg, x1) == IeeeBits(f, rm, neg, x2)
    ensures RoundFlags(f, rm, neg, x1) == RoundFlags(f, rm, neg, x2)
  {
    hide Jam, Pow2, P2, Quot, Rem, OrBit, Addend, RshiftRnd, RoundMant, HalfUlp, Tiny, Mag, IsRounding, SignBit,
      Format.UnitExp, Format.Inf;
    Pow2Succ(f.Size() - 1);
    if aExp <= 0 {
      var z1' := SubnormalShift(f, z1, x1, aExp, aMant);
      var z2' := SubnormalShift(f, z2, x2, aExp, aMant);
      RoundedOrZero(f, rm, neg, z1, x1, aExp, aMant, z1', 1, RshiftRnd(f, aMant, 1 - aExp));
      RoundedOrZero(f, rm, neg, z2, x2, aExp, aMant, z2', 1, RshiftRnd(f, aMant, 1 - aExp));
    } else {
      RoundedOrZero(f, rm, neg, z1, x1, aExp, aMant, z1, aExp, aMant);
      RoundedOrZero(f, rm, neg, z2, x2, aExp, aMant, z2, aExp, aMant);
    }
  }
}
