/** Fused multiply and add: the exact two-word product and the addend are aligned, added or subtracted with
    carry or borrow across the words, renormalized, and rounded once. */
module FmaSf {
  import opened Powers
  import opened Sticky
  import opened Ieee
  import opened RoundPack
  import opened Normalize
  import opened MulSf
  import opened OperationLaws
  import FS = FloatSpec

  // ---- two-word arithmetic ----

  method AddWords(f: Fmt, r1: nat, r0: nat, c1: nat, c0: nat) returns (s1: nat, s0: nat)
    requires r0 < Pow2(f.Size()) && c0 < Pow2(f.Size())
    ensures s1 * Pow2(f.Size()) + s0 == (r1 * Pow2(f.Size()) + r0) + (c1 * Pow2(f.Size()) + c0)
    ensures s0 < Pow2(f.Size())
  {
    hide Pow2, Rem;
    s0 := Rem(r0 + c0, Pow2(f.Size()));
    s1 := r1 + c1 + (if s0 < c0 then 1 else 0);
    CarryInts(r1, r0, c1, c0, Pow2(f.Size()), s1, s0);
  }

  lemma CarryInts(r1: nat, r0: nat, c1: nat, c0: nat, p: nat, s1: nat, s0: nat)
    requires r0 < p && c0 < p && s0 == Rem(r0 + c0, p) && s1 == r1 + c1 + (if s0 < c0 then 1 else 0)
    ensures s1 * p + s0 == (r1 * p + r0) + (c1 * p + c0)
  {
    hide Rem;
    if r0 + c0 < p {
      QuotRemUnique(r0 + c0, p, 0, r0 + c0);
    } else {
      QuotRemUnique(r0 + c0, p, 1, r0 + c0 - p);
    }
    DistributeRight(r1, c1, p);
    DistributeRight(r1 + c1, 1, p);
  }

  method SubWords(f: Fmt, r1: nat, r0: nat, c1: nat, c0: nat) returns (s1: nat, s0: nat)
    requires r0 < Pow2(f.Size()) && c0 < Pow2(f.Size())
    requires c1 * Pow2(f.Size()) + c0 <= r1 * Pow2(f.Size()) + r0
    ensures s1 * Pow2(f.Size()) + s0 == (r1 * Pow2(f.Size()) + r0) - (c1 * Pow2(f.Size()) + c0)
    ensures s0 < Pow2(f.Size())
  {
    hide Pow2, Rem;
    s0 := Rem(r0 + (Pow2(f.Size()) - c0), Pow2(f.Size()));
    BorrowInts(r1, r0, c1, c0, Pow2(f.Size()), s0);
    s1 := r1 - c1 - (if s0 > r0 then 1 else 0);
  }

  lemma BorrowInts(r1: nat, r0: nat, c1: nat, c0: nat, p: nat, s0: nat)
    requires r0 < p && c0 < p && s0 == Rem(r0 + (p - c0), p) && c1 * p + c0 <= r1 * p + r0
    ensures var s1 := r1 - c1 - (if s0 > r0 then 1 else 0);
            s1 >= 0 && s1 * p + s0 == (r1 * p + r0) - (c1 * p + c0)
  {
    hide Rem;
    if r0 >= c0 {
      QuotRemUnique(r0 + (p - c0), p, 1, r0 - c0);
    } else {
      QuotRemUnique(r0 + (p - c0), p, 0, r0 + (p - c0));
    }
    Difference(r1, c1, if s0 > r0 then 1 else 0, p);
    NonnegQuotient(r1 - c1 - (if s0 > r0 then 1 else 0), p, s0);
  }

  lemma Difference(r1: int, c1: int, b: int, p: int)
    requires b == 0 || b == 1
    ensures (r1 - c1 - b) * p == r1 * p - c1 * p - (if b == 1 then p else 0)
  {
    DistributeRight(r1 - c1, 0 - b, p);
    DistributeRight(r1, 0 - c1, p);
  }

  lemma NonnegQuotient(q: int, p: nat, r: nat)
    requires r < p && q * p + r >= 0
    ensures q >= 0
  {
    MulOrder(q, -1, p);
  }

  /** Two words shifted left by one bit. */
  lemma DoubleWords(f: Fmt, r1: nat, r0: nat)
    requires r1 < Pow2(f.Size() - 1) && r0 < Pow2(f.Size())
    ensures (Shl(f, r1, 1) + Quot(r0, Pow2(f.Size() - 1))) * Pow2(f.Size()) + Shl(f, r0, 1) ==
            2 * (r1 * Pow2(f.Size()) + r0)
  {
    hide Pow2, Quot, Rem, Shl;
    Pow2Succ(0);
    Pow2Succ(f.Size() - 1);
    ShiftAcross(f, r0, 1);
    ShlExact(f, r1, 1);
    DistributeRight(2 * r1, Quot(r0, Pow2(f.Size() - 1)), Pow2(f.Size()));
    MulExchange(2, r1, Pow2(f.Size()));
  }

  /** Two words shifted right by `d`, taken together. Beyond one word the low word is dropped unseen. */
  ghost predicate IsAligned(f: Fmt, c1: nat, c0: nat, d: nat, y': nat)
    requires c1 < Pow2(f.Size()) && c0 < Pow2(f.Size())
  {
    var y := c1 * Pow2(f.Size()) + c0;
    if d <= f.Size() then y' == OrBit(Quot(y, Pow2(d)), Rem(y, Pow2(d)) != 0)
    else if d < 2 * f.Size() then y' == RshiftRnd(f, c1, d - f.Size())
    else y' == if c1 != 0 || c0 != 0 then 1 else 0
  }

  /** The alignment shift, case by case. */
  method AlignRight(f: Fmt, c1: nat, c0: nat, shift: nat) returns (d1: nat, d0: nat)
    requires c1 < Pow2(f.Size()) && c0 < Pow2(f.Size())
    ensures d0 < Pow2(f.Size()) && IsAligned(f, c1, c0, shift, d1 * Pow2(f.Size()) + d0)
  {
    hide Pow2, Quot, Rem, Shl, OrBit, RshiftRnd;
    Pow2Succ(f.Size() - 1);
    d1, d0 := c1, c0;
    if shift >= 2 * f.Size() {
      d0 := if c0 != 0 || c1 != 0 then 1 else 0;
      d1 := 0;
    } else if shift >= f.Size() + 1 {
      ShiftedFits(f, c1, shift - f.Size());
      d0 := RshiftRnd(f, c1, shift - f.Size());
      d1 := 0;
    } else if shift == f.Size() {
      d0 := OrBit(c1, c0 != 0);
      d1 := 0;
      AlignByWord(f, c1, c0);
    } else if shift != 0 {
      d0 := OrBit(Shl(f, c1, f.Size() - shift) + Quot(c0, Pow2(shift)), Rem(c0, Pow2(shift)) != 0);
      d1 := Quot(c1, Pow2(shift));
      AlignWithin(f, c1, c0, shift);
    } else {
      DropNothing(c1 * Pow2(f.Size()) + c0);
    }
  }

  lemma ShiftedFits(f: Fmt, c: nat, d: nat)
    requires c < Pow2(f.Size())
    ensures RshiftRnd(f, c, d) < Pow2(f.Size())
  {
    hide Pow2, Quot, Rem, OrBit, RshiftRnd;
    StickyNoGrowth(c, Pow2(d), Pow2(f.Size()));
  }

  lemma AlignByWord(f: Fmt, c1: nat, c0: nat)
    requires c1 < Pow2(f.Size()) && c0 < Pow2(f.Size())
    ensures OrBit(c1, c0 != 0) ==
      OrBit(Quot(c1 * Pow2(f.Size()) + c0, Pow2(f.Size())), Rem(c1 * Pow2(f.Size()) + c0, Pow2(f.Size())) != 0)
    ensures OrBit(c1, c0 != 0) < Pow2(f.Size())
  {
    hide Pow2, Quot, Rem;
    QuotRemUnique(c1 * Pow2(f.Size()) + c0, Pow2(f.Size()), c1, c0);
  }

  lemma AlignWithin(f: Fmt, c1: nat, c0: nat, shift: nat)
    requires c1 < Pow2(f.Size()) && c0 < Pow2(f.Size()) && 0 < shift < f.Size()
    ensures var low := OrBit(Shl(f, c1, f.Size() - shift) + Quot(c0, Pow2(shift)), Rem(c0, Pow2(shift)) != 0);
      low < Pow2(f.Size()) &&
      Quot(c1, Pow2(shift)) * Pow2(f.Size()) + low ==
      OrBit(Quot(c1 * Pow2(f.Size()) + c0, Pow2(shift)), Rem(c1 * Pow2(f.Size()) + c0, Pow2(shift)) != 0)
  {
    hide Pow2, Quot, Rem, OrBit;
    var s, k, p := Pow2(shift), Pow2(f.Size() - shift), Pow2(f.Size());
    Pow2Add(f.Size() - shift, shift);
    AlignInts(c1, c0, s, k, p);
  }

  lemma AlignInts(c1: nat, c0: nat, s: nat, k: nat, p: nat)
    requires s > 0 && k > 0 && p == k * s && c1 < p && c0 < p && k % 2 == 0 && s % 2 == 0
    ensures var low := OrBit(Rem(c1 * k, p) + Quot(c0, s), Rem(c0, s) != 0);
      low < p && Quot(c1, s) * p + low == OrBit(Quot(c1 * p + c0, s), Rem(c1 * p + c0, s) != 0)
  {
    hide Quot, Rem, OrBit;
    QuotRem(c1, s);
    QuotRem(c0, s);
    QuotBounds(c0, s, k);
    AlignSplit(Quot(c1, s), Rem(c1, s), Quot(c0, s), Rem(c0, s), s, k, p, c1, c0);
    EvenMultiple(Quot(c1, s), p);
    OrBitAbove(Quot(c1, s) * p, Rem(c1, s) * k + Quot(c0, s), Rem(c0, s) != 0, p);
  }

  lemma AlignSplit(a: nat, b: nat, x: nat, y: nat, s: nat, k: nat, p: nat, c1: nat, c0: nat)
    requires s > 0 && k > 0 && p == k * s && k % 2 == 0 && b < s && x < k && y < s && c1 == a * s + b && c0 == x * s + y
    ensures p % 2 == 0 && p > 0 && Rem(c1 * k, p) == b * k && b * k + x < p
    ensures Quot(c1 * p + c0, s) == a * p + (b * k + x) && Rem(c1 * p + c0, s) == y
  {
    hide Quot, Rem;
    EvenMultiple(s, k);
    MulAtLeast(k, s);
    FS.FieldBound(b, x, s, k);
    UpperPart(a, b, s, k, p, c1);
    MulOrder(b, s, k);
    QuotRemUnique(c1 * k, p, a, b * k);
    LowerPart(c1, k, s, p, x, y);
    QuotRemUnique(c1 * p + c0, s, c1 * k + x, y);
  }

  lemma UpperPart(a: nat, b: nat, s: nat, k: nat, p: nat, c1: nat)
    requires p == k * s && c1 == a * s + b
    ensures c1 * k == a * p + b * k
  {
    DistributeRight(a * s, b, k);
    MulExchange(a, k, s);
  }

  lemma LowerPart(c1: nat, k: nat, s: nat, p: nat, x: nat, y: nat)
    requires p == k * s
    ensures c1 * p + (x * s + y) == (c1 * k + x) * s + y
  {
    MulExchange(c1, k, s);
    DistributeRight(c1 * k, x, s);
  }

  lemma OrBitAbove(base: nat, t: nat, b: bool, p: nat)
    requires base % 2 == 0 && t < p && p % 2 == 0
    ensures OrBit(base + t, b) == base + OrBit(t, b) && OrBit(t, b) < p
  {
  }

  // ---- what the aligned words stand for ----

  /** A two-word significand with its leading bit at `2 * Size - 3`. */
  ghost predicate Wide(f: Fmt, v: nat)
  {
    Pow2(2 * f.Size() - 3) <= v < Pow2(2 * f.Size() - 2) && v % 2 == 0
  }

  lemma ScaledBelow(v: nat, n: nat, d: nat, k: int, yr: real)
    requires 0 < v < Pow2(n) && yr == v as real * P2(0 - d) && n - d <= k
    ensures 0.0 < yr < P2(k)
  {
    hide Pow2, P2;
    P2Nat(n);
    RealMulOrder(0.0, v as real, P2(0 - d));
    RealMulOrder(v as real, Pow2(n) as real, P2(0 - d));
    P2Add(n, 0 - d);
    P2Mono(n - d, k);
    assert P2(n + (0 - d)) == P2(n - d);
  }

  lemma HighWordBounds(f: Fmt, c1: nat, c0: nat)
    requires c0 < Pow2(f.Size()) && Wide(f, c1 * Pow2(f.Size()) + c0)
    ensures Pow2(f.Size() - 3) <= c1 < Pow2(f.Size() - 2)
  {
    hide Pow2, Quot, Rem;
    var p := Pow2(f.Size());
    Pow2Add(f.Size() - 3, f.Size());
    Pow2Add(f.Size() - 2, f.Size());
    QuotRemUnique(c1 * p + c0, p, c1, c0);
    QuotBounds(c1 * p + c0, p, Pow2(f.Size() - 3));
    QuotBounds(c1 * p + c0, p, Pow2(f.Size() - 2));
  }

  lemma JamInside(yr: real, m: nat, g: nat)
    requires 0 < m < g && 0.0 < yr < g as real
    ensures Jam(yr, m, g)
  {
    DivModUnique(m, g, 0, m);
  }

  /** Shifted by at most one word: a plain sticky shift, exact when shifted by at most one bit. */
  lemma NearAligned(f: Fmt, y: nat, d: nat, y': nat, yr: real)
    requires Wide(f, y) && d <= f.Size()
    requires y' == OrBit(Quot(y, Pow2(d)), Rem(y, Pow2(d)) != 0) && yr == y as real * P2(0 - d)
    ensures Jam(yr, y', 2)
    ensures d <= 1 ==> yr == y' as real
    ensures d >= 1 ==> y' < Pow2(2 * f.Size() - 3)
    ensures d >= 2 ==> y' < Pow2(2 * f.Size() - 4)
  {
    hide Jam, Pow2, P2, Quot, Rem, OrBit;
    StickyWord(y, d, yr);
    if d <= 1 {
      ExactBit(y, d, y', yr);
    }
    if d >= 1 {
      ShiftBound(y, d, 1, 2 * f.Size() - 2);
    }
    if d >= 2 {
      ShiftBound(y, d, 2, 2 * f.Size() - 2);
    }
  }

  lemma ShiftBound(y: nat, d: nat, k: nat, n: nat)
    requires y < Pow2(n) && k <= d && k < n
    ensures OrBit(Quot(y, Pow2(d)), Rem(y, Pow2(d)) != 0) < Pow2(n - k)
  {
    hide Pow2, Quot, Rem;
    Pow2Add(n - k, k);
    Pow2Mono(k, d);
    MulOrder(Pow2(k), Pow2(d), Pow2(n - k));
    QuotBounds(y, Pow2(d), Pow2(n - k));
    Pow2Succ(n - k - 1);
  }

  lemma ExactBit(y: nat, d: nat, y': nat, yr: real)
    requires d <= 1 && y % 2 == 0 && yr == y as real * P2(0 - d)
    requires y' == OrBit(Quot(y, Pow2(d)), Rem(y, Pow2(d)) != 0)
    ensures yr == y' as real
  {
    Pow2Succ(0);
    P2Succ(-1);
    P2Nat(0);
    hide Pow2, P2, Quot, Rem;
    if d == 0 {
      QuotRemUnique(y, 1, y, 0);
    } else {
      QuotRemUnique(y, 2, y / 2, 0);
      assert P2(0 - 1) == P2(-1);
    }
  }

  /** Shifted by more than a word: still right up to multiples of `2^(Size-3)`, and a plain sticky shift when
      the low word was zero. */
  lemma FarAligned(f: Fmt, c1: nat, c0: nat, d: nat, y': nat, yr: real)
    requires c1 < Pow2(f.Size()) && c0 < Pow2(f.Size()) && Wide(f, c1 * Pow2(f.Size()) + c0) && d > f.Size()
    requires IsAligned(f, c1, c0, d, y') && yr == (c1 * Pow2(f.Size()) + c0) as real * P2(0 - d)
    ensures Jam(yr, y', Pow2(f.Size() - 3)) && y' < Pow2(f.Size() - 3)
    ensures c0 == 0 ==> Jam(yr, y', 2)
  {
    hide Jam, Pow2, P2, Quot, Rem, OrBit, RshiftRnd;
    var y := c1 * Pow2(f.Size()) + c0;
    HighWordBounds(f, c1, c0);
    ScaledBelow(y, 2 * f.Size() - 2, d, f.Size() - 3, yr);
    P2Nat(f.Size() - 3);
    FarRange(f, c1, d, y');
    JamInside(yr, y', Pow2(f.Size() - 3));
    if c0 == 0 {
      FarExact(f, c1, d, y', yr);
    }
  }

  lemma FarRange(f: Fmt, c1: nat, d: nat, y': nat)
    requires Pow2(f.Size() - 3) <= c1 < Pow2(f.Size() - 2) && d > f.Size() && c1 < Pow2(f.Size())
    requires y' == if d < 2 * f.Size() then RshiftRnd(f, c1, d - f.Size()) else 1
    ensures 0 < y' < Pow2(f.Size() - 3)
  {
    hide Pow2, Quot, Rem, RshiftRnd;
    if d < 2 * f.Size() {
      ShiftBound(c1, d - f.Size(), 1, f.Size() - 2);
      QuotRem(c1, Pow2(d - f.Size()));
      NonzeroShift(Quot(c1, Pow2(d - f.Size())), Rem(c1, Pow2(d - f.Size())), Pow2(d - f.Size()));
    } else {
      Pow2Succ(f.Size() - 4);
    }
  }

  lemma NonzeroShift(q: nat, r: nat, p: nat)
    requires q * p + r > 0
    ensures OrBit(q, r != 0) > 0
  {
  }

  lemma FarExact(f: Fmt, c1: nat, d: nat, y': nat, yr: real)
    requires 0 < c1 < Pow2(f.Size() - 2) && c1 < Pow2(f.Size()) && d > f.Size()
    requires y' == if d < 2 * f.Size() then RshiftRnd(f, c1, d - f.Size()) else 1
    requires yr == (c1 * Pow2(f.Size()) + 0) as real * P2(0 - d)
    ensures Jam(yr, y', 2)
  {
    hide Jam, Pow2, P2, Quot, Rem, OrBit, RshiftRnd;
    var k := d - f.Size();
    assert yr == c1 as real * P2(0 - k) by {
      UpDown(c1, f.Size(), 0 - k);
      assert 0 - k - f.Size() == 0 - d;
    }
    if d < 2 * f.Size() {
      StickyWord(c1, k, yr);
    } else {
      ScaledBelow(c1, f.Size() - 2, k, 1, yr);
      P2Nat(1);
      Pow2Succ(0);
      JamInside(yr, 1, 2);
    }
  }

  lemma AlignedFacts(f: Fmt, c1: nat, c0: nat, d: nat, y': nat, yr: real, j: nat)
    requires c1 < Pow2(f.Size()) && c0 < Pow2(f.Size()) && Wide(f, c1 * Pow2(f.Size()) + c0)
    requires IsAligned(f, c1, c0, d, y') && yr == (c1 * Pow2(f.Size()) + c0) as real * P2(0 - d)
    requires j == f.Size() - 3 || (j == 1 && c0 == 0)
    ensures Jam(yr, y', Pow2(j)) && yr > 0.0
    ensures d <= 1 ==> yr == y' as real
    ensures d >= 1 ==> y' < Pow2(2 * f.Size() - 3)
    ensures d >= 2 ==> y' < Pow2(2 * f.Size() - 4)
    ensures d == 0 ==> y' == c1 * Pow2(f.Size()) + c0
  {
    hide Jam, Pow2, P2, Quot, Rem, OrBit, RshiftRnd;
    var y := c1 * Pow2(f.Size()) + c0;
    RealMulOrder(0.0, y as real, P2(0 - d));
    if d <= f.Size() {
      NearFacts(f, y, d, y', yr, j);
    } else {
      Pow2Succ(0);
      FarAligned(f, c1, c0, d, y', yr);
      Pow2Mono(f.Size() - 3, 2 * f.Size() - 3);
      Pow2Mono(f.Size() - 3, 2 * f.Size() - 4);
    }
  }

  lemma NearFacts(f: Fmt, y: nat, d: nat, y': nat, yr: real, j: nat)
    requires Wide(f, y) && d <= f.Size() && j >= 1
    requires y' == OrBit(Quot(y, Pow2(d)), Rem(y, Pow2(d)) != 0) && yr == y as real * P2(0 - d)
    ensures Jam(yr, y', Pow2(j))
    ensures d <= 1 ==> yr == y' as real
    ensures d >= 1 ==> y' < Pow2(2 * f.Size() - 3)
    ensures d >= 2 ==> y' < Pow2(2 * f.Size() - 4)
    ensures d == 0 ==> y' == y
  {
    hide Jam, Pow2, P2, Quot, Rem, OrBit;
    NearAligned(f, y, d, y', yr);
    Pow2Succ(0);
    Pow2Add(1, j - 1);
    JamCoarser(yr, y', 2, Pow2(j - 1), Pow2(j));
    DropNothing(y);
  }

  /** The sum or difference of the aligned words stands for the exact one. */
  lemma Combined(f: Fmt, x: nat, c1: nat, c0: nat, d: nat, y': nat, yr: real, j: nat, same: bool, w: int, z: real)
    requires c1 < Pow2(f.Size()) && c0 < Pow2(f.Size()) && Wide(f, c1 * Pow2(f.Size()) + c0) && Wide(f, x)
    requires d == 0 ==> x >= c1 * Pow2(f.Size()) + c0
    requires IsAligned(f, c1, c0, d, y') && yr == (c1 * Pow2(f.Size()) + c0) as real * P2(0 - d)
    requires (j == f.Size() - 3 && x % Pow2(j) == 0) || (j == 1 && c0 == 0)
    requires w == (if same then x + y' else x - y') && z == (if same then x as real + yr else x as real - yr)
    ensures 0 <= w < Pow2(2 * f.Size() - 1) && z >= 0.0 && (w == 0 <==> z == 0.0)
    ensures same ==> w > 0
    ensures Faithful(f, z, w, j)
  {
    hide Jam, Pow2, P2, IsAligned;
    AlignedFacts(f, c1, c0, d, y', yr, j);
    Pow2Succ(2 * f.Size() - 2);
    Pow2Succ(2 * f.Size() - 3);
    Pow2Succ(2 * f.Size() - 4);
    Pow2Succ(0);
    Pow2Mono(f.msize + 1 + j, 2 * f.Size() - 4);
    Pow2Mono(j, 2 * f.Size() - 4);
    CombineWords(x, y', yr, Pow2(j), Pow2(2 * f.Size() - 4), d <= 1, same, w, z);
  }

  lemma CombineWords(x: nat, y': nat, yr: real, g: nat, low: nat, exact: bool, same: bool, w: int, z: real)
    requires 0 < g <= low && x % g == 0 && 2 * low <= x < 4 * low && Jam(yr, y', g) && yr > 0.0
    requires if exact then yr == y' as real && y' <= x else y' < low
    requires w == (if same then x + y' else x - y') && z == (if same then x as real + yr else x as real - yr)
    ensures 0 <= w < 8 * low && z >= 0.0 && (w == 0 <==> z == 0.0) && (same ==> w > 0)
    ensures if exact then z == w as real else w >= low && Jam(z, w, g)
  {
    if exact {
    } else {
      if same {
        JamAdd(yr, y', g, x);
      } else {
        JamSub(yr, y', g, x);
      }
      hide Jam;
      JamPositive(z, w, g);
    }
  }

  lemma JamPositive(z: real, w: nat, g: nat)
    requires g > 0 && Jam(z, w, g) && w >= g
    ensures z > 0.0
  {
    DivModIs(w, g);
  }

  // ---- adding the two wide significands ----

  /** The weight of the lowest bit of a two-word significand at exponent `e`. */
  ghost function Weight(f: Fmt, e: int): (r: real)
    ensures r > 0.0
  {
    P2(e - f.Size() - 1 - f.RndSize() + f.UnitExp())
  }

  ghost function Signed(neg: bool, m: real): real { if neg then -m else m }

  /** The signed value of a two-word significand. */
  ghost function WideValue(f: Fmt, neg: bool, e: int, hi: nat, lo: nat): real
  {
    Signed(neg, (hi * Pow2(f.Size()) + lo) as real * Weight(f, e))
  }

  lemma WideValueIs(f: Fmt, neg: bool, e: int, hi: nat, lo: nat, v: nat, m: real)
    requires v == hi * Pow2(f.Size()) + lo && m == v as real * Weight(f, e)
    ensures WideValue(f, neg, e, hi, lo) == Signed(neg, m)
  {
    hide Weight, Pow2;
  }

  lemma WeightShift(f: Fmt, e: int, d: int, y: real, yr: real)
    requires yr == y * P2(0 - d)
    ensures yr * Weight(f, e) == y * Weight(f, e - d)
  {
    hide P2, Format.UnitExp;
    var k := e - f.Size() - 1 - f.RndSize() + f.UnitExp();
    P2Add(0 - d, k);
    MulAssoc(y, P2(0 - d), P2(k));
    assert P2(0 - d + k) == P2(e - d - f.Size() - 1 - f.RndSize() + f.UnitExp());
  }

  lemma SignedSum(f: Fmt, rm: Mode, bigNeg: bool, smallNeg: bool, big: real, small: real, sc: real,
                  bigMag: real, smallMag: real, zeroNeg: bool, w: nat, z: real, x: real, s: real)
    requires sc > 0.0 && z >= 0.0 && (w == 0 <==> z == 0.0) && x == z * sc
    requires z == (if bigNeg == smallNeg then big + small else big - small)
    requires bigNeg == smallNeg ==> w > 0
    requires bigNeg != smallNeg ==> zeroNeg == rm.RDN?
    requires bigMag == big * sc && smallMag == small * sc && s == Signed(bigNeg, bigMag) + Signed(smallNeg, smallMag)
    ensures x >= 0.0
    ensures var neg := if bigNeg != smallNeg && w == 0 then rm.RDN? else bigNeg;
            FS.RoundExact(f, rm, s, zeroNeg) == FS.Outcome(IeeeBits(f, rm, neg, x), RoundFlags(f, rm, neg, x))
  {
    hide IeeeBits, RoundFlags;
    ProductSign(z, sc);
    Distributed(big, small, sc);
    assert s == Signed(bigNeg, x);
  }

  lemma ProductSign(z: real, sc: real)
    requires sc > 0.0 && z >= 0.0
    ensures z * sc >= 0.0 && (z * sc == 0.0 <==> z == 0.0)
  {
    RealMulOrder(0.0, z, sc);
  }

  lemma Distributed(a: real, b: real, c: real)
    ensures (a + b) * c == a * c + b * c && (a - b) * c == a * c - b * c
  {
  }

  /** Aligns the smaller of two wide significands to the larger, adds or subtracts, normalizes and rounds.
      The second one has a zero low word. */
  method FmaCombine(f: Fmt, rSign0: bool, rExp0: int, rHigh: nat, rLow: nat, cSign0: bool, cExp0: int, cHigh: nat,
                    rm: Mode, fl0: set<Flag>, ghost zeroNeg: bool, ghost s: real) returns (r: nat, fl: set<Flag>)
    requires rLow < Pow2(f.Size()) && Wide(f, rHigh * Pow2(f.Size()) + rLow) && Wide(f, cHigh * Pow2(f.Size()) + 0)
    requires rSign0 != cSign0 ==> zeroNeg == rm.RDN?
    requires s == WideValue(f, rSign0, rExp0, rHigh, rLow) + WideValue(f, cSign0, cExp0, cHigh, 0)
    ensures r == FS.RoundExact(f, rm, s, zeroNeg).bits
    ensures fl == fl0 + FS.RoundExact(f, rm, s, zeroNeg).raised
  {
    hide Pow2, P2, Wide, IeeeBits, RoundFlags, Faithful, FS.RoundExact, RshiftRnd, OrBit, Quot, Rem, Weight, WideValue,
      IsAligned, Format.UnitExp;
    var rSign, rExp, r1, r0 := rSign0, rExp0, rHigh, rLow;
    var cSign, cExp, c1, c0 := cSign0, cExp0, cHigh, 0;
    HighWordBounds(f, rHigh, rLow);
    HighWordBounds(f, cHigh, 0);
    Pow2Mono(f.Size() - 2, f.Size());
    if !(rExp > cExp || (rExp == cExp && r1 >= c1)) {
      r1, c1 := c1, r1;
      r0, c0 := c0, r0;
      rExp, cExp := cExp, rExp;
      rSign, cSign := cSign, rSign;
    }
    r, fl := FmaAligned(f, rSign, rExp, r1, r0, cSign, cExp, c1, c0, rm, fl0, zeroNeg, s);
  }

  lemma LargerFirst(r1: nat, r0: nat, c1: nat, c0: nat, p: nat)
    requires r0 < p && c0 < p && (r1 > c1 || (r1 == c1 && c0 == 0))
    ensures r1 * p + r0 >= c1 * p + c0
  {
    if r1 > c1 {
      MulOrder(c1 + 1, r1, p);
      DistributeRight(c1, 1, p);
    }
  }

  method FmaAligned(f: Fmt, rSign0: bool, rExp: int, r1: nat, r0: nat, cSign: bool, cExp: int, c1: nat, c0: nat,
                    rm: Mode, fl0: set<Flag>, ghost zeroNeg: bool, ghost s: real) returns (r: nat, fl: set<Flag>)
    requires r0 < Pow2(f.Size()) && c0 < Pow2(f.Size()) && c1 < Pow2(f.Size())
    requires Wide(f, r1 * Pow2(f.Size()) + r0) && Wide(f, c1 * Pow2(f.Size()) + c0)
    requires rExp >= cExp && (rExp == cExp ==> r1 > c1 || (r1 == c1 && c0 == 0)) && (r0 == 0 || c0 == 0)
    requires rSign0 != cSign ==> zeroNeg == rm.RDN?
    requires s == WideValue(f, rSign0, rExp, r1, r0) + WideValue(f, cSign, cExp, c1, c0)
    ensures r == FS.RoundExact(f, rm, s, zeroNeg).bits
    ensures fl == fl0 + FS.RoundExact(f, rm, s, zeroNeg).raised
  {
    hide Pow2, P2, Wide, IeeeBits, RoundFlags, Faithful, FS.RoundExact, RshiftRnd, OrBit, Quot, Rem, Weight, WideValue,
      IsAligned, Format.UnitExp;
    var rSign := rSign0;
    var d1, d0 := AlignRight(f, c1, c0, rExp - cExp);
    ghost var p := Pow2(f.Size());
    ghost var w, z, j, x := AlignedOutcome(f, rSign0, rExp, r1, r0, cSign, cExp, c1, c0, d1, d0, rm, zeroNeg, s);
    var s1, s0: nat;
    if rSign == cSign {
      s1, s0 := AddWords(f, r1, r0, d1, d0);
    } else {
      s1, s0 := SubWords(f, r1, r0, d1, d0);
      if s0 == 0 && s1 == 0 {
        rSign := rm.RDN?;
      }
    }
    ZeroWords(s1, s0, p);
    HighFits(f, s1, s0);
    r, fl := Normalize2Sf(f, rSign, rExp, s1, s0, rm, fl0, z, j, x);
  }

  lemma ZeroWords(s1: nat, s0: nat, p: nat)
    requires p > 0
    ensures s1 * p + s0 == 0 <==> s1 == 0 && s0 == 0
  {
    if s1 > 0 {
      MulAtLeast(s1, p);
    }
  }

  lemma HighFits(f: Fmt, s1: nat, s0: nat)
    requires s1 * Pow2(f.Size()) + s0 < Pow2(2 * f.Size() - 1)
    ensures s1 < Pow2(f.Size() - 1)
  {
    hide Pow2;
    Pow2Add(f.Size() - 1, f.Size());
    MulOrder(Pow2(f.Size() - 1), s1, Pow2(f.Size()));
  }

  /** The sum of the aligned words, the real it stands for, and the rounded sum it leads to. */
  lemma AlignedOutcome(f: Fmt, rSign: bool, rExp: int, r1: nat, r0: nat, cSign: bool, cExp: int, c1: nat, c0: nat,
                       d1: nat, d0: nat, rm: Mode, zeroNeg: bool, s: real)
    returns (w: nat, z: real, j: nat, x: real)
    requires r0 < Pow2(f.Size()) && c0 < Pow2(f.Size()) && c1 < Pow2(f.Size())
    requires Wide(f, r1 * Pow2(f.Size()) + r0) && Wide(f, c1 * Pow2(f.Size()) + c0)
    requires rExp >= cExp && (rExp == cExp ==> r1 > c1 || (r1 == c1 && c0 == 0)) && (r0 == 0 || c0 == 0)
    requires rSign != cSign ==> zeroNeg == rm.RDN?
    requires IsAligned(f, c1, c0, rExp - cExp, d1 * Pow2(f.Size()) + d0)
    requires s == WideValue(f, rSign, rExp, r1, r0) + WideValue(f, cSign, cExp, c1, c0)
    ensures w == if rSign == cSign then (r1 * Pow2(f.Size()) + r0) + (d1 * Pow2(f.Size()) + d0)
                 else (r1 * Pow2(f.Size()) + r0) - (d1 * Pow2(f.Size()) + d0)
    ensures w < Pow2(2 * f.Size() - 1) && Faithful(f, z, w, j)
    ensures x >= 0.0 && x == z * P2(rExp - f.Size() - 1 - f.RndSize() + f.UnitExp())
    ensures var neg := if rSign != cSign && w == 0 then rm.RDN? else rSign;
            FS.RoundExact(f, rm, s, zeroNeg) == FS.Outcome(IeeeBits(f, rm, neg, x), RoundFlags(f, rm, neg, x))
  {
    hide Pow2, P2, Wide, IeeeBits, RoundFlags, Faithful, FS.RoundExact, IsAligned, Signed, WideValue, Weight,
      Format.UnitExp;
    var d := rExp - cExp;
    var yr := (c1 * Pow2(f.Size()) + c0) as real * P2(0 - d);
    w, z, j := AlignedWords(f, r1, r0, c1, c0, d, d1 * Pow2(f.Size()) + d0, yr, rSign == cSign);
    x := z * Weight(f, rExp);
    ValueOfSum(f, rSign, rExp, r1, r0, cSign, cExp, c1, c0, yr, rm, zeroNeg, w, z, x, s);
    WeightIs(f, rExp, z, x);
  }

  lemma WeightIs(f: Fmt, e: int, z: real, x: real)
    requires x == z * Weight(f, e)
    ensures x == z * P2(e - f.Size() - 1 - f.RndSize() + f.UnitExp())
  {
    hide P2, Format.UnitExp;
  }

  lemma AlignedWords(f: Fmt, r1: nat, r0: nat, c1: nat, c0: nat, d: nat, y': nat, yr: real, same: bool)
    returns (w: nat, z: real, j: nat)
    requires r0 < Pow2(f.Size()) && c0 < Pow2(f.Size()) && c1 < Pow2(f.Size())
    requires Wide(f, r1 * Pow2(f.Size()) + r0) && Wide(f, c1 * Pow2(f.Size()) + c0)
    requires (d == 0 ==> r1 > c1 || (r1 == c1 && c0 == 0)) && (r0 == 0 || c0 == 0)
    requires IsAligned(f, c1, c0, d, y') && yr == (c1 * Pow2(f.Size()) + c0) as real * P2(0 - d)
    ensures w == if same then (r1 * Pow2(f.Size()) + r0) + y' else (r1 * Pow2(f.Size()) + r0) - y'
    ensures z == if same then (r1 * Pow2(f.Size()) + r0) as real + yr else (r1 * Pow2(f.Size()) + r0) as real - yr
    ensures w < Pow2(2 * f.Size() - 1) && Faithful(f, z, w, j)
    ensures z >= 0.0 && (w == 0 <==> z == 0.0) && (same ==> w > 0)
  {
    hide Pow2, P2, Wide, Faithful, IsAligned;
    var big := r1 * Pow2(f.Size()) + r0;
    j := if c0 == 0 then 1 else f.Size() - 3;
    if d == 0 {
      LargerFirst(r1, r0, c1, c0, Pow2(f.Size()));
    }
    if c0 != 0 {
      MultipleOfWord(f, r1, j);
    }
    var w' := if same then big + y' else big - y';
    z := if same then big as real + yr else big as real - yr;
    Combined(f, big, c1, c0, d, y', yr, j, same, w', z);
    w := w';
  }

  lemma ValueOfSum(f: Fmt, rSign: bool, rExp: int, r1: nat, r0: nat, cSign: bool, cExp: int, c1: nat, c0: nat,
                   yr: real, rm: Mode, zeroNeg: bool, w: nat, z: real, x: real, s: real)
    requires rSign != cSign ==> zeroNeg == rm.RDN?
    requires s == WideValue(f, rSign, rExp, r1, r0) + WideValue(f, cSign, cExp, c1, c0)
    requires yr == (c1 * Pow2(f.Size()) + c0) as real * P2(0 - (rExp - cExp))
    requires z == if rSign == cSign then (r1 * Pow2(f.Size()) + r0) as real + yr
             else (r1 * Pow2(f.Size()) + r0) as real - yr
    requires z >= 0.0 && (w == 0 <==> z == 0.0) && (rSign == cSign ==> w > 0) && x == z * Weight(f, rExp)
    ensures x >= 0.0
    ensures var neg := if rSign != cSign && w == 0 then rm.RDN? else rSign;
            FS.RoundExact(f, rm, s, zeroNeg) == FS.Outcome(IeeeBits(f, rm, neg, x), RoundFlags(f, rm, neg, x))
  {
    hide Pow2, P2, IeeeBits, RoundFlags, FS.RoundExact, Signed, WideValue, Weight;
    var big, y := r1 * Pow2(f.Size()) + r0, c1 * Pow2(f.Size()) + c0;
    var bigMag, smallMag := big as real * Weight(f, rExp), y as real * Weight(f, cExp);
    WideValueIs(f, rSign, rExp, r1, r0, big, bigMag);
    WideValueIs(f, cSign, cExp, c1, c0, y, smallMag);
    WeightShift(f, rExp, rExp - cExp, y as real, yr);
    assert Weight(f, rExp - (rExp - cExp)) == Weight(f, cExp);
    SignedSum(f, rm, rSign, cSign, big as real, yr, Weight(f, rExp), bigMag, smallMag, zeroNeg, w, z, x, s);
  }

  lemma MultipleOfWord(f: Fmt, r1: nat, j: nat)
    requires j <= f.Size()
    ensures (r1 * Pow2(f.Size()) + 0) % Pow2(j) == 0
  {
    hide Pow2;
    Pow2Add(f.Size() - j, j);
    MulExchange(r1, Pow2(f.Size() - j), Pow2(j));
    DivModUnique(r1 * Pow2(f.Size()), Pow2(j), r1 * Pow2(f.Size() - j), 0);
  }

  // ---- the product and the addend as wide significands ----

  lemma ProductBounds(f: Fmt, sa: nat, sb: nat, v: nat)
    requires Pow2(f.msize) <= sa < 2 * Pow2(f.msize) && Pow2(f.msize) <= sb < 2 * Pow2(f.msize)
    requires v == (sa * Pow2(f.RndSize())) * (sb * Pow2(f.RndSize()))
    ensures Pow2(2 * f.Size() - 4) <= v < Pow2(2 * f.Size() - 2) && v % 2 == 0
    ensures v as real == (sa as real * sb as real) * P2(2 * f.RndSize())
  {
    hide Pow2, P2, Shl;
    var k := f.RndSize();
    ShiftedSig(f, sa, k);
    ShiftedSig(f, sb, k);
    BetweenPowers(sa * Pow2(k), f.msize + k, sb * Pow2(k), f.msize + k);
    EvenMultiple(sb, Pow2(k));
    EvenMultiple(sa * Pow2(k), sb * Pow2(k));
    ScaledProduct(sa as real, k, sb as real, k);
    P2Nat(k);
    RealProduct(sa, Pow2(k));
    RealProduct(sb, Pow2(k));
    RealProduct(sa * Pow2(k), sb * Pow2(k));
  }

  lemma ProductWeight(f: Fmt, a: nat, sa: nat, ea: int, b: nat, sb: nat, eb: int, v: nat, x: real)
    requires Unpacked(f, a, sa, ea) && Unpacked(f, b, sb, eb)
    requires v as real == (sa as real * sb as real) * P2(2 * f.RndSize())
    requires x == Mag(f, FS.BitsOf(f, a)) * Mag(f, FS.BitsOf(f, b))
    ensures x == v as real * Weight(f, ea + eb - Pow2(f.esize - 1) + 3)
  {
    hide P2, Mag, Pow2, FS.BitsOf;
    var u, w := f.UnitExp(), sa as real * sb as real;
    ScaledProduct(sa as real, ea - 1 + u, sb as real, eb - 1 + u);
    var i, k := 2 * f.RndSize(), ea + eb - Pow2(f.esize - 1) + 3 - f.Size() - 1 - f.RndSize() + u;
    P2Add(i, k);
    MulAssoc(w, P2(i), P2(k));
    assert P2(i + k) == P2(ea - 1 + u + (eb - 1 + u));
  }

  lemma DoubleWeight(f: Fmt, v: nat, e: int)
    ensures v as real * Weight(f, e) == (2 * v) as real * Weight(f, e - 1)
  {
    hide P2, Format.UnitExp;
    var k := e - 1 - f.Size() - 1 - f.RndSize() + f.UnitExp();
    P2Succ(k);
    assert P2(e - f.Size() - 1 - f.RndSize() + f.UnitExp()) == 2.0 * P2(k);
    DoubleMove(v as real, P2(k));
  }

  lemma AddendWide(f: Fmt, c: nat, sc: nat, ec: int, c1: nat)
    requires Unpacked(f, c, sc, ec) && c1 == sc * Pow2(f.RndSize() - 1)
    ensures Wide(f, c1 * Pow2(f.Size()) + 0)
    ensures Mag(f, FS.BitsOf(f, c)) == (c1 * Pow2(f.Size()) + 0) as real * Weight(f, ec + 1)
  {
    hide P2, Mag, Pow2, FS.BitsOf, Shl, Format.UnitExp;
    var k, n := f.RndSize() - 1, f.RndSize() - 1 + f.Size();
    ShiftedSig(f, sc, k);
    Pow2Add(k, f.Size());
    MulExchange(sc, Pow2(k), Pow2(f.Size()));
    EvenMultiple(c1, Pow2(f.Size()));
    Pow2Add(f.msize + k, f.Size());
    Pow2Add(f.msize + k + 1, f.Size());
    MulOrder(Pow2(f.msize + k), c1, Pow2(f.Size()));
    MulOrder(c1, Pow2(f.msize + k + 1), Pow2(f.Size()));
    UpDown(sc, n, ec - 1 + f.UnitExp());
    assert P2(ec - 1 + f.UnitExp() - n) == P2(ec + 1 - f.Size() - 1 - f.RndSize() + f.UnitExp());
  }

  // ---- the operation ----

  /** The exact product plus the addend, by signs and magnitudes. */
  lemma ExactSum(f: Fmt, a: nat, b: nat, c: nat, neg: bool, x: real)
    requires neg == (FS.SignOf(f, a) != FS.SignOf(f, b))
    requires x == Mag(f, FS.BitsOf(f, a)) * Mag(f, FS.BitsOf(f, b))
    ensures FS.ExactProduct(f, a, b) + FS.Value(f, c) ==
            Signed(neg, x) + Signed(FS.SignOf(f, c), Mag(f, FS.BitsOf(f, c)))
    ensures x >= 0.0 && (x == 0.0 <==> Mag(f, FS.BitsOf(f, a)) == 0.0 || Mag(f, FS.BitsOf(f, b)) == 0.0)
  {
    hide Mag, Pow2, FS.BitsOf, FS.SignOf;
    var p, q := Mag(f, FS.BitsOf(f, a)), Mag(f, FS.BitsOf(f, b));
    FS.MagNonneg(f, FS.BitsOf(f, a));
    FS.MagNonneg(f, FS.BitsOf(f, b));
    ProductSigns(p, q);
  }

  /** A finite number is its own correct rounding, exactly. */
  lemma ExactWord(f: Fmt, w: nat, rm: Mode)
    requires FS.IsWord(f, w) && FS.IsFinite(f, w)
    ensures IeeeBits(f, rm, FS.SignOf(f, w), Mag(f, FS.BitsOf(f, w))) == w
    ensures Mag(f, FS.BitsOf(f, w)) >= 0.0 && RoundFlags(f, rm, FS.SignOf(f, w), Mag(f, FS.BitsOf(f, w))) == {}
  {
    hide Mag, Pow2, FS.BitsOf, FS.SignOf, FS.ExpOf, FS.MantOf, SignBit, IsRounding;
    FS.Fields(f, w);
    FS.MagNonneg(f, FS.BitsOf(f, w));
    FS.FieldBound(FS.ExpOf(f, w), FS.MantOf(f, w), f.ExpMask(), Pow2(f.msize));
    SelfRounding(f, rm, FS.SignOf(f, w), FS.BitsOf(f, w));
    RoundedIs(f, rm, FS.SignOf(f, w), Mag(f, FS.BitsOf(f, w)), FS.BitsOf(f, w));
  }

  lemma SelfRounding(f: Fmt, rm: Mode, neg: bool, p: nat)
    ensures IsRounding(f, rm, neg, Mag(f, p), p)
  {
    hide Mag;
    forall q: nat
      ensures p < q <==> Mag(f, p) < Mag(f, q)
      ensures p == q <==> Mag(f, p) == Mag(f, q)
    {
      MagOrder(f, p, q);
    }
  }

  method Fma(f: Fmt, a: nat, b: nat, c: nat, rm: Mode, fl0: set<Flag>) returns (r: nat, fl: set<Flag>)
    requires FS.IsWord(f, a) && FS.IsWord(f, b) && FS.IsWord(f, c)
    ensures r == FS.FmaSpec(f, a, b, c, rm).bits
    ensures fl == fl0 + FS.FmaSpec(f, a, b, c, rm).raised
    ensures var o := FS.RiscvFma(f, a, b, c, rm);
            r == o.bits && (fl == fl0 + o.raised <==> !FS.HidesInvalid(f, a, b, c) || InvalidOp in fl0)
    ensures FusedDelivered(f, a, b, c, rm, r, FS.FmaSpec(f, a, b, c, rm).raised)
  {
    FusedLaw(f, a, b, c, rm);
    hide FusedDelivered;
    hide Jam, Pow2, P2, Mag, Faithful, IeeeBits, RoundFlags, Unpacked, SignBit, FS.SignOf, FS.BitsOf, FS.ExpOf,
      FS.MantOf, FS.IsSignanSf, FS.IsSignaling, FS.ExactProduct, FS.Value, FS.RoundExact, FS.RiscvFma,
      FS.HidesInvalid, Format.UnitExp, Format.ExpMask, Format.Inf;
    Invalids(f, a, b, c, rm, fl0);
    var rSign := FS.SignOf(f, a) != FS.SignOf(f, b);
    var cSign := FS.SignOf(f, c);
    var aExp: int, bExp: int, cExp: int := FS.ExpOf(f, a), FS.ExpOf(f, b), FS.ExpOf(f, c);
    var aMant, bMant, cMant := FS.MantOf(f, a), FS.MantOf(f, b), FS.MantOf(f, c);
    FS.SignanIsSignaling(f, a);
    FS.SignanIsSignaling(f, b);
    FS.SignanIsSignaling(f, c);
    FS.PackedConstants(f, rSign);
    FS.PackedConstants(f, cSign);
    if aExp == f.ExpMask() || bExp == f.ExpMask() || cExp == f.ExpMask() {
      if FS.IsNaN(f, a) || FS.IsNaN(f, b) || FS.IsNaN(f, c) {
        return FS.QNaN(f),
          if FS.IsSignanSf(f, a) || FS.IsSignanSf(f, b) || FS.IsSignanSf(f, c) then fl0 + {InvalidOp} else fl0;
      } else if (aExp == f.ExpMask() && bExp == 0 && bMant == 0) ||
                (bExp == f.ExpMask() && aExp == 0 && aMant == 0) ||
                ((aExp == f.ExpMask() || bExp == f.ExpMask()) && cExp == f.ExpMask() && rSign != cSign) {
        return FS.QNaN(f), fl0 + {InvalidOp};
      } else if cExp == f.ExpMask() {
        return Pack(f, cSign, f.ExpMask(), 0), fl0;
      } else {
        return Pack(f, rSign, f.ExpMask(), 0), fl0;
      }
    }
    if (aExp == 0 && aMant == 0) || (bExp == 0 && bMant == 0) {
      ZeroProduct(f, a, b, c, rm);
      if cExp == 0 && cMant == 0 {
        if cSign != rSign {
          rSign := rm.RDN?;
        }
        FS.PackedConstants(f, rSign);
        return Pack(f, rSign, 0, 0), fl0;
      } else {
        return c, fl0;
      }
    }
    if aExp == 0 {
      aExp, aMant := NormalizeSubnormalSf(f, aMant, a);
    } else {
      UnpackNormal(f, a);
      aMant := aMant + Pow2(f.msize);
    }
    if bExp == 0 {
      bExp, bMant := NormalizeSubnormalSf(f, bMant, b);
    } else {
      UnpackNormal(f, b);
      bMant := bMant + Pow2(f.msize);
    }
    r, fl := FmaFinite(f, a, aExp, aMant, b, bExp, bMant, c, cSign, cExp, cMant, rm, fl0, rSign);
  }

  /** When the flags are those that RISC-V asks for. */
  lemma Invalids(f: Fmt, a: nat, b: nat, c: nat, rm: Mode, fl0: set<Flag>)
    ensures var s, o := FS.FmaSpec(f, a, b, c, rm), FS.RiscvFma(f, a, b, c, rm);
            s.bits == o.bits &&
            (fl0 + s.raised == fl0 + o.raised <==> !FS.HidesInvalid(f, a, b, c) || InvalidOp in fl0)
  {
    FS.FmaInvalid(f, a, b, c, rm);
    hide FS.FmaSpec;
    if FS.HidesInvalid(f, a, b, c) {
      assert FS.RiscvFma(f, a, b, c, rm).raised == {InvalidOp};
      assert InvalidOp in fl0 + FS.RiscvFma(f, a, b, c, rm).raised;
    }
  }

  /** A zero product leaves the addend, or a zero whose sign follows the rules for sums. */
  lemma ZeroProduct(f: Fmt, a: nat, b: nat, c: nat, rm: Mode)
    requires FS.IsWord(f, a) && FS.IsWord(f, b) && FS.IsWord(f, c)
    requires FS.IsFinite(f, a) && FS.IsFinite(f, b) && FS.IsFinite(f, c) && (FS.IsZero(f, a) || FS.IsZero(f, b))
    ensures var neg := FS.SignOf(f, a) != FS.SignOf(f, b);
            FS.RoundExact(f, rm, FS.ExactProduct(f, a, b) + FS.Value(f, c),
                          FS.SumZeroNeg(f, rm, neg, FS.SignOf(f, c))) ==
            FS.Outcome(if FS.IsZero(f, c) then SignBit(f, if FS.SignOf(f, c) != neg then rm.RDN? else neg) else c, {})
  {
    hide Pow2, Mag, IeeeBits, RoundFlags, SignBit, FS.SignOf, FS.BitsOf, FS.ExpOf, FS.MantOf, FS.ExactProduct, FS.Value;
    var neg := FS.SignOf(f, a) != FS.SignOf(f, b);
    ExactSum(f, a, b, c, neg, Mag(f, FS.BitsOf(f, a)) * Mag(f, FS.BitsOf(f, b)));
    FS.FiniteValue(f, a);
    FS.FiniteValue(f, b);
    FS.FiniteValue(f, c);
    FS.MagNonneg(f, FS.BitsOf(f, c));
    if FS.IsZero(f, c) {
      ZeroOutcome(f, rm, FS.SumZeroNeg(f, rm, neg, FS.SignOf(f, c)));
    } else {
      ExactWord(f, c, rm);
    }
  }

  /** The double-width product of two unpacked operands, normalized to have its leading bit in place. */
  method FmaProduct(f: Fmt, ghost a: nat, aExp: int, aMant: nat, ghost b: nat, bExp: int, bMant: nat, ghost x: real)
    returns (rExp: int, r1: nat, r0: nat)
    requires Unpacked(f, a, aMant, aExp) && Unpacked(f, b, bMant, bExp)
    requires x == Mag(f, FS.BitsOf(f, a)) * Mag(f, FS.BitsOf(f, b))
    ensures IsProduct(f, x, rExp, r1, r0)
  {
    hide Pow2, P2, Mag, Unpacked, Shl, Quot, Rem, IsProduct, IsHalfProduct, FS.BitsOf;
    rExp := aExp + bExp - Pow2(f.esize - 1) + 3;
    r1, r0 := ProductPair(f, a, aExp, aMant, b, bExp, bMant, x);
    if r1 < Pow2(f.Size() - 3) {
      ProductDoubled(f, r1, r0, rExp, x);
      r1, r0 := Shl(f, r1, 1) + Quot(r0, Pow2(f.Size() - 1)), Shl(f, r0, 1);
      rExp := rExp - 1;
    }
  }

  /** The words hold `x` exactly, with the leading bit in place. */
  ghost predicate IsProduct(f: Fmt, x: real, rExp: int, r1: nat, r0: nat)
  {
    r0 < Pow2(f.Size()) && Wide(f, r1 * Pow2(f.Size()) + r0) &&
    x == (r1 * Pow2(f.Size()) + r0) as real * Weight(f, rExp)
  }

  /** As `IsProduct`, with the leading bit one place low. */
  ghost predicate IsHalfProduct(f: Fmt, x: real, rExp: int, r1: nat, r0: nat)
  {
    r0 < Pow2(f.Size()) && Wide(f, 2 * (r1 * Pow2(f.Size()) + r0)) &&
    x == (r1 * Pow2(f.Size()) + r0) as real * Weight(f, rExp)
  }

  method ProductPair(f: Fmt, ghost a: nat, aExp: int, aMant: nat, ghost b: nat, bExp: int, bMant: nat, ghost x: real)
    returns (r1: nat, r0: nat)
    requires Unpacked(f, a, aMant, aExp) && Unpacked(f, b, bMant, bExp)
    requires x == Mag(f, FS.BitsOf(f, a)) * Mag(f, FS.BitsOf(f, b))
    ensures var rExp := aExp + bExp - Pow2(f.esize - 1) + 3;
            if r1 < Pow2(f.Size() - 3) then IsHalfProduct(f, x, rExp, r1, r0) else IsProduct(f, x, rExp, r1, r0)
  {
    hide Pow2, P2, Mag, Unpacked, Shl, Quot, Rem, IsProduct, IsHalfProduct, FS.BitsOf;
    SigBounds(f, a, aMant, aExp);
    SigBounds(f, b, bMant, bExp);
    ShiftedSig(f, aMant, f.RndSize());
    ShiftedSig(f, bMant, f.RndSize());
    r1, r0 := MulU(f, Shl(f, aMant, f.RndSize()), Shl(f, bMant, f.RndSize()));
    ProductWords(f, a, aExp, aMant, b, bExp, bMant, x, r1, r0, r1 * Pow2(f.Size()) + r0);
  }

  lemma ProductWords(f: Fmt, a: nat, aExp: int, aMant: nat, b: nat, bExp: int, bMant: nat, x: real, r1: nat, r0: nat,
                     v: nat)
    requires Unpacked(f, a, aMant, aExp) && Unpacked(f, b, bMant, bExp)
    requires x == Mag(f, FS.BitsOf(f, a)) * Mag(f, FS.BitsOf(f, b)) && r0 < Pow2(f.Size())
    requires v == (aMant * Pow2(f.RndSize())) * (bMant * Pow2(f.RndSize())) && v == r1 * Pow2(f.Size()) + r0
    ensures var rExp := aExp + bExp - Pow2(f.esize - 1) + 3;
            if r1 < Pow2(f.Size() - 3) then IsHalfProduct(f, x, rExp, r1, r0) else IsProduct(f, x, rExp, r1, r0)
  {
    hide Pow2, P2, Mag, Unpacked, Wide, Weight, FS.BitsOf, IsProduct, IsHalfProduct;
    SigBounds(f, a, aMant, aExp);
    SigBounds(f, b, bMant, bExp);
    ProductBounds(f, aMant, bMant, v);
    ProductWeight(f, a, aMant, aExp, b, bMant, bExp, v, x);
    ProductWide(f, r1, r0, v);
    var rExp := aExp + bExp - Pow2(f.esize - 1) + 3;
    if r1 < Pow2(f.Size() - 3) {
      HalfProductIs(f, x, rExp, r1, r0, v);
    } else {
      ProductIs(f, x, rExp, r1, r0, v);
    }
  }

  lemma ProductDoubled(f: Fmt, r1: nat, r0: nat, rExp: int, x: real)
    requires r1 < Pow2(f.Size() - 3) && IsHalfProduct(f, x, rExp, r1, r0)
    ensures IsProduct(f, x, rExp - 1, Shl(f, r1, 1) + Quot(r0, Pow2(f.Size() - 1)), Shl(f, r0, 1))
  {
    hide Pow2, P2, Quot, Rem, Shl, Wide, Weight, IsProduct;
    Pow2Mono(f.Size() - 3, f.Size() - 1);
    DoubleWords(f, r1, r0);
    DoubleWeight(f, r1 * Pow2(f.Size()) + r0, rExp);
    ProductIs(f, x, rExp - 1, Shl(f, r1, 1) + Quot(r0, Pow2(f.Size() - 1)), Shl(f, r0, 1),
              2 * (r1 * Pow2(f.Size()) + r0));
  }

  lemma HalfProductIs(f: Fmt, x: real, rExp: int, r1: nat, r0: nat, v: nat)
    requires r0 < Pow2(f.Size()) && v == r1 * Pow2(f.Size()) + r0 && Wide(f, 2 * v) && x == v as real * Weight(f, rExp)
    ensures IsHalfProduct(f, x, rExp, r1, r0)
  {
    hide Pow2, Wide, Weight;
  }

  lemma ProductIs(f: Fmt, x: real, rExp: int, r1: nat, r0: nat, v: nat)
    requires r0 < Pow2(f.Size()) && v == r1 * Pow2(f.Size()) + r0 && Wide(f, v) && x == v as real * Weight(f, rExp)
    ensures IsProduct(f, x, rExp, r1, r0)
  {
    hide Pow2, Wide, Weight;
  }

  lemma ProductWide(f: Fmt, r1: nat, r0: nat, v: nat)
    requires r0 < Pow2(f.Size()) && v == r1 * Pow2(f.Size()) + r0
    requires Pow2(2 * f.Size() - 4) <= v < Pow2(2 * f.Size() - 2) && v % 2 == 0
    ensures if r1 < Pow2(f.Size() - 3) then Wide(f, 2 * v) else Wide(f, v)
  {
    hide Pow2;
    Pow2Add(f.Size() - 3, f.Size());
    Pow2Succ(2 * f.Size() - 4);
    Pow2Succ(2 * f.Size() - 3);
    if r1 < Pow2(f.Size() - 3) {
      FS.FieldBound(r1, r0, Pow2(f.Size() - 3), Pow2(f.Size()));
    } else {
      MulOrder(Pow2(f.Size() - 3), r1, Pow2(f.Size()));
    }
  }

  /** Adding a zero: the low word of the product becomes a sticky bit. */
  lemma AddZero(f: Fmt, rExp: int, r1: nat, r0: nat, mant: nat, x: real) returns (z: real)
    requires r0 < Pow2(f.Size()) && Wide(f, r1 * Pow2(f.Size()) + r0)
    requires x == (r1 * Pow2(f.Size()) + r0) as real * Weight(f, rExp) && mant == OrBit(r1, r0 != 0)
    ensures Faithful(f, z, mant, 1) && mant < Pow2(f.Size() - 1)
    ensures x == z * P2(rExp - 1 - f.RndSize() + f.UnitExp())
  {
    hide Pow2, P2, Quot, Rem, OrBit, Faithful, Format.UnitExp;
    var v := r1 * Pow2(f.Size()) + r0;
    z := v as real * P2(0 - f.Size());
    QuotRemUnique(v, Pow2(f.Size()), r1, r0);
    Pow2Mono(2 * f.Size() - 2, 2 * f.Size() - 1);
    DroppedWord(f, v, mant, z);
    var k := rExp - 1 - f.RndSize() + f.UnitExp();
    P2Add(0 - f.Size(), k);
    MulAssoc(v as real, P2(0 - f.Size()), P2(k));
    assert P2(0 - f.Size() + k) == P2(rExp - f.Size() - 1 - f.RndSize() + f.UnitExp());
  }

  /** A nonzero product rounds by its own sign. */
  lemma NonzeroOutcome(f: Fmt, rm: Mode, neg: bool, x: real, zeroNeg: bool)
    requires x > 0.0
    ensures FS.RoundExact(f, rm, Signed(neg, x), zeroNeg) ==
            FS.Outcome(IeeeBits(f, rm, neg, x), RoundFlags(f, rm, neg, x))
  {
    hide IeeeBits, RoundFlags;
  }

  /** A nonzero finite product, unpacked, plus a finite addend. */
  method FmaFinite(f: Fmt, ghost a: nat, aExp: int, aMant: nat, ghost b: nat, bExp: int, bMant: nat,
                   ghost c: nat, cSign: bool, cExp0: int, cMant0: nat, rm: Mode, fl0: set<Flag>, rSign: bool)
    returns (r: nat, fl: set<Flag>)
    requires Unpacked(f, a, aMant, aExp) && Unpacked(f, b, bMant, bExp)
    requires FS.IsWord(f, c) && FS.IsFinite(f, c)
    requires cSign == FS.SignOf(f, c) && cExp0 == FS.ExpOf(f, c) && cMant0 == FS.MantOf(f, c)
    requires rSign == (FS.SignOf(f, a) != FS.SignOf(f, b))
    ensures var o := FS.RoundExact(f, rm, FS.ExactProduct(f, a, b) + FS.Value(f, c),
                                   FS.SumZeroNeg(f, rm, rSign, cSign));
            r == o.bits && fl == fl0 + o.raised
  {
    hide Jam, Pow2, P2, Mag, Faithful, IeeeBits, RoundFlags, Unpacked, Shl, Quot, Rem, OrBit, IsProduct,
      FS.SignOf, FS.BitsOf, FS.ExpOf, FS.MantOf, FS.ExactProduct, FS.Value, FS.RoundExact, Format.UnitExp,
      Format.ExpMask;
    ghost var x := Mag(f, FS.BitsOf(f, a)) * Mag(f, FS.BitsOf(f, b));
    var rExp, r1, r0 := FmaProduct(f, a, aExp, aMant, b, bExp, bMant, x);
    ProductPositive(f, x, rExp, r1, r0);
    ExactSum(f, a, b, c, rSign, x);
    FS.FiniteValue(f, c);
    var cExp, cMant := cExp0, cMant0;
    if cExp == 0 {
      if cMant == 0 {
        NonzeroOutcome(f, rm, rSign, x, FS.SumZeroNeg(f, rm, rSign, cSign));
        var rMant := OrBit(r1, r0 != 0);
        ghost var z := ProductAlone(f, rExp, r1, r0, rMant, x);
        r, fl := NormalizeSf(f, rSign, rExp, rMant, rm, fl0, z, 1, x);
        return;
      }
      cExp, cMant := NormalizeSubnormalSf(f, cMant, c);
    } else {
      UnpackNormal(f, c);
      cMant := cMant + Pow2(f.msize);
    }
    SigBounds(f, c, cMant, cExp);
    ShiftedSig(f, cMant, f.RndSize() - 1);
    cExp := cExp + 1;
    var c1 := Shl(f, cMant, f.RndSize() - 1);
    AddendIs(f, c, cMant, cExp - 1, c1);
    r, fl := FmaSum(f, rSign, rExp, r1, r0, cSign, cExp, c1, rm, fl0, FS.SumZeroNeg(f, rm, rSign, cSign),
                    x, Mag(f, FS.BitsOf(f, c)), FS.ExactProduct(f, a, b) + FS.Value(f, c));
  }

  lemma ProductPositive(f: Fmt, x: real, rExp: int, r1: nat, r0: nat)
    requires IsProduct(f, x, rExp, r1, r0)
    ensures x > 0.0
  {
    hide Pow2, Wide, Weight;
    WidePositive(f, r1 * Pow2(f.Size()) + r0, rExp, x);
  }

  lemma ProductAlone(f: Fmt, rExp: int, r1: nat, r0: nat, mant: nat, x: real) returns (z: real)
    requires IsProduct(f, x, rExp, r1, r0) && mant == OrBit(r1, r0 != 0)
    ensures Faithful(f, z, mant, 1) && mant < Pow2(f.Size() - 1)
    ensures x == z * P2(rExp - 1 - f.RndSize() + f.UnitExp())
  {
    hide Pow2, P2, Wide, Weight, OrBit, Faithful, Format.UnitExp;
    z := AddZero(f, rExp, r1, r0, mant, x);
  }

  lemma AddendIs(f: Fmt, c: nat, sc: nat, ec: int, c1: nat)
    requires Unpacked(f, c, sc, ec) && c1 == sc * Pow2(f.RndSize() - 1)
    ensures IsProduct(f, Mag(f, FS.BitsOf(f, c)), ec + 1, c1, 0)
  {
    hide Pow2, P2, Mag, Unpacked, Wide, Weight, FS.BitsOf;
    AddendWide(f, c, sc, ec, c1);
  }

  /** Product and addend, each held exactly. */
  method FmaSum(f: Fmt, rSign: bool, rExp: int, r1: nat, r0: nat, cSign: bool, cExp: int, c1: nat, rm: Mode,
                fl0: set<Flag>, ghost zeroNeg: bool, ghost x: real, ghost y: real, ghost s: real)
    returns (r: nat, fl: set<Flag>)
    requires IsProduct(f, x, rExp, r1, r0) && IsProduct(f, y, cExp, c1, 0) && s == Signed(rSign, x) + Signed(cSign, y)
    requires rSign != cSign ==> zeroNeg == rm.RDN?
    ensures r == FS.RoundExact(f, rm, s, zeroNeg).bits
    ensures fl == fl0 + FS.RoundExact(f, rm, s, zeroNeg).raised
  {
    hide Pow2, P2, Wide, Weight, WideValue, FS.RoundExact;
    WideValueIs(f, rSign, rExp, r1, r0, r1 * Pow2(f.Size()) + r0, x);
    WideValueIs(f, cSign, cExp, c1, 0, c1 * Pow2(f.Size()) + 0, y);
    r, fl := FmaCombine(f, rSign, rExp, r1, r0, cSign, cExp, c1, rm, fl0, zeroNeg, s);
  }

  lemma WidePositive(f: Fmt, v: nat, e: int, x: real)
    requires Wide(f, v) && x == v as real * Weight(f, e)
    ensures x > 0.0
  {
    hide Pow2, Weight;
    RealMulOrder(0.0, v as real, Weight(f, e));
  }
}
