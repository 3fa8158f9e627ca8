/** The square root of a number, placed between two neighbouring magnitudes by comparing squares alone. */
module RootSquares {
  import opened Powers
  import opened Sticky
  import opened Ieee
  import opened RoundPack
  import FS = FloatSpec

  function Square(x: real): real { x * x }

  /** Where the root of `v` lies between `a` and `b`. */
  ghost predicate SquareWithin(v: real, a: real, b: real, pos: Position)
  {
    match pos
    case OnGrid => Square(a) == v
    case BelowHalf => Square(a) < v && 4.0 * v < Square(a + b)
    case Half => 4.0 * v == Square(a + b)
    case AboveHalf => Square(a + b) < 4.0 * v && v < Square(b)
  }

  /** The root of `v` lies at `pos` above the magnitude of pattern `lo`. */
  ghost predicate RootAt(f: Fmt, v: real, lo: nat, pos: Position)
  {
    SquareWithin(v, Mag(f, lo), Mag(f, lo + 1), pos)
  }

  /** Formats whose square roots are never subnormal; the interchange formats are. */
  predicate RootsNormal(f: Fmt) { f.msize + 2 <= f.Bias() }

  lemma InterchangeRoots()
    ensures RootsNormal(Binary32) && RootsNormal(Binary64) && RootsNormal(Binary128)
  {
    assert Pow2(7) == 128;
    Pow2Mono(7, 10);
    Pow2Mono(7, 14);
  }

  // ---- there is one such place ----

  ghost function Times(a: real, b: real): real { a * b }

  lemma TimesOrder(a: real, b: real, p: real)
    requires p > 0.0
    ensures a < b <==> Times(a, p) < Times(b, p)
  {
    RealMulOrder(a, b, p);
  }

  lemma TimesFacts(a: real, b: real)
    ensures Times(a, b) == Times(b, a) && Times(0.0, b) == 0.0
  {
  }

  lemma TimesLess(x: real, y: real)
    requires 0.0 <= x < y
    ensures Times(x, x) < Times(y, y)
  {
    hide Times;
    TimesOrder(x, y, y);
    TimesFacts(x, y);
    TimesFacts(x, x);
    if x > 0.0 {
      TimesOrder(x, y, x);
    }
  }

  lemma SquareLess(x: real, y: real)
    requires 0.0 <= x < y
    ensures x * x < y * y
  {
    TimesLess(x, y);
  }

  lemma SquareOrder(x: real, y: real)
    requires 0.0 <= x < y
    ensures Square(x) < Square(y)
  {
    SquareLess(x, y);
  }

  lemma BetweenSquares(v: real, a: real, b: real, pos: Position)
    requires 0.0 <= a < b && SquareWithin(v, a, b, pos)
    ensures Square(a) <= v < Square(b)
  {
    hide Square;
    SquareOrder(a, b);
    SquareOrder(2.0 * a, a + b);
    SquareOrder(a + b, 2.0 * b);
    Quadruple(a);
    Quadruple(b);
  }

  lemma Quadruple(a: real)
    ensures Square(2.0 * a) == 4.0 * Square(a)
  {
  }

  /** No root lies in two places. */
  lemma RootAtUnique(f: Fmt, v: real, lo: nat, pos: Position, lo': nat, pos': Position)
    requires RootAt(f, v, lo, pos) && RootAt(f, v, lo', pos')
    ensures lo == lo' && pos == pos'
  {
    hide Mag, Square;
    FS.MagNonneg(f, lo);
    FS.MagNonneg(f, lo');
    MagOrder(f, lo, lo + 1);
    MagOrder(f, lo', lo' + 1);
    BetweenSquares(v, Mag(f, lo), Mag(f, lo + 1), pos);
    BetweenSquares(v, Mag(f, lo'), Mag(f, lo' + 1), pos');
    if lo < lo' {
      NotBelow(f, v, lo, lo');
    } else if lo' < lo {
      NotBelow(f, v, lo', lo);
    } else {
      BetweenSquares(v, Mag(f, lo), Mag(f, lo + 1), pos);
      MiddleAbove(Mag(f, lo), Mag(f, lo + 1));
    }
  }

  lemma MiddleAbove(a: real, b: real)
    requires 0.0 <= a < b
    ensures 4.0 * Square(a) < Square(a + b)
  {
    SquareOrder(2.0 * a, a + b);
    Quadruple(a);
  }

  lemma NotBelow(f: Fmt, v: real, lo: nat, lo': nat)
    requires lo < lo'
    ensures !(v < Square(Mag(f, lo + 1)) && Square(Mag(f, lo')) <= v)
  {
    hide Mag, Square;
    FS.MagNonneg(f, lo + 1);
    if lo + 1 < lo' {
      MagOrder(f, lo + 1, lo');
      SquareOrder(Mag(f, lo + 1), Mag(f, lo'));
    }
  }

  // ---- from the integer root ----

  function IntSquare(n: nat): nat { n * n }

  /** An even number compares with the integer root and its sticky bit as its square does with the radicand. */
  lemma EvenCompare(v: nat, s: nat, t: nat)
    requires s * s <= v < (s + 1) * (s + 1) && t % 2 == 0
    ensures var m := OrBit(s, s * s != v);
            (t < m <==> IntSquare(t) < v) && (t == m <==> IntSquare(t) == v)
  {
    if t <= s {
      IntSquares(t, s);
    } else {
      IntSquares(s + 1, t);
    }
  }

  lemma IntSquares(x: nat, y: nat)
    requires x <= y
    ensures x * x <= y * y && (x < y ==> x * x < y * y)
  {
    if x < y {
      if x > 0 {
        MulOrder(x, y, x);
      }
      MulOrder(x, y, y);
    }
  }

  lemma RealSquare(a: nat)
    ensures Square(a as real) == IntSquare(a) as real
  {
    RealProduct(a, a);
  }

  /** Where `r` lies on the way from 0 to `2 * h`. */
  function PlaceOf(r: nat, h: nat): Position
  {
    if r == 0 then OnGrid else if r < h then BelowHalf else if r == h then Half else AboveHalf
  }

  lemma PlaceWithin(r: nat, h: nat)
    requires r < 2 * h
    ensures Within(r as real, (2 * h) as real, PlaceOf(r, h))
  {
  }

  /** The place of the root among the integers `a`, `a + h` and `a + 2 * h`. */
  lemma PlaceInts(v: nat, s: nat, m: nat, a: nat, h: nat)
    requires s * s <= v < (s + 1) * (s + 1) && m == OrBit(s, s * s != v)
    requires h % 2 == 0 && a % 2 == 0 && a <= m < a + 2 * h
    ensures match PlaceOf(m - a, h)
            case OnGrid => IntSquare(a) == v
            case BelowHalf => IntSquare(a) < v < IntSquare(a + h)
            case Half => IntSquare(a + h) == v
            case AboveHalf => IntSquare(a + h) < v < IntSquare(a + 2 * h)
  {
    hide IntSquare;
    EvenCompare(v, s, a);
    EvenCompare(v, s, a + h);
    EvenCompare(v, s, a + 2 * h);
  }

  lemma PlaceReals(v: nat, s: nat, m: nat, a: nat, h: nat, x: real, y: real)
    requires s * s <= v < (s + 1) * (s + 1) && m == OrBit(s, s * s != v)
    requires h % 2 == 0 && a % 2 == 0 && a <= m < a + 2 * h && x == a as real && y == (a + 2 * h) as real
    ensures SquareWithin(v as real, x, y, PlaceOf(m - a, h))
  {
    PlaceInts(v, s, m, a, h);
    hide Square, IntSquare, OrBit;
    RealSquare(a);
    RealSquare(a + h);
    RealSquare(a + 2 * h);
    Quadruple((a + h) as real);
    assert x + y == 2.0 * (a + h) as real;
  }

  lemma SquareProduct(a: real, c: real, p: real)
    requires p == a * c
    ensures Square(p) == Times(Square(a), Square(c))
  {
    MulAssoc(a, c, a * c);
    MulAssoc(c, a, c);
    MulAssoc(a, a, c * c);
    assert c * (a * c) == a * (c * c);
  }

  lemma TimesBoth(a: real, b: real, p: real)
    requires p > 0.0
    ensures a < b <==> Times(a, p) < Times(b, p)
    ensures a == b <==> Times(a, p) == Times(b, p)
  {
    RealMulOrder(a, b, p);
  }

  lemma ScaleWithin(v: real, a: real, b: real, c: real, pos: Position, v': real, a': real, b': real)
    requires SquareWithin(v, a, b, pos) && c > 0.0 && v' == Times(v, Square(c)) && a' == a * c && b' == b * c
    ensures SquareWithin(v', a', b', pos)
  {
    SquareOrder(0.0, c);
    ZeroSquare();
    Distribute(a, b, c);
    hide Square, Times;
    SquareProduct(a, c, a');
    SquareProduct(b, c, b');
    SquareProduct(a + b, c, a' + b');
    Quarter(v, Square(c));
    TimesBoth(Square(a), v, Square(c));
    TimesBoth(v, Square(b), Square(c));
    TimesBoth(4.0 * v, Square(a + b), Square(c));
    TimesBoth(Square(a + b), 4.0 * v, Square(c));
  }

  lemma Distribute(a: real, b: real, c: real)
    ensures (a + b) * c == a * c + b * c
  {
  }

  lemma Quarter(v: real, c: real)
    ensures Times(4.0 * v, c) == 4.0 * Times(v, c)
  {
  }

  lemma ZeroSquare()
    ensures Square(0.0) == 0.0
  {
  }

  /** The operand as the radicand scaled twice. */
  lemma OperandIs(f: Fmt, sig: nat, half: int, v: nat)
    requires v == (sig * Pow2(f.esize - 3)) * Pow2(f.Size())
    ensures sig as real * P2(2 * half - f.msize) == v as real * Square(P2(half - f.Size() + 2))
  {
    hide Pow2, P2;
    var k, n := half - f.Size() + 2, f.esize - 3 + f.Size();
    Pow2Add(f.esize - 3, f.Size());
    MulExchange(sig, Pow2(f.esize - 3), Pow2(f.Size()));
    P2Nat(n);
    RealProduct(sig, Pow2(n));
    P2Add(k, k);
    P2Add(n, k + k);
    MulAssoc(sig as real, P2(n), P2(k + k));
    assert P2(n + (k + k)) == P2(2 * half - f.msize);
  }

  /** A root word at exponent field `e`: where the root lies, and what it rounds to. */
  lemma Placed(f: Fmt, rm: Mode, e: nat, m: nat, v: nat, s: nat, c: real, x: real) returns (lo: nat, pos: Position)
    requires 1 <= e && e + 1 < f.ExpMask() && Pow2(f.Size() - 2) <= m < Pow2(f.Size() - 1)
    requires s * s <= v < (s + 1) * (s + 1) && m == OrBit(s, s * s != v)
    requires c == P2(e - 1 - f.RndSize() + f.UnitExp()) && x == m as real * c && x >= 0.0
    ensures RootAt(f, Times(v as real, Square(c)), lo, pos)
    ensures IeeeBits(f, rm, false, x) == Pick(rm, false, lo, pos)
    ensures RoundFlags(f, rm, false, x) == if pos.OnGrid? then {} else {Inexact}
  {
    hide Jam, Pow2, P2, Mag, IeeeBits, RoundFlags, Located, Square, Times, Pick, IsRounding, Quot, Rem, HalfUlp, OrBit,
      SquareWithin, PlaceOf, Format.UnitExp, Format.ExpMask;
    var n, a := WordParts(f, m);
    lo, pos := (e - 1) * Pow2(f.msize) + n, PlaceOf(m - a, HalfUlp(f));
    GridStep(f, e, n, a, c);
    RootHere(f, m, v, s, a, c, lo);
    LocatedAt(f, e, m, n, a, c, x);
    Delivery(f, rm, e, n, x, pos);
    EvenMultiple(e - 1, Pow2(f.msize));
    PickOffset(rm, false, (e - 1) * Pow2(f.msize), n, pos);
  }

  lemma WordParts(f: Fmt, m: nat) returns (n: nat, a: nat)
    requires Pow2(f.Size() - 2) <= m < Pow2(f.Size() - 1)
    ensures Pow2(f.msize) <= n < 2 * Pow2(f.msize) && a == n * (2 * HalfUlp(f))
    ensures a % 2 == 0 && a <= m < a + 2 * HalfUlp(f)
  {
    hide Pow2, Quot, Rem, HalfUlp;
    n := Quot(m, 2 * HalfUlp(f));
    a := n * (2 * HalfUlp(f));
    WordRange(f, m, n);
    QuotRem(m, 2 * HalfUlp(f));
    EvenMultiple(n, 2 * HalfUlp(f));
  }

  lemma RootHere(f: Fmt, m: nat, v: nat, s: nat, a: nat, c: real, lo: nat)
    requires s * s <= v < (s + 1) * (s + 1) && m == OrBit(s, s * s != v)
    requires a % 2 == 0 && a <= m < a + 2 * HalfUlp(f) && c > 0.0
    requires Mag(f, lo) == a as real * c && Mag(f, lo + 1) == (a + 2 * HalfUlp(f)) as real * c
    ensures RootAt(f, Times(v as real, Square(c)), lo, PlaceOf(m - a, HalfUlp(f)))
  {
    hide Pow2, Mag, Square, Times, OrBit, SquareWithin, PlaceOf;
    var h := HalfUlp(f);
    hide HalfUlp;
    PlaceReals(v, s, m, a, h, a as real, (a + 2 * h) as real);
    ScaleWithin(v as real, a as real, (a + 2 * h) as real, c, PlaceOf(m - a, h), Times(v as real, Square(c)),
                Mag(f, lo), Mag(f, lo + 1));
  }

  lemma WordRange(f: Fmt, m: nat, n: nat)
    requires Pow2(f.Size() - 2) <= m < Pow2(f.Size() - 1) && n == Quot(m, 2 * HalfUlp(f))
    ensures Pow2(f.msize) <= n < 2 * Pow2(f.msize)
  {
    hide Pow2, Quot, Rem, HalfUlp;
    WordSplit(f);
    QuotBounds(m, 2 * HalfUlp(f), Pow2(f.msize));
    QuotBounds(m, 2 * HalfUlp(f), 2 * Pow2(f.msize));
  }

  /** The magnitudes of two neighbouring patterns in units of the root word. */
  lemma GridStep(f: Fmt, e: nat, n: nat, a: nat, c: real)
    requires e >= 1 && Pow2(f.msize) <= n < 2 * Pow2(f.msize) && c == P2(e - 1 - f.RndSize() + f.UnitExp())
    requires a == n * (2 * HalfUlp(f))
    ensures var lo := (e - 1) * Pow2(f.msize) + n;
            Mag(f, lo) == a as real * c && Mag(f, lo + 1) == (a + 2 * HalfUlp(f)) as real * c
    ensures a as real * c == n as real * P2(e - 1 + f.UnitExp())
  {
    hide Pow2, P2, Mag, HalfUlp, Format.UnitExp;
    var h := HalfUlp(f);
    UlpScale(f, e, c);
    GridMag(f, e, n);
    GridMag(f, e, n + 1);
    RealProduct(n, 2 * h);
    RealProduct(n + 1, 2 * h);
    MulAssoc(n as real, (2 * h) as real, c);
    MulAssoc((n + 1) as real, (2 * h) as real, c);
    assert (n + 1) * (2 * h) == a + 2 * h;
  }

  lemma UlpScale(f: Fmt, e: int, c: real)
    requires c == P2(e - 1 - f.RndSize() + f.UnitExp())
    ensures P2(e - 1 + f.UnitExp()) == (2 * HalfUlp(f)) as real * c
  {
    hide Pow2, P2, HalfUlp, Format.UnitExp;
    P2Nat(f.RndSize());
    P2Add(f.RndSize(), e - 1 - f.RndSize() + f.UnitExp());
    assert P2(f.RndSize() + (e - 1 - f.RndSize() + f.UnitExp())) == P2(e - 1 + f.UnitExp());
  }

  lemma LocatedAt(f: Fmt, e: nat, m: nat, n: nat, a: nat, c: real, x: real)
    requires c == P2(e - 1 - f.RndSize() + f.UnitExp()) && x == m as real * c && a <= m < a + 2 * HalfUlp(f)
    requires a as real * c == n as real * P2(e - 1 + f.UnitExp())
    ensures Located(x, n, P2(e - 1 + f.UnitExp()), PlaceOf(m - a, HalfUlp(f)))
  {
    hide Pow2, P2, HalfUlp, Within, Located, PlaceOf, Format.UnitExp;
    var h, s := HalfUlp(f), P2(e - 1 + f.UnitExp());
    UlpScale(f, e, c);
    PlaceWithin(m - a, h);
    var d := x - n as real * s;
    assert d == (m - a) as real * c by {
      Difference(m as real, a as real, c);
      assert m as real - a as real == (m - a) as real;
    }
    WithinScale((m - a) as real, (2 * h) as real, PlaceOf(m - a, h), c, d, s);
    LocatedIs(x, n, s, PlaceOf(m - a, h), d);
  }

  lemma LocatedIs(z: real, n: int, s: real, pos: Position, d: real)
    requires d == z - n as real * s && Within(d, s, pos)
    ensures Located(z, n, s, pos)
  {
  }

  lemma Difference(x: real, y: real, c: real)
    ensures x * c - y * c == (x - y) * c
  {
  }

  /** A normal result away from overflow is delivered as rounded, and only inexactness is flagged. */
  lemma Delivery(f: Fmt, rm: Mode, e: nat, n: nat, x: real, pos: Position)
    requires 1 <= e && e + 1 < f.ExpMask() && Pow2(f.msize) <= n < 2 * Pow2(f.msize) && x >= 0.0
    requires Located(x, n, P2(e - 1 + f.UnitExp()), pos)
    ensures IeeeBits(f, rm, false, x) == (e - 1) * Pow2(f.msize) + Pick(rm, false, n, pos)
    ensures RoundFlags(f, rm, false, x) == if pos.OnGrid? then {} else {Inexact}
  {
    hide Pow2, P2, Mag, Located, Pick, IsRounding, Tiny, Format.UnitExp, Format.ExpMask;
    var q, s := Pick(rm, false, n, pos), P2(e - 1 + f.UnitExp());
    RoundingAt(f, rm, false, x, e, n, pos);
    RoundedIs(f, rm, false, x, (e - 1) * Pow2(f.msize) + q);
    PickIsExact(rm, false, x, n, s, pos);
    TinyIff(f, rm, false, x, e, n, pos);
    MinNormalIs(f);
    TinyByExponent(f, e, q);
    BelowInf(f, e, q);
  }

  lemma BelowInf(f: Fmt, e: nat, q: nat)
    requires 1 <= e && e + 1 < f.ExpMask() && q <= 2 * Pow2(f.msize)
    ensures (e - 1) * Pow2(f.msize) + q < f.Inf()
  {
    hide Pow2, Format.ExpMask;
    MulOrder(e + 1, f.ExpMask(), Pow2(f.msize));
    assert (e + 1) * Pow2(f.msize) == (e - 1) * Pow2(f.msize) + 2 * Pow2(f.msize);
  }
}
