/** What each rounding mode means for a square root, said of squares of values and mode by mode. */
module RootLaws {
  import opened Powers
  import opened Sticky
  import opened Ieee
  import opened RoundPack
  import opened RoundingLaws
  import opened RootSquares
  import FS = FloatSpec

  /** The word `r` is what the root of `v` rounds to. */
  ghost predicate RootRounds(f: Fmt, rm: Mode, v: real, r: nat)
  {
    IsNumber(f, r) && !FS.SignOf(f, r) && forall w: nat :: IsNumber(f, w) ==> RootSide(f, rm, v, r, w)
  }

  /** Where the root lies, seen from `r` and another word. */
  ghost predicate RootSide(f: Fmt, rm: Mode, v: real, r: nat, w: nat)
  {
    var y, u := FS.Value(f, r), FS.Value(f, w);
    match rm
    case RTZ => Square(y) <= v && (y < u ==> v < Square(u))
    case RDN => Square(y) <= v && (y < u ==> v < Square(u))
    case RUP => v <= Square(y) && (0.0 <= u < y ==> Square(u) < v)
    case RNE =>
      (y < u ==> 4.0 * v <= Square(y + u)) && (0.0 <= u < y ==> Square(y + u) <= 4.0 * v) &&
      (y != u && u >= 0.0 && 4.0 * v == Square(y + u) ==> r % 2 == 0)
    case RMM => (y < u ==> 4.0 * v < Square(y + u)) && (0.0 <= u < y ==> Square(y + u) <= 4.0 * v)
  }

  lemma LargestAboveOne(f: Fmt)
    ensures Largest(f) > 1.0
  {
    hide P2, Pow2;
    var m, h := Pow2(f.msize), Pow2(f.esize - 1);
    Pow2Mono(0, f.msize - 1);
    Pow2Mono(0, f.esize - 2);
    Pow2Succ(f.msize - 1);
    Pow2Succ(f.esize - 2);
    P2Nat(f.msize);
    P2Add(f.msize, h - 1 - f.msize);
    P2Mono(1, h - 1);
    P2Succ(0);
    P2Zero();
    AtLeastTwo();
    assert m >= 2 && h >= 2;
    RealMulOrder(m as real, (2 * m - 1) as real, P2(h - 1 - f.msize));
  }

  lemma AtLeastTwo()
    ensures Pow2(0) == 1
  {
  }

  /** The root of a finite number is far from the largest one. */
  lemma RootFinite(f: Fmt, v: real, lo: nat, pos: Position)
    requires RootAt(f, v, lo, pos) && v <= Largest(f)
    ensures lo + 1 < f.Inf()
  {
    hide Mag, Square, Format.Inf, Largest;
    Tops(f);
    LargestAboveOne(f);
    MagOrder(f, lo, lo + 1);
    FS.MagNonneg(f, lo);
    BetweenSquares(v, Mag(f, lo), Mag(f, lo + 1), pos);
    MagOrder(f, lo, f.Inf() - 1);
    SquareGrows(Largest(f));
    if lo + 1 >= f.Inf() && lo != f.Inf() - 1 {
      SquareOrder(Largest(f), Mag(f, lo));
    }
  }

  lemma SquareGrows(x: real)
    requires x > 1.0
    ensures Square(x) > x
  {
    RealMulOrder(1.0, x, x);
  }

  lemma AtMost(f: Fmt, a: nat)
    requires IsNumber(f, a)
    ensures FS.Value(f, a) <= Largest(f)
  {
    hide Mag, Largest, Format.Inf, FS.SignOf, FS.BitsOf, FS.IsWord, FS.IsFinite;
    Tops(f);
    NumberIs(f, a);
    FS.MagNonneg(f, f.Inf() - 1);
    MagOrder(f, FS.BitsOf(f, a), f.Inf() - 1);
  }

  /** The neighbour that is picked is the one the mode, by its name, asks for. */
  lemma RootPicked(f: Fmt, rm: Mode, v: real, lo: nat, pos: Position, r: nat)
    requires RootAt(f, v, lo, pos) && v <= Largest(f) && r == Pick(rm, false, lo, pos)
    ensures RootRounds(f, rm, v, r)
    ensures pos == OnGrid <==> Square(FS.Value(f, r)) == v
  {
    hide Mag, Square, Format.Inf, Largest, FS.SignOf, FS.BitsOf, FS.IsWord, FS.IsFinite, FS.Value;
    RootFinite(f, v, lo, pos);
    WordIs(f, false, r);
    assert SignBit(f, false) + r == r;
    Places(f, v, lo, pos);
    forall w: nat | IsNumber(f, w)
      ensures RootSide(f, rm, v, r, w)
    {
      hide Pick;
      OneSide(f, rm, v, lo, pos, r, w);
    }
  }

  lemma Places(f: Fmt, v: real, lo: nat, pos: Position)
    requires RootAt(f, v, lo, pos)
    ensures var a, b := Mag(f, lo), Mag(f, lo + 1);
            0.0 <= a < b && Square(a) <= v < Square(b) && 4.0 * Square(a) < Square(a + b) < 4.0 * Square(b)
  {
    hide Mag, Square;
    FS.MagNonneg(f, lo);
    MagOrder(f, lo, lo + 1);
    var a, b := Mag(f, lo), Mag(f, lo + 1);
    BetweenSquares(v, a, b, pos);
    MiddleAbove(a, b);
    SquareOrder(a + b, 2.0 * b);
    Quadruple(b);
  }

  lemma OneSide(f: Fmt, rm: Mode, v: real, lo: nat, pos: Position, r: nat, w: nat)
    requires RootAt(f, v, lo, pos) && r == Pick(rm, false, lo, pos) && IsNumber(f, r) && IsNumber(f, w)
    requires FS.Value(f, r) == Mag(f, r)
    ensures RootSide(f, rm, v, r, w)
  {
    hide Mag, Square, Format.Inf, FS.SignOf, FS.BitsOf, FS.IsWord, FS.IsFinite;
    NumberIs(f, w);
    var a, b, u := Mag(f, lo), Mag(f, lo + 1), FS.Value(f, w);
    Places(f, v, lo, pos);
    var q := FS.BitsOf(f, w);
    MagOrder(f, lo, q);
    MagOrder(f, lo + 1, q);
    MagOrder(f, q, lo);
    MagOrder(f, q, lo + 1);
    assert u == Mag(f, q) || (u == -Mag(f, q) && u <= 0.0);
    assert u <= a || u >= b;
    if u > b {
      Higher(a, b, u);
    } else if 0.0 <= u < a {
      Lower(u, a, b);
    }
  }

  lemma Higher(a: real, b: real, u: real)
    requires 0.0 <= a < b < u
    ensures Square(b) < Square(u) && Square(a + b) < Square(a + u) && 4.0 * Square(b) < Square(b + u)
  {
    hide Square;
    SquareOrder(b, u);
    SquareOrder(a + b, a + u);
    MiddleAbove(b, u);
  }

  lemma Lower(u: real, a: real, b: real)
    requires 0.0 <= u < a < b
    ensures Square(u) < Square(a) && Square(u + b) < Square(a + b) && Square(u + a) < 4.0 * Square(a)
  {
    hide Square;
    SquareOrder(u, a);
    SquareOrder(u + b, a + b);
    SquareOrder(u + a, 2.0 * a);
    Quadruple(a);
  }
}
