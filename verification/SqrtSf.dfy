/** Square root: an integer square root of a double word by Newton's iteration, remainder into the sticky
    bit, round once. */
module SqrtSf {
  import opened Powers
  import opened Sticky
  import opened Ieee
  import opened RoundPack
  import opened Normalize
  import opened MulSf
  import opened RootSquares
  import opened RootLaws
  import D = DivSf
  import FS = FloatSpec

  // ---- Newton's iteration ----

  /** One step from above never drops below the root. */
  lemma NewtonStep(a: nat, s: nat, q: nat, r: nat, u: nat)
    requires s > 0 && a == q * s + r && r < s && u == (q + s) / 2
    ensures a < (u + 1) * (u + 1)
  {
    var t := q + 1 + s;
    assert t <= 2 * (u + 1);
    assert a < (q + 1) * s by { assert (q + 1) * s == q * s + s; }
    MeanSquare(q + 1, s);
    SquareMono(t, 2 * (u + 1));
    assert (2 * (u + 1)) * (2 * (u + 1)) == 4 * ((u + 1) * (u + 1));
  }

  lemma MeanSquare(x: int, y: int)
    ensures 4 * (x * y) <= (x + y) * (x + y)
  {
    assert (x + y) * (x + y) - 4 * (x * y) == (x - y) * (x - y);
  }

  lemma SquareMono(x: nat, y: nat)
    requires x <= y
    ensures x * x <= y * y
  {
  }

  /** When the iterate stops decreasing it is the root. */
  lemma NewtonStop(a: nat, s: nat, q: nat, r: nat)
    requires s > 0 && a == q * s + r && (q + s) / 2 >= s
    ensures s * s <= a
  {
    MulOrder(s, q, s);
  }

  lemma PositiveIterate(a: nat, u: nat)
    requires a > 0 && a < (u + 1) * (u + 1)
    ensures u > 0
  {
  }

  // ---- the first guess ----

  /** Where the iteration begins. */
  function FirstGuess(f: Fmt, ah: nat, al: nat): nat
    requires ah < Pow2(f.Size()) && al < Pow2(f.Size()) && (ah != 0 || al != 0)
  {
    var l := if ah != 0 then 2 * f.Size() - Clz(f, ah - 1) else f.Size() - Clz(f, al - 1);
    Pow2((l + 1) / 2)
  }

  /** The high word alone is the square of the first guess, and the low word reaches the next square. */
  predicate LowGuess(f: Fmt, ah: nat, al: nat)
    requires ah < Pow2(f.Size()) && al < Pow2(f.Size())
  {
    ah != 0 && ah * Pow2(f.Size()) == FirstGuess(f, ah, al) * FirstGuess(f, ah, al) && al > 2 * FirstGuess(f, ah, al)
  }

  lemma FirstGuessIs(f: Fmt, ah: nat, al: nat)
    requires ah < Pow2(f.Size()) && al < Pow2(f.Size()) && (ah != 0 || al != 0)
    ensures var a, u := ah * Pow2(f.Size()) + al, FirstGuess(f, ah, al);
            0 < u <= Pow2(f.Size()) && (a < (u + 1) * (u + 1) <==> !LowGuess(f, ah, al))
  {
    hide Pow2, BitLen;
    var p, x := Pow2(f.Size()), if ah != 0 then ah else al;
    var n := BitLen(x - 1);
    BitLenAtMost(x - 1, f.Size());
    BelowPower(x, n);
    var l := if ah != 0 then f.Size() + n else n;
    var i := (l + 1) / 2;
    var u := Pow2(i);
    Pow2Mono(i, f.Size());
    Pow2Add(i, i);
    assert (u + 1) * (u + 1) == u * u + 2 * u + 1;
    if ah != 0 {
      var k := Pow2(2 * i - f.Size());
      Pow2Add(2 * i - f.Size(), f.Size());
      Pow2Mono(n, 2 * i - f.Size());
      HighWordGuess(ah, al, p, k, u);
    } else {
      Pow2Mono(n, 2 * i);
    }
  }

  lemma BelowPower(x: nat, n: nat)
    requires x > 0 && n == BitLen(x - 1)
    ensures x <= Pow2(n)
  {
    if x > 1 {
      BitLenBounds(x - 1);
    }
  }

  lemma HighWordGuess(ah: nat, al: nat, p: nat, k: nat, u: nat)
    requires ah <= k && al < p && u * u == k * p
    ensures ah * p + al < u * u + 2 * u + 1 <==> !(ah * p == u * u && al > 2 * u)
  {
    if ah < k {
      MulOrder(ah + 1, k, p);
      DistributeRight(ah, 1, p);
    }
  }

  // ---- in double words ----

  predicate Below(s: nat, a: nat) { s * s <= a }

  /** Newton's iteration from a first guess. It ends with the root, or with the guess if that is below the root. */
  method Iterate(a: nat, guess: nat) returns (s: nat)
    requires a > 0 && guess > 0
    ensures Below(s, a) && (if Below(guess + 1, a) then s == guess else !Below(s + 1, a))
  {
    hide Below;
    var u := guess;
    while true
      invariant u > 0 && (if Below(guess + 1, a) then u == guess else !Below(u + 1, a))
      decreases u
    {
      s := u;
      Next(a, s);
      u := (a / s + s) / 2;
      if u >= s {
        break;
      }
    }
  }

  /** An iterate that does not move down is at most the root; one that does was above it, and stays above. */
  lemma Next(a: nat, s: nat)
    requires a > 0 && s > 0
    ensures var u := (a / s + s) / 2;
            if u >= s then Below(s, a) else u > 0 && !Below(s + 1, a) && !Below(u + 1, a)
  {
    var q, r := a / s, a % s;
    DivModIs(a, s);
    var u := (q + s) / 2;
    if u >= s {
      NewtonStop(a, s, q, r);
    } else {
      NewtonMoves(a, s, q, r);
      NewtonStep(a, s, q, r, u);
      PositiveIterate(a, u);
    }
  }

  /** Only from above does an iterate move down. */
  lemma NewtonMoves(a: nat, s: nat, q: nat, r: nat)
    requires s > 0 && a == q * s + r && r < s && (q + s) / 2 < s
    ensures a < (s + 1) * (s + 1)
  {
    MulOrder(q + 1, s, s);
    DistributeRight(q, 1, s);
    assert (s + 1) * (s + 1) == s * s + 2 * s + 1;
  }

  /** The root where double words can be divided. It is right exactly if the first guess is not too low. */
  method SqrtremWide(f: Fmt, ah: nat, al: nat) returns (s: nat, inexact: bool)
    requires ah < Pow2(f.Size()) && al < Pow2(f.Size())
    ensures var a := ah * Pow2(f.Size()) + al;
            s * s <= a && (a < (s + 1) * (s + 1) <==> !LowGuess(f, ah, al)) && (inexact <==> s * s != a)
    ensures s < Pow2(f.Size()) && (LowGuess(f, ah, al) ==> s == FirstGuess(f, ah, al))
  {
    hide Pow2, FirstGuess;
    var a := ah * Pow2(f.Size()) + al;
    if ah == 0 && al == 0 {
      return 0, false;
    }
    FirstGuessIs(f, ah, al);
    DoubleWord(ah, al, Pow2(f.Size()));
    hide LowGuess;
    s := Iterate(a, FirstGuess(f, ah, al));
    RootBelow(Pow2(f.Size()), a, s);
    inexact := a - s * s != 0;
  }

  lemma DoubleWord(ah: nat, al: nat, p: nat)
    requires ah < p && al < p
    ensures ah * p + al < p * p && (ah != 0 || al != 0 ==> ah * p + al > 0)
  {
    MulOrder(ah + 1, p, p);
    DistributeRight(ah, 1, p);
    MulOrder(0, ah, p);
  }

  lemma RootBelow(p: nat, a: nat, s: nat)
    requires s * s <= a < p * p
    ensures s < p
  {
    if s >= p {
      SquareMono(p, s);
    }
  }

  lemma WordPowers()
    ensures Pow2(16) == 0x1_0000 && Pow2(30) == 0x4000_0000 && Pow2(31) == 0x8000_0000 && Pow2(32) == 0x1_0000_0000
  {
    assert Pow2(2) == 4;
    hide Pow2;
    Pow2Add(2, 2);
    Pow2Add(4, 4);
    Pow2Add(8, 8);
    Pow2Add(16, 16);
    Pow2Succ(31);
    Pow2Succ(30);
  }

  /** In 32 bits: the root of 2^32 + 3 * 2^16 is given as 2^16, one less than it is. */
  method GuessTooLow() returns (s: nat, inexact: bool)
    ensures s == 0x1_0000 && 0x1_0001 * 0x1_0001 <= 0x1_0003_0000
  {
    WordPowers();
    hide Pow2;
    assert FirstGuess(Binary32, 1, 0x3_0000) == 0x1_0000;
    s, inexact := SqrtremWide(Binary32, 1, 0x3_0000);
  }

  // ---- in single words ----

  /** The quotient and its sum with the iterate fit in a word of `2 * h`, with one exception. */
  lemma WordStep(h: nat, a1: nat, a0: nat, s: nat)
    requires h >= 4 && h % 2 == 0 && 0 < s <= h && 2 * a1 < h && a0 < 2 * h && !Below(s + 1, a1 * (2 * h) + a0)
    ensures a1 < s
    ensures var a := a1 * (2 * h) + a0;
            if a == h * h - 1 && s == h - 1 then a / s + s == 2 * h else a / s + s < 2 * h
  {
    var a := a1 * (2 * h) + a0;
    DividendSmall(h, a1, s);
    BelowSquare(h, a1, a0);
    SumFits(h, a, s);
  }

  lemma DividendSmall(h: nat, a1: nat, s: nat)
    requires h >= 4 && 0 < s <= h && 2 * a1 < h && a1 * (2 * h) < (s + 1) * (s + 1)
    ensures a1 < s
  {
    if s == h {
    } else {
      MulOrder(s + 1, h, s + 1);
      assert (s + 1) * (s + 1) <= (s + 1) * h;
      assert a1 * (2 * h) == (2 * a1) * h;
      MulOrder(2 * a1, s + 1, h);
    }
  }

  lemma BelowSquare(h: nat, a1: nat, a0: nat)
    requires h % 2 == 0 && 2 * a1 < h && a0 < 2 * h
    ensures a1 * (2 * h) + a0 < h * h
  {
    MulOrder(2 * a1 + 2, h, h);
    assert (2 * a1 + 2) * h == a1 * (2 * h) + 2 * h;
  }

  lemma SumFits(h: nat, a: nat, s: nat)
    requires 2 <= h && 0 < s <= h && a < (s + 1) * (s + 1) && a < h * h
    ensures if a == h * h - 1 && s == h - 1 then a / s + s == 2 * h else a / s + s < 2 * h
  {
    var q := a / s;
    DivModIs(a, s);
    assert (s + 1) * (s + 1) == s * s + 2 * s + 1;
    if s == h {
      MulOrder(h, q, s);
    } else {
      MulOrder(s + 3, q, s);
      assert (s + 3) * s == s * s + 3 * s && (s + 2) * s == s * s + 2 * s;
      if s == h - 1 {
        assert h * h - 1 == (s + 2) * s;
        MulOrder(s + 2, q, s);
        if a == h * h - 1 {
          DivModUnique(a, s, s + 2, 0);
        }
      }
    }
  }

  /** A first guess that is too low: the sum fits all the same. */
  lemma LowStep(h: nat, a1: nat, a0: nat, s: nat)
    requires s >= 4 && 2 * s <= h && a0 < 2 * h && s * s == a1 * (2 * h)
    ensures var a := a1 * (2 * h) + a0;
            a1 < s && a / s + s < 2 * h
  {
    LowQuotient(a0, s);
    MulOrder(s, 2 * h, s);
    assert s * (2 * h) == (2 * h) * s;
    MulOrder(a1, s, 2 * h);
  }

  lemma LowQuotient(a0: nat, s: nat)
    requires s >= 4
    ensures (s * s + a0) / s == s + a0 / s && 4 * (a0 / s) <= a0
  {
    var d := a0 / s;
    DivModIs(a0, s);
    DistributeRight(s, d, s);
    DivModUnique(s * s + a0, s, s + d, a0 % s);
    if d > 0 {
      MulOrder(4, s, d);
    }
  }

  /** The largest operand of all: its iteration does not stop before the sum overflows. */
  predicate SumWraps(f: Fmt, a1: nat, a0: nat)
  {
    a1 * Pow2(f.Size()) + a0 == Pow2(f.Size() - 1) * Pow2(f.Size() - 1) - 1
  }

  lemma WrapsOn(h: nat, a: nat, s: nat)
    requires h >= 4 && a == h * h - 1 && 0 < s <= h && s != h - 1 && !Below(s + 1, a)
    ensures s == h && (a / s + s) / 2 < s
  {
    assert (h - 1) * (h - 1) == h * h - 2 * h + 1;
    if s < h - 1 {
      SquareMono(s + 1, h - 1);
    }
    DivModUnique(a, h, h - 1, h - 1);
  }

  lemma NotBoth(h: nat, a1: nat, a0: nat, u: nat)
    requires h >= 4 && 2 * a1 < h && h % 2 == 0 && a0 < 2 * h && a1 * (2 * h) + a0 == h * h - 1
    ensures u * u != a1 * (2 * h)
  {
    assert (2 * a1 + 2) * h == a1 * (2 * h) + 2 * h && (2 * a1 + 4) * h == (2 * a1 + 2) * h + 2 * h;
    MulOrder(2 * a1 + 4, h, h);
    assert 2 * a1 + 2 == h;
    assert (h - 1) * (h - 1) == h * h - 2 * h + 1 && (h - 2) * (h - 2) == h * h - 4 * h + 4;
    if u <= h - 2 {
      SquareMono(u, h - 2);
    } else {
      SquareMono(h - 1, u);
    }
  }

  /** Sizes of words, and what a first guess that is too low amounts to. */
  lemma WordSizes(f: Fmt, a1: nat, a0: nat)
    requires a1 < Pow2(f.Size() - 2) && a1 < Pow2(f.Size()) && a0 < Pow2(f.Size())
    ensures var h := Pow2(f.Size() - 1);
            h >= 4 && h % 2 == 0 && Pow2(f.Size()) == 2 * h && 2 * a1 < h
    ensures LowGuess(f, a1, a0) ==> FirstGuess(f, a1, a0) >= 4 && 2 * FirstGuess(f, a1, a0) <= Pow2(f.Size() - 1)
    ensures a1 != 0 || a0 != 0 ==> FirstGuess(f, a1, a0) <= Pow2(f.Size() - 1)
  {
    hide Pow2, BitLen, FirstGuess, LowGuess;
    var n := f.Size();
    Pow2Succ(n - 1);
    Pow2Succ(n - 2);
    Pow2Succ(n - 3);
    Pow2Mono(2, n - 1);
    assert Pow2(2) == 4 by {
      Pow2Succ(0);
      Pow2Succ(1);
    }
    GuessSize(f, a1, a0);
  }

  lemma GuessSize(f: Fmt, a1: nat, a0: nat)
    requires a1 < Pow2(f.Size() - 2) && a1 < Pow2(f.Size()) && a0 < Pow2(f.Size())
    ensures LowGuess(f, a1, a0) ==> FirstGuess(f, a1, a0) >= 4 && 2 * FirstGuess(f, a1, a0) <= Pow2(f.Size() - 1)
    ensures a1 != 0 || a0 != 0 ==> FirstGuess(f, a1, a0) <= Pow2(f.Size() - 1)
  {
    hide Pow2, BitLen;
    if a1 != 0 || a0 != 0 {
      var n, x := f.Size(), if a1 != 0 then a1 else a0;
      BitLenAtMost(x - 1, if a1 != 0 then n - 2 else n);
      var l := if a1 != 0 then n + BitLen(x - 1) else BitLen(x - 1);
      var i := (l + 1) / 2;
      Pow2Mono(i, n - 1);
      if a1 != 0 {
        Pow2Mono(2, i);
        assert Pow2(2) == 4 by {
          Pow2Succ(0);
          Pow2Succ(1);
        }
        if i == n - 1 {
          Pow2Add(n - 1, n - 1);
          Pow2Add(n - 2, n);
          MulOrder(a1, Pow2(n - 2), Pow2(n));
        } else {
          Pow2Mono(i, n - 2);
          Pow2Succ(n - 2);
        }
      }
    }
  }

  /** The root where only single words can be divided. It is right exactly if the first guess is not too low, and the
      operand is not the largest. */
  method SqrtremU(f: Fmt, a1: nat, a0: nat) returns (s: nat, inexact: bool)
    requires a1 < Pow2(f.Size() - 2) && a1 < Pow2(f.Size()) && a0 < Pow2(f.Size())
    ensures var a := a1 * Pow2(f.Size()) + a0;
            (inexact <==> s * s != a) && s < Pow2(f.Size()) &&
            (s * s <= a < (s + 1) * (s + 1) <==> !LowGuess(f, a1, a0) && !SumWraps(f, a1, a0))
    ensures LowGuess(f, a1, a0) ==> s == FirstGuess(f, a1, a0)
    ensures SumWraps(f, a1, a0) ==> s == 0
  {
    hide Pow2, FirstGuess, Below;
    ghost var h, a := Pow2(f.Size() - 1), a1 * Pow2(f.Size()) + a0;
    WordSizes(f, a1, a0);
    BelowSquare(h, a1, a0);
    if a1 == 0 && a0 == 0 {
      Small(h);
      return 0, false;
    }
    FirstGuessIs(f, a1, a0);
    BelowIs(FirstGuess(f, a1, a0) + 1, a);
    if LowGuess(f, a1, a0) && SumWraps(f, a1, a0) {
      NotBoth(h, a1, a0, FirstGuess(f, a1, a0));
    }
    s := IterateWords(f, a1, a0, FirstGuess(f, a1, a0), a, LowGuess(f, a1, a0));
    Verdict(a, s, LowGuess(f, a1, a0), SumWraps(f, a1, a0));
    hide LowGuess, SumWraps;
    var sq1, sq0 := MulU(f, s, s);
    SameWords(sq1, sq0, a1, a0, Pow2(f.Size()));
    inexact := sq0 != a0 || sq1 != a1;
  }

  lemma Verdict(a: nat, s: nat, low: bool, wraps: bool)
    requires if low || wraps then Below(s + 1, a) else Below(s, a) && !Below(s + 1, a)
    ensures s * s <= a < (s + 1) * (s + 1) <==> !low && !wraps
  {
  }

  /** With a low word of zero all is well. */
  lemma LowWordZero(f: Fmt, a1: nat)
    requires a1 < Pow2(f.Size())
    ensures !LowGuess(f, a1, 0) && !SumWraps(f, a1, 0)
  {
    hide FirstGuess;
    var h := Pow2(f.Size() - 1);
    Pow2Succ(f.Size() - 1);
    Pow2Succ(f.Size() - 2);
    hide Pow2;
    var k := Pow2(f.Size() - 2);
    assert a1 * (2 * h) == 2 * (a1 * h) && h * h == 2 * (k * h);
  }

  lemma Small(h: nat)
    requires h >= 4
    ensures h * h - 1 > 0
  {
    MulOrder(4, h, h);
  }

  lemma BelowIs(s: nat, a: nat)
    ensures Below(s, a) <==> s * s <= a
  {
  }

  lemma SameWords(hi: nat, lo: nat, a1: nat, a0: nat, p: nat)
    requires lo < p && a0 < p
    ensures hi * p + lo == a1 * p + a0 <==> lo == a0 && hi == a1
  {
    if hi * p + lo == a1 * p + a0 {
      QuotRemUnique(a1 * p + a0, p, hi, lo);
      QuotRemUnique(a1 * p + a0, p, a1, a0);
    }
  }

  /** The iteration, with sums that wrap around. */
  method IterateWords(f: Fmt, a1: nat, a0: nat, guess: nat, ghost a: nat, ghost low: bool) returns (s: nat)
    requires a1 < Pow2(f.Size() - 2) && a1 < Pow2(f.Size()) && a0 < Pow2(f.Size()) && (a1 != 0 || a0 != 0)
    requires guess == FirstGuess(f, a1, a0) && 0 < guess <= Pow2(f.Size() - 1)
    requires a == a1 * Pow2(f.Size()) + a0 && low == LowGuess(f, a1, a0)
    requires (Below(guess + 1, a) <==> low) && !(low && SumWraps(f, a1, a0))
    ensures s <= Pow2(f.Size() - 1) &&
            if low then s == guess && Below(s, a) && Below(s + 1, a)
            else if SumWraps(f, a1, a0) then s == 0 && Below(s + 1, a) else Below(s, a) && !Below(s + 1, a)
  {
    hide Pow2, FirstGuess, LowGuess, Below;
    ghost var h := Pow2(f.Size() - 1);
    WordSizes(f, a1, a0);
    DoubleWord(a1, a0, Pow2(f.Size()));
    BelowIs(1, a);
    var u := guess;
    while true
      invariant 0 <= u <= h
      invariant if u == 0 then SumWraps(f, a1, a0) else if low then u == guess else !Below(u + 1, a)
      decreases u
    {
      s := u;
      if s > 0 {
        if low {
          LowIs(f, a1, a0);
          LowStep(h, a1, a0, s);
        } else {
          WordStep(h, a1, a0, s);
          if SumWraps(f, a1, a0) && s != h - 1 {
            WrapsOn(h, a, s);
          }
        }
        Next(a, s);
      }
      var q, r := D.DivremU(f, a1, a0, s);
      Quotient(a, s, q, r);
      u := (q + s) % Pow2(f.Size()) / 2;
      WordSum(h, q + s);
      if u >= s {
        break;
      }
    }
  }

  lemma LowIs(f: Fmt, a1: nat, a0: nat)
    requires a1 < Pow2(f.Size()) && a0 < Pow2(f.Size()) && LowGuess(f, a1, a0)
    ensures var u := FirstGuess(f, a1, a0);
            u * u == a1 * Pow2(f.Size())
  {
  }

  lemma Quotient(a: nat, s: nat, q: nat, r: nat)
    ensures s > 0 && a == q * s + r && r < s ==> q == a / s
  {
    if s > 0 && a == q * s + r && r < s {
      DivModUnique(a, s, q, r);
    }
  }

  lemma WordSum(h: nat, x: nat)
    requires h > 0 && x <= 2 * h
    ensures x % (2 * h) / 2 == if x == 2 * h then 0 else x / 2
  {
    if x < 2 * h {
      DivModUnique(x, 2 * h, 0, x);
    } else {
      DivModUnique(x, 2 * h, 1, 0);
    }
  }

  /** In 32 bits: the sum overflows for the largest operand, whose root is 2^31 - 1. */
  method LargestOperand() returns (s: nat, inexact: bool)
    ensures s == 0 && 0x7FFF_FFFF * 0x7FFF_FFFF <= 0x3FFF_FFFF_FFFF_FFFF
  {
    WordPowers();
    hide Pow2;
    assert SumWraps(Binary32, 0x3FFF_FFFF, 0xFFFF_FFFF);
    hide *;
    s, inexact := SqrtremU(Binary32, 0x3FFF_FFFF, 0xFFFF_FFFF);
  }

  // ---- from the integer root to the rounded one ----

  lemma RootFloor(z: real, s: nat, v: nat)
    requires z >= 0.0 && z * z == v as real && s * s <= v < (s + 1) * (s + 1)
    ensures s as real <= z < (s + 1) as real
    ensures z == s as real <==> s * s == v
  {
    RealProduct(s, s);
    RealProduct(s + 1, s + 1);
    if z < s as real {
      SquareLess(z, s as real);
    } else if z >= (s + 1) as real {
      if z > (s + 1) as real {
        SquareLess((s + 1) as real, z);
      }
    } else if z > s as real {
      SquareLess(s as real, z);
    }
  }

  lemma RootWord(f: Fmt, sig: nat, v: nat, s: nat, z: real)
    requires Pow2(f.msize) <= sig < 4 * Pow2(f.msize)
    requires v == (sig * Pow2(f.esize - 3)) * Pow2(f.Size()) && s * s <= v < (s + 1) * (s + 1)
    requires z >= 0.0 && z * z == v as real
    ensures Faithful(f, z, OrBit(s, s * s != v), 1) && OrBit(s, s * s != v) < Pow2(f.Size() - 1)
  {
    hide Jam, Pow2;
    RootFloor(z, s, v);
    JamFloor(z, s, s * s != v);
    RootRange(f, sig, v, s);
    Pow2Mono(f.msize + 2, f.Size() - 2);
    Pow2Succ(f.Size() - 2);
    Pow2Succ(0);
  }

  lemma RootRange(f: Fmt, sig: nat, v: nat, s: nat)
    requires Pow2(f.msize) <= sig < 4 * Pow2(f.msize)
    requires v == (sig * Pow2(f.esize - 3)) * Pow2(f.Size()) && s * s <= v < (s + 1) * (s + 1)
    ensures Pow2(f.Size() - 2) <= s < Pow2(f.Size() - 1)
  {
    hide Pow2;
    var k := f.esize - 3 + f.Size();
    Pow2Add(f.esize - 3, f.Size());
    MulExchange(sig, Pow2(f.esize - 3), Pow2(f.Size()));
    Pow2Add(f.msize, k);
    Pow2Succ(f.msize);
    Pow2Succ(f.msize + 1);
    Pow2Add(f.msize + 2, k);
    MulOrder(Pow2(f.msize), sig, Pow2(k));
    MulOrder(sig, 4 * Pow2(f.msize), Pow2(k));
    var lo, hi := Pow2(f.Size() - 2), Pow2(f.Size() - 1);
    Pow2Add(f.Size() - 2, f.Size() - 2);
    Pow2Add(f.Size() - 1, f.Size() - 1);
    RootBetween(lo, hi, v, s);
  }

  lemma RootBetween(lo: nat, hi: nat, v: nat, s: nat)
    requires lo * lo <= v < hi * hi && s * s <= v < (s + 1) * (s + 1)
    ensures lo <= s < hi
  {
    if s >= hi {
      SquareMono(hi, s);
    }
    if s + 1 <= lo {
      SquareMono(s + 1, lo);
    }
  }

  /** Scaling a root to the word and back. */
  lemma RootScaled(f: Fmt, sig: nat, e: int, x: real, z: real, v: nat)
    requires x * x == sig as real * P2(2 * e - f.msize) && z == x * P2(f.Size() - 2 - e)
    requires v == (sig * Pow2(f.esize - 3)) * Pow2(f.Size())
    ensures z * z == v as real
    ensures x == z * P2(e - f.Size() + 2)
  {
    hide P2, Pow2;
    var k := f.Size() - 2 - e;
    ScaledProduct(x, k, x, k);
    P2Add(2 * e - f.msize, k + k);
    MulAssoc(sig as real, P2(2 * e - f.msize), P2(k + k));
    var n := f.esize - 3 + f.Size();
    assert P2(2 * e - f.msize + (k + k)) == P2(n);
    Pow2Add(f.esize - 3, f.Size());
    MulExchange(sig, Pow2(f.esize - 3), Pow2(f.Size()));
    P2Nat(n);
    RealProduct(sig, Pow2(n));
    P2Add(k, 0 - k);
    P2Nat(0);
    MulAssoc(x, P2(k), P2(0 - k));
    assert P2(0 - k) == P2(e - f.Size() + 2);
  }

  // ---- the operation ----

  /** Operands with a real square root: zeros of either sign and positive finite numbers. */
  ghost predicate HasRoot(f: Fmt, a: nat)
  {
    FS.IsFinite(f, a) && (FS.SignOf(f, a) ==> FS.IsZero(f, a))
  }

  function Flagged(pos: Position): set<Flag> { if pos.OnGrid? then {} else {Inexact} }

  /** The square root. Where it lies among the magnitudes is told by squares alone. */
  method Sqrt(f: Fmt, a: nat, rm: Mode, fl0: set<Flag>)
    returns (r: nat, fl: set<Flag>, ghost lo: nat, ghost pos: Position)
    requires FS.IsWord(f, a)
    ensures HasRoot(f, a) ==> forall root :: FS.IsRoot(f, a, root) ==>
      r == FS.RoundExact(f, rm, root, FS.SignOf(f, a)).bits &&
      fl == fl0 + FS.RoundExact(f, rm, root, FS.SignOf(f, a)).raised
    ensures FS.IsNaN(f, a) ==>
      r == FS.Propagate(f, FS.IsSignaling(f, a)).bits && fl == fl0 + FS.Propagate(f, FS.IsSignaling(f, a)).raised
    ensures FS.IsInf(f, a) && !FS.SignOf(f, a) ==> r == FS.Infinity(f, false).bits && fl == fl0
    ensures !FS.IsNaN(f, a) && FS.SignOf(f, a) && !FS.IsZero(f, a) ==>
      r == FS.Invalid(f).bits && fl == fl0 + FS.Invalid(f).raised
    ensures FS.IsZero(f, a) ==> r == a && fl == fl0
    ensures RootsNormal(f) && HasRoot(f, a) && !FS.IsZero(f, a) ==>
      RootAt(f, FS.Value(f, a), lo, pos) && r == Pick(rm, false, lo, pos) && fl == fl0 + Flagged(pos)
    ensures RootsNormal(f) && HasRoot(f, a) && !FS.IsZero(f, a) ==>
      RootRounds(f, rm, FS.Value(f, a), r) &&
      fl == fl0 + if Square(FS.Value(f, r)) == FS.Value(f, a) then {} else {Inexact}
  {
    hide RootRounds, Square;
    hide Jam, Pow2, P2, Mag, Faithful, IeeeBits, RoundFlags, Unpacked, Shl, Quot, Rem, OrBit, SignBit, FS.SignOf,
      FS.BitsOf, FS.ExpOf, FS.MantOf, FS.IsSignanSf, FS.IsSignaling, FS.RoundExact, FS.IsRoot, FS.Value, RootAt, Pick,
      RootsNormal, Format.UnitExp, Format.ExpMask, Format.Inf;
    var aSign := FS.SignOf(f, a);
    var aExp: int := FS.ExpOf(f, a);
    var aMant := FS.MantOf(f, a);
    FS.SignanIsSignaling(f, a);
    FS.ExpMaskPositive(f);
    FS.Fields(f, a);
    if aExp == f.ExpMask() {
      FS.InfBits(f);
      if aMant != 0 {
        return FS.QNaN(f), if FS.IsSignanSf(f, a) then fl0 + {InvalidOp} else fl0, 0, OnGrid;
      } else if aSign {
        return FS.QNaN(f), fl0 + {InvalidOp}, 0, OnGrid;
      } else {
        return a, fl0, 0, OnGrid;
      }
    }
    if aSign {
      if aExp == 0 && aMant == 0 {
        ZeroRoot(f, a, rm);
        return a, fl0, 0, OnGrid;
      }
      return FS.QNaN(f), fl0 + {InvalidOp}, 0, OnGrid;
    }
    if aExp == 0 {
      if aMant == 0 {
        ZeroRoot(f, a, rm);
        FS.PackedConstants(f, false);
        return Pack(f, false, 0, 0), fl0, 0, OnGrid;
      }
      aExp, aMant := NormalizeSubnormalSf(f, aMant, a);
    } else {
      UnpackNormal(f, a);
      aMant := aMant + Pow2(f.msize);
    }
    r, fl, lo, pos := SqrtFinite(f, a, aExp, aMant, rm, fl0);
    AtMost(f, a);
    if RootsNormal(f) {
      RootPicked(f, rm, FS.Value(f, a), lo, pos, r);
    }
  }

  /** The integer root of an operand with exponent field `e`: `m` is the root of the radicand `v` with its sticky
      bit. */
  ghost predicate RootWords(f: Fmt, a: nat, e: int, m: nat, half: int, sig: nat, v: nat, s: nat)
  {
    Pow2(f.msize) <= sig < 4 * Pow2(f.msize) && Mag(f, FS.BitsOf(f, a)) == sig as real * P2(2 * half - f.msize) &&
    e == half + f.Bias() && v == (sig * Pow2(f.esize - 3)) * Pow2(f.Size()) && s * s <= v < (s + 1) * (s + 1) &&
    m == OrBit(s, s * s != v) && Pow2(f.Size() - 2) <= m < Pow2(f.Size() - 1)
  }

  /** Evens out the exponent and takes the integer root. */
  method RootOf(f: Fmt, ghost a: nat, aExp0: int, aMant0: nat)
    returns (aExp: int, aMant: nat, ghost half: int, ghost sig: nat, ghost v: nat, ghost s: nat)
    requires Unpacked(f, a, aMant0, aExp0) && 1 - f.msize <= aExp0 < f.ExpMask()
    ensures RootWords(f, a, aExp, aMant, half, sig, v, s)
    ensures RootsNormal(f) ==> 1 <= aExp && aExp + 1 < f.ExpMask()
  {
    hide Pow2, P2, Mag, Unpacked, Shl, OrBit, FS.BitsOf, RootWords, Format.UnitExp, Format.Bias, Format.ExpMask;
    aExp, aMant := aExp0, aMant0;
    HalfMask(f);
    ExponentRange(f, aExp0);
    aExp := aExp - f.ExpMask() / 2;
    if aExp % 2 != 0 {
      aExp := aExp - 1;
      aMant := Shl(f, aMant, 1);
    }
    EvenExponent(f, a, aMant0, aExp0, aMant, aExp);
    half, sig := aExp / 2, aMant;
    aExp := aExp / 2 + f.ExpMask() / 2;
    aMant := Shl(f, aMant, f.Size() - 4 - f.msize);
    RadicandFits(f, sig);
    var inexact;
    aMant, inexact, v, s := RootWithSticky(f, aMant, sig);
    RootWordsAre(f, a, aExp, aMant, half, sig, v, s);
  }

  /** The integer root with the remainder in its last bit. */
  method RootWithSticky(f: Fmt, radicand: nat, ghost sig: nat)
    returns (m: nat, inexact: bool, ghost v: nat, ghost s: nat)
    requires Pow2(f.msize) <= sig < 4 * Pow2(f.msize) && radicand == sig * Pow2(f.esize - 3) < Pow2(f.Size() - 2)
    ensures v == radicand * Pow2(f.Size()) && s * s <= v < (s + 1) * (s + 1)
    ensures m == OrBit(s, s * s != v) && Pow2(f.Size() - 2) <= m < Pow2(f.Size() - 1)
  {
    hide Pow2, OrBit, LowGuess, SumWraps, FirstGuess;
    v := radicand * Pow2(f.Size());
    var root;
    Pow2Mono(f.Size() - 2, f.Size());
    LowWordZero(f, radicand);
    root, inexact := SqrtremU(f, radicand, 0);
    s := root;
    m := OrBit(root, inexact);
    RootRange(f, sig, v, s);
    Pow2Succ(f.Size() - 2);
    StaysBelow(s, inexact, Pow2(f.Size() - 1));
  }

  lemma RootWordsAre(f: Fmt, a: nat, e: int, m: nat, half: int, sig: nat, v: nat, s: nat)
    requires Pow2(f.msize) <= sig < 4 * Pow2(f.msize) && Mag(f, FS.BitsOf(f, a)) == sig as real * P2(2 * half - f.msize)
    requires e == half + f.Bias() && v == (sig * Pow2(f.esize - 3)) * Pow2(f.Size()) && s * s <= v < (s + 1) * (s + 1)
    requires m == OrBit(s, s * s != v) && Pow2(f.Size() - 2) <= m < Pow2(f.Size() - 1)
    ensures RootWords(f, a, e, m, half, sig, v, s)
  {
  }

  /** The exponent field of a root is that of a normal number, far from overflow. */
  lemma ExponentRange(f: Fmt, e0: int)
    requires 1 - f.msize <= e0 < f.ExpMask()
    ensures var t := e0 - f.Bias();
            var e := (if t % 2 != 0 then t - 1 else t) / 2 + f.Bias();
            RootsNormal(f) ==> 1 <= e && e + 1 < f.ExpMask()
  {
    assert f.ExpMask() == 2 * f.Bias() + 1 by {
      Pow2Succ(f.esize - 1);
    }
    hide Pow2, Format.Bias, Format.ExpMask;
  }

  /** The root of a positive finite operand, unpacked. */
  method SqrtFinite(f: Fmt, ghost a: nat, aExp0: int, aMant0: nat, rm: Mode, fl0: set<Flag>)
    returns (r: nat, fl: set<Flag>, ghost lo: nat, ghost pos: Position)
    requires Unpacked(f, a, aMant0, aExp0) && !FS.SignOf(f, a) && 1 - f.msize <= aExp0 < f.ExpMask()
    ensures forall root :: FS.IsRoot(f, a, root) ==>
      r == FS.RoundExact(f, rm, root, false).bits && fl == fl0 + FS.RoundExact(f, rm, root, false).raised
    ensures RootsNormal(f) ==>
      RootAt(f, FS.Value(f, a), lo, pos) && r == Pick(rm, false, lo, pos) && fl == fl0 + Flagged(pos)
  {
    hide Jam, Pow2, P2, Mag, Faithful, IeeeBits, RoundFlags, Unpacked, FS.SignOf, FS.RoundExact, FS.IsRoot, FS.Value,
      RootWords, RootAt, Pick, RootsNormal, Format.UnitExp, Format.ExpMask;
    var aExp, aMant;
    ghost var half, sig, v, s;
    aExp, aMant, half, sig, v, s := RootOf(f, a, aExp0, aMant0);
    ghost var z := aMant as real;
    ghost var x := z * P2(aExp - 1 - f.RndSize() + f.UnitExp());
    RootWordReady(f, a, aExp, aMant, half, sig, v, s, x);
    r, fl := NormalizeSf(f, false, aExp, aMant, rm, fl0, z, 1, x);
    forall root | FS.IsRoot(f, a, root)
      ensures r == FS.RoundExact(f, rm, root, false).bits && fl == fl0 + FS.RoundExact(f, rm, root, false).raised
    {
      RootOutcome(f, a, sig, half, aExp, rm, v, s, aMant, x, root);
    }
    lo, pos := 0, OnGrid;
    if RootsNormal(f) {
      lo, pos := RootPlaced(f, a, sig, half, aExp, rm, v, s, aMant, x);
    }
  }

  lemma RootWordReady(f: Fmt, a: nat, e: int, m: nat, half: int, sig: nat, v: nat, s: nat, x: real)
    requires RootWords(f, a, e, m, half, sig, v, s) && x == m as real * P2(e - 1 - f.RndSize() + f.UnitExp())
    ensures m < Pow2(f.Size() - 1) && Faithful(f, m as real, m, 1) && x >= 0.0
  {
    hide Pow2, P2, Mag, OrBit, Faithful, FS.BitsOf, Format.UnitExp, Format.Bias;
    ExactIsFaithful(f, m, 1);
    ProductMono(0.0, m as real, 0.0, P2(e - 1 - f.RndSize() + f.UnitExp()));
  }

  lemma RootPlaced(f: Fmt, a: nat, sig: nat, half: int, e: int, rm: Mode, v: nat, s: nat, m: nat, x: real)
    returns (lo: nat, pos: Position)
    requires RootWords(f, a, e, m, half, sig, v, s) && !FS.SignOf(f, a) && 1 <= e && e + 1 < f.ExpMask()
    requires x == m as real * P2(e - 1 - f.RndSize() + f.UnitExp()) && x >= 0.0
    ensures RootAt(f, FS.Value(f, a), lo, pos)
    ensures IeeeBits(f, rm, false, x) == Pick(rm, false, lo, pos) && RoundFlags(f, rm, false, x) == Flagged(pos)
  {
    hide Pow2, P2, Mag, OrBit, IeeeBits, RoundFlags, RootAt, Pick, Square, FS.SignOf, FS.BitsOf, Format.Bias,
      Format.ExpMask;
    var c := P2(e - 1 - f.RndSize() + f.UnitExp());
    assert c == P2(half - f.Size() + 2);
    OperandIs(f, sig, half, v);
    assert FS.Value(f, a) == Times(v as real, Square(c));
    lo, pos := Placed(f, rm, e, m, v, s, c, x);
  }

  lemma StaysBelow(s: nat, b: bool, n: nat)
    requires s < n && n % 2 == 0
    ensures OrBit(s, b) < n
  {
  }

  lemma ExactIsFaithful(f: Fmt, m: nat, j: nat)
    ensures Faithful(f, m as real, m, j)
  {
  }

  lemma HalfMask(f: Fmt)
    ensures f.ExpMask() / 2 == f.Bias()
  {
    Pow2Succ(f.esize - 1);
  }

  /** After evening out the exponent, the operand is `sig` times a square power of two, scaled by the significand
      width. */
  lemma EvenExponent(f: Fmt, a: nat, sig0: nat, e0: int, sig: nat, e: int)
    requires Unpacked(f, a, sig0, e0)
    requires var t := e0 - f.Bias(); if t % 2 != 0 then e == t - 1 && sig == Shl(f, sig0, 1) else e == t && sig == sig0
    ensures e % 2 == 0 && Pow2(f.msize) <= sig < 4 * Pow2(f.msize)
    ensures Mag(f, FS.BitsOf(f, a)) == sig as real * P2(e - f.msize)
  {
    hide Pow2, P2, Mag, Shl, FS.BitsOf, Format.Bias;
    var t := e0 - f.Bias();
    assert e0 - 1 + f.UnitExp() == t - f.msize;
    if t % 2 != 0 {
      ShiftedSig(f, sig0, 1);
      Pow2Succ(0);
      P2Succ(t - 1 - f.msize);
      DoubleMove(sig0 as real, P2(t - 1 - f.msize));
    }
  }

  lemma RadicandFits(f: Fmt, sig: nat)
    requires Pow2(f.msize) <= sig < 4 * Pow2(f.msize)
    ensures f.Size() - 4 - f.msize == f.esize - 3
    ensures Shl(f, sig, f.esize - 3) == sig * Pow2(f.esize - 3) < Pow2(f.Size() - 2)
  {
    hide Pow2, Shl;
    var k := f.esize - 3;
    Pow2Add(f.msize + 2, k);
    Pow2Succ(f.msize);
    Pow2Succ(f.msize + 1);
    MulOrder(sig, 4 * Pow2(f.msize), Pow2(k));
    Pow2Mono(f.Size() - 2, f.Size());
    ShlExact(f, sig, k);
  }

  lemma RootOutcome(f: Fmt, a: nat, sig: nat, half: int, aExp: int, rm: Mode, v: nat, s: nat, m: nat, x: real,
                    root: real)
    requires !FS.SignOf(f, a) && FS.IsRoot(f, a, root) && RootWords(f, a, aExp, m, half, sig, v, s)
    requires x == m as real * P2(aExp - 1 - f.RndSize() + f.UnitExp()) && x >= 0.0
    ensures FS.RoundExact(f, rm, root, false) == FS.Outcome(IeeeBits(f, rm, false, x), RoundFlags(f, rm, false, x))
  {
    hide Jam, Pow2, P2, Mag, Faithful, IeeeBits, RoundFlags, OrBit, FS.SignOf, FS.BitsOf, Format.Bias;
    var k := aExp - 1 - f.RndSize() + f.UnitExp();
    var z := root * P2(f.Size() - 2 - half);
    assert k == half - f.Size() + 2;
    RootScaled(f, sig, half, root, z, v);
    ProductMono(0.0, root, 0.0, P2(f.Size() - 2 - half));
    RootWord(f, sig, v, s, z);
    ExactIsFaithful(f, m, 1);
    Determined(f, rm, false, aExp, m, 1, m as real, x, z, root);
  }

  lemma ZeroRoot(f: Fmt, a: nat, rm: Mode)
    requires FS.IsWord(f, a) && FS.IsZero(f, a)
    ensures SignBit(f, FS.SignOf(f, a)) == a
    ensures forall root :: FS.IsRoot(f, a, root) ==>
      FS.RoundExact(f, rm, root, FS.SignOf(f, a)) == FS.Outcome(a, {})
  {
    hide Pow2, Mag, IeeeBits, RoundFlags, SignBit, FS.SignOf, FS.BitsOf, FS.ExpOf, FS.MantOf;
    FS.Fields(f, a);
    FS.FiniteValue(f, a);
    ZeroOutcome(f, rm, FS.SignOf(f, a));
    forall root | FS.IsRoot(f, a, root)
      ensures FS.RoundExact(f, rm, root, FS.SignOf(f, a)) == FS.Outcome(a, {})
    {
      if root > 0.0 {
        SquareLess(0.0, root);
      }
    }
  }
}
