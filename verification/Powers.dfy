/** Powers of two, over the naturals (machine words) and over the reals (binary scales). */
module Powers {

  /** Two to the power `k`, by repeated doubling. */
  function Doubled(k: nat): (r: nat)
    ensures r >= 1
    ensures k >= 1 ==> r % 2 == 0
  {
    if k == 0 then 1 else 2 * Doubled(k - 1)
  }

  /** The name under which `Doubled` is used: not recursive itself, so that hiding it hides everything. */
  function Pow2(k: nat): (r: nat)
    ensures r >= 1
    ensures k >= 1 ==> r % 2 == 0
  {
    Doubled(k)
  }

  lemma Pow2Succ(k: nat)
    ensures Pow2(k + 1) == 2 * Pow2(k)
    ensures Pow2(0) == 1
  {
  }

  lemma {:induction false} Pow2Add(a: nat, b: nat)
    ensures Pow2(a + b) == Pow2(a) * Pow2(b)
  {
    hide Pow2;
    Pow2Succ(0);
    if a > 0 {
      Pow2Add(a - 1, b);
      Pow2Succ(a - 1 + b);
      Pow2Succ(a - 1);
      DoubleProduct(Pow2(a - 1), Pow2(b));
    }
  }

  lemma DoubleProduct(x: int, y: int)
    ensures (2 * x) * y == 2 * (x * y)
  {
  }

  lemma {:induction false} Pow2Mono(a: nat, b: nat)
    requires a <= b
    ensures Pow2(a) <= Pow2(b)
    ensures a < b ==> 2 * Pow2(a) <= Pow2(b)
  {
    if a < b {
      Pow2Mono(a, b - 1);
      Pow2Succ(b - 1);
    }
  }

  /** The number of significant bits of `a`. */
  function BitLen(a: nat): (n: nat)
    ensures a == 0 <==> n == 0
  {
    if a == 0 then 0 else 1 + BitLen(a / 2)
  }

  lemma {:induction false} BitLenBounds(a: nat)
    requires a > 0
    ensures Pow2(BitLen(a) - 1) <= a < Pow2(BitLen(a))
  {
    if a > 1 {
      BitLenBounds(a / 2);
    }
  }

  lemma BitLenAtMost(a: nat, k: nat)
    requires a < Pow2(k)
    ensures BitLen(a) <= k
  {
    if a > 0 {
      BitLenBounds(a);
      if k <= BitLen(a) - 1 {
        Pow2Mono(k, BitLen(a) - 1);
      }
    }
  }

  lemma BitLenAtLeast(a: nat, k: nat)
    requires Pow2(k) <= a
    ensures BitLen(a) > k
  {
    BitLenBounds(a);
    if BitLen(a) <= k {
      Pow2Mono(BitLen(a), k);
    }
  }

  ghost function Scaled(e: int): (r: real)
    ensures r > 0.0
    decreases if e >= 0 then e else -e
  {
    if e == 0 then 1.0 else if e > 0 then 2.0 * Scaled(e - 1) else Scaled(e + 1) / 2.0
  }

  /** Two to an arbitrary integer power, as a real. */
  ghost function P2(e: int): (r: real)
    ensures r > 0.0
  {
    Scaled(e)
  }

  lemma P2Succ(e: int)
    ensures P2(e + 1) == 2.0 * P2(e)
  {
  }

  lemma ScaleProduct(x: real, y: real, z: real)
    requires z == 2.0 * y
    ensures x * z == 2.0 * (x * y)
  {
  }

  lemma {:induction false} P2Add(a: int, b: int)
    ensures P2(a + b) == P2(a) * P2(b)
    decreases if b >= 0 then b else -b
  {
    hide P2;
    if b > 0 {
      P2Add(a, b - 1);
      P2Succ(a + (b - 1));
      P2Succ(b - 1);
      ScaleProduct(P2(a), P2(b - 1), P2(b));
    } else if b < 0 {
      P2Add(a, b + 1);
      P2Succ(a + b);
      P2Succ(b);
      ScaleProduct(P2(a), P2(b), P2(b + 1));
    } else {
      P2Nat(0);
    }
  }

  lemma {:induction false} P2Nat(k: nat)
    ensures P2(k) == Pow2(k) as real
    ensures k == 0 ==> P2(k) == 1.0
  {
    if k > 0 {
      P2Nat(k - 1);
    }
  }

  lemma {:induction false} P2Mono(a: int, b: int)
    requires a <= b
    ensures P2(a) <= P2(b)
    decreases b - a
  {
    if a < b {
      P2Mono(a, b - 1);
      P2Succ(b - 1);
    }
  }
}
