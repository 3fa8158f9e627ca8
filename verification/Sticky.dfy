/** Integer arithmetic with a sticky bit: when an integer stands for a real number
    that it does not equal, and what survives shifting, scaling, adding and subtracting. */
module Sticky {

  /** `m` stands for `x` up to multiples of `g`: it lies on the same multiple of `g` as `x`,
      or strictly inside the same gap between two neighbouring multiples. */
  ghost predicate Jam(x: real, m: nat, g: nat)
    requires g > 0
  {
    if m % g == 0 then x == m as real
    else (m - m % g) as real < x < (m - m % g + g) as real
  }

  /** The word with its lowest bit forced to one when `b` holds. */
  function OrBit(a: nat, b: bool): (r: nat)
    ensures r == a || r == a + 1
    ensures r == a + 1 <==> (b && a % 2 == 0)
    ensures b ==> r % 2 == 1
  {
    if b && a % 2 == 0 then a + 1 else a
  }

  lemma DivModIs(a: int, d: int)
    requires d > 0
    ensures a == (a / d) * d + a % d
    ensures 0 <= a % d < d
  {
  }

  /** Division and remainder by a symbolic power of two: a right shift and the bits it drops. */
  function Quot(a: nat, d: nat): (q: nat)
    requires d > 0
  {
    a / d
  }

  function Rem(a: nat, d: nat): (r: nat)
    requires d > 0
    ensures r < d
  {
    a % d
  }

  lemma QuotRem(a: nat, d: nat)
    requires d > 0
    ensures a == Quot(a, d) * d + Rem(a, d)
  {
  }

  lemma QuotRemUnique(a: nat, d: nat, q: nat, r: nat)
    requires r < d && a == q * d + r
    ensures Quot(a, d) == q && Rem(a, d) == r
  {
    DivModUnique(a, d, q, r);
  }

  lemma MulAtLeast(k: int, d: int)
    requires k >= 1 && d >= 0
    ensures k * d >= d
  {
  }

  lemma QuotientOrder(q: int, r: int, q': int, r': int, d: int)
    requires 0 <= r < d && 0 <= r' < d
    requires q * d + r == q' * d + r'
    ensures q <= q'
  {
    assert (q - q') * d == q * d - q' * d;
    if q > q' {
      MulAtLeast(q - q', d);
    }
  }

  lemma DivModUnique(a: int, d: int, q: int, r: int)
    requires 0 <= r < d
    requires a == q * d + r
    ensures a / d == q && a % d == r
  {
    DivModIs(a, d);
    QuotientOrder(q, r, a / d, a % d, d);
    QuotientOrder(a / d, a % d, q, r, d);
  }

  /** A jammed integer compares with every multiple of `g` exactly as the real it stands for. */
  lemma JamCompare(x: real, m: nat, g: nat, k: int)
    requires g > 0 && Jam(x, m, g)
    ensures (k * g) as real < x <==> k * g < m
    ensures (k * g) as real == x <==> k * g == m
  {
    var q := m / g;
    DivModIs(m, g);
    if k <= q {
      MulOrder(k, q, g);
    } else {
      MulOrder(q + 1, k, g);
      DistributeRight(q, 1, g);
    }
    CompareInGap(x, m, m - m % g, g, k * g);
  }

  lemma CompareInGap(x: real, m: nat, base: int, g: nat, t: int)
    requires base <= m < base + g && (t <= base || base + g <= t)
    requires if m == base then x == m as real else base as real < x < (base + g) as real
    ensures t as real < x <==> t < m
    ensures t as real == x <==> t == m
  {
  }

  /** Comparing alike with all multiples of `g` is what it means to be jammed. */
  lemma JamFromCompare(x: real, m: nat, g: nat)
    requires g > 0
    requires var k := m / g; (k * g) as real < x <==> k * g < m
    requires var k := m / g; (k * g) as real == x <==> k * g == m
    requires var k := m / g + 1; (k * g) as real > x
    ensures Jam(x, m, g)
  {
    DivModIs(m, g);
    assert (m / g + 1) * g == (m / g) * g + g;
  }

  lemma JamExact(m: nat, g: nat)
    requires g > 0
    ensures Jam(m as real, m, g)
  {
    DivModIs(m, g);
  }

  lemma JamCoarser(x: real, m: nat, g: nat, c: nat, g': nat)
    requires g > 0 && c > 0 && Jam(x, m, g) && g' == g * c
    ensures g' > 0 && Jam(x, m, g')
  {
    hide Jam;
    MulAtLeast(c, g);
    var k := m / g';
    DivModIs(m, g');
    MulExchange(k, c, g);
    MulExchange(k + 1, c, g);
    assert (k + 1) * g' == k * g' + g';
    JamCompare(x, m, g, k * c);
    JamCompare(x, m, g, (k + 1) * c);
    JamFromCompare(x, m, g');
  }

  lemma MulOrder(a: int, b: int, p: int)
    requires p > 0
    ensures a < b <==> a * p < b * p
    ensures a == b <==> a * p == b * p
    ensures a <= b <==> a * p <= b * p
  {
    assert (a - b) * p == a * p - b * p;
    if a < b {
      MulAtLeast(b - a, p);
    } else if a > b {
      MulAtLeast(a - b, p);
    }
  }

  lemma RealMulOrder(a: real, b: real, p: real)
    requires p > 0.0
    ensures a < b <==> a * p < b * p
    ensures a == b <==> a * p == b * p
    ensures a <= b <==> a * p <= b * p
  {
    if a < b {
      assert (b - a) * p > 0.0;
    } else if a > b {
      assert (a - b) * p > 0.0;
    }
  }

  /** A right shift that keeps a sticky bit orders even words as the unshifted word does. */
  lemma StickyShiftCompare(m: nat, p: nat, n: int)
    requires p > 0 && n % 2 == 0
    ensures n < OrBit(Quot(m, p), Rem(m, p) != 0) <==> n * p < m
    ensures n == OrBit(Quot(m, p), Rem(m, p) != 0) <==> n * p == m
  {
    var q, r := m / p, m % p;
    DivModIs(m, p);
    MulOrder(n, q, p);
    MulOrder(n, q + 1, p);
    assert (q + 1) * p == q * p + p;
  }

  /** Shifting right by a factor `p` with a sticky bit divides the granularity by `p`, down to an even one. */
  lemma JamShift(x: real, m: nat, g: nat, p: nat, y: real)
    requires g > 0 && g % 2 == 0 && p > 0 && g * p > 0 && Jam(x, m, g * p)
    requires y * p as real == x
    ensures Jam(y, OrBit(Quot(m, p), Rem(m, p) != 0), g)
  {
    hide Quot, Rem;
    var m' := OrBit(Quot(m, p), Rem(m, p) != 0);
    JamShiftAt(x, m, g, p, y, m' / g);
    JamShiftAt(x, m, g, p, y, m' / g + 1);
    DivModIs(m', g);
    assert (m' / g + 1) * g == (m' / g) * g + g;
    JamFromCompare(y, m', g);
  }

  lemma JamShiftAt(x: real, m: nat, g: nat, p: nat, y: real, k: int)
    requires g > 0 && g % 2 == 0 && p > 0 && g * p > 0 && Jam(x, m, g * p)
    requires y * p as real == x
    ensures var m' := OrBit(Quot(m, p), Rem(m, p) != 0); (k * g) as real < y <==> k * g < m'
    ensures var m' := OrBit(Quot(m, p), Rem(m, p) != 0); (k * g) as real == y <==> k * g == m'
  {
    hide Jam, OrBit, Quot, Rem;
    EvenMultiple(k, g);
    StickyShiftCompare(m, p, k * g);
    MulExchange(k, g, p);
    JamCompare(x, m, g * p, k);
    UnscaleCompare(x, m, p, y, k * g, OrBit(Quot(m, p), Rem(m, p) != 0));
  }

  lemma UnscaleCompare(x: real, m: int, p: nat, y: real, n: int, m': int)
    requires p > 0 && y * p as real == x
    requires (n < m' <==> n * p < m) && (n == m' <==> n * p == m)
    requires ((n * p) as real < x <==> n * p < m) && ((n * p) as real == x <==> n * p == m)
    ensures n as real < y <==> n < m'
    ensures n as real == y <==> n == m'
  {
    RealMulOrder(n as real, y, p as real);
    RealProduct(n, p);
  }

  lemma MulExchange(a: int, b: int, c: int)
    ensures (a * b) * c == (a * c) * b == a * (b * c)
  {
  }

  lemma RealProduct(a: int, b: int)
    ensures (a * b) as real == a as real * b as real
  {
  }

  lemma EvenMultiple(k: int, g: nat)
    requires g % 2 == 0
    ensures (k * g) % 2 == 0
  {
    var h := g / 2;
    assert g == 2 * h;
    assert k * g == 2 * (k * h);
  }

  lemma JamScale(x: real, m: nat, g: nat, p: nat, x': real, m': nat, g': nat)
    requires g > 0 && p > 0 && Jam(x, m, g)
    requires x' == x * p as real && m' == m * p && g' == g * p
    ensures g' > 0 && Jam(x', m', g')
  {
    var k, r := m / g, m % g;
    DivModIs(m, g);
    MulAtLeast(p, g);
    var lo, hi := k * g, k * g + g;
    ScaleOrder(x, p, x', lo);
    ScaleOrder(x, p, x', hi);
    ScaleOrder(x, p, x', m);
    hide Jam;
    MulOrder(r, g, p);
    MulOrder(0, r, p);
    MulExchange(k, g, p);
    ScaleSums(k * g, r, g, p);
    DivModUnique(m', g', k, r * p);
    JamFromCompare(x', m', g');
  }

  lemma ScaleSums(a: int, r: int, g: int, p: int)
    ensures (a + r) * p == a * p + r * p
    ensures (a + g) * p == a * p + g * p
  {
  }

  lemma ScaleOrder(x: real, p: nat, x': real, n: int)
    requires p > 0 && x' == x * p as real
    ensures n as real < x <==> (n * p) as real < x'
    ensures n as real == x <==> (n * p) as real == x'
    ensures n as real > x <==> (n * p) as real > x'
  {
    RealProduct(n, p);
    RealMulOrder(n as real, x, p as real);
    RealMulOrder(x, n as real, p as real);
  }

  lemma JamAdd(x: real, m: nat, g: nat, a: nat)
    requires g > 0 && a % g == 0 && Jam(x, m, g)
    ensures Jam(x + a as real, m + a, g)
  {
    DivModIs(m, g);
    DivModIs(a, g);
    assert m + a == (m / g + a / g) * g + m % g;
    DivModUnique(m + a, g, m / g + a / g, m % g);
  }

  lemma JamSub(x: real, m: nat, g: nat, a: nat)
    requires g > 0 && a % g == 0 && m <= a && Jam(x, m, g)
    ensures Jam(a as real - x, a - m, g)
  {
    DivModIs(m, g);
    DivModIs(a, g);
    if m % g == 0 {
      assert a - m == (a / g - m / g) * g;
      DivModUnique(a - m, g, a / g - m / g, 0);
    } else {
      assert a - m == (a / g - m / g - 1) * g + (g - m % g);
      DivModUnique(a - m, g, a / g - m / g - 1, g - m % g);
    }
  }

  /** A truncated real with a sticky bit for what was cut off. */
  lemma JamFloor(z: real, q: nat, sticky: bool)
    requires q as real <= z < (q + 1) as real
    requires z == q as real <==> !sticky
    ensures Jam(z, OrBit(q, sticky), 2)
  {
  }

  lemma DistributeRight(a: int, b: int, c: int)
    ensures (a + b) * c == a * c + b * c
  {
  }
}
