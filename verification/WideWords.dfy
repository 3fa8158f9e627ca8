/** Double-width multiplication from half words. */
module WideWords {
  import opened Sticky

  /** The high and low words of a product, from the four products of half words; `h` is the half-word base. */
  method MulHalves(h: nat, a: nat, b: nat) returns (hi: nat, lo: nat)
    requires h > 0 && a < h * h && b < h * h
    ensures hi * (h * h) + lo == a * b
    ensures lo < h * h && hi < h * h
  {
    hide Quot, Rem;
    var a0, a1 := Rem(a, h), Quot(a, h);
    var b0, b1 := Rem(b, h), Quot(b, h);
    var r00, r01, r10, r11 := a0 * b0, a0 * b1, a1 * b0, a1 * b1;
    var r0 := Rem(r00, h);
    var c := Quot(r00, h) + Rem(r01, h) + Rem(r10, h);
    var r1 := Rem(c, h);
    ghost var c1 := c;
    c := Quot(c, h) + Quot(r01, h) + Quot(r10, h) + Rem(r11, h);
    var r2 := Rem(c, h);
    var r3 := Rem(Quot(c, h) + Quot(r11, h), h);
    lo := r1 * h + r0;
    hi := r3 * h + r2;
    PartialProducts(h, a, b, r00, r01, r10, r11, c1, c);
    TopHalfFits(h, a, b, Quot(c, h) + Quot(r11, h), r2, lo);
    QuotRemUnique(Quot(c, h) + Quot(r11, h), h, 0, Quot(c, h) + Quot(r11, h));
    HalvesFit(h, r1, r0);
    HalvesFit(h, r3, r2);
    Cubes(h, r3, r2);
  }

  lemma HalvesFit(h: nat, x: nat, y: nat)
    requires x < h && y < h
    ensures x * h + y < h * h
  {
    MulOrder(x + 1, h, h);
    assert (x + 1) * h == x * h + h;
  }

  lemma Cubes(h: nat, x: nat, y: nat)
    ensures (x * h + y) * (h * h) == x * (h * h * h) + y * (h * h)
  {
    assert (x * h) * (h * h) == x * (h * h * h);
  }

  lemma PartialProducts(h: nat, a: nat, b: nat, r00: nat, r01: nat, r10: nat, r11: nat, c1: nat, c2: nat)
    requires h > 0
    requires r00 == Rem(a, h) * Rem(b, h) && r01 == Rem(a, h) * Quot(b, h)
    requires r10 == Quot(a, h) * Rem(b, h) && r11 == Quot(a, h) * Quot(b, h)
    requires c1 == Quot(r00, h) + Rem(r01, h) + Rem(r10, h)
    requires c2 == Quot(c1, h) + Quot(r01, h) + Quot(r10, h) + Rem(r11, h)
    ensures a * b == (Quot(c2, h) + Quot(r11, h)) * (h * h * h) + Rem(c2, h) * (h * h) + Rem(c1, h) * h + Rem(r00, h)
  {
    hide Quot, Rem;
    QuotRem(a, h);
    QuotRem(b, h);
    FourProducts(h, Quot(a, h), Rem(a, h), Quot(b, h), Rem(b, h));
    QuotRem(r00, h);
    QuotRem(r01, h);
    QuotRem(r10, h);
    QuotRem(r11, h);
    QuotRem(c1, h);
    QuotRem(c2, h);
    Carries(h, Quot(r00, h), Rem(r00, h), Quot(r01, h), Rem(r01, h), Quot(r10, h), Rem(r10, h), Quot(r11, h),
            Rem(r11, h), Quot(c1, h), Rem(c1, h), Quot(c2, h), Rem(c2, h));
  }

  lemma FourProducts(h: int, a1: int, a0: int, b1: int, b0: int)
    ensures (a1 * h + a0) * (b1 * h + b0) == (a1 * b1) * (h * h) + (a0 * b1 + a1 * b0) * h + a0 * b0
  {
    assert (a1 * h + a0) * (b1 * h + b0) == (a1 * h) * (b1 * h) + (a1 * h) * b0 + a0 * (b1 * h) + a0 * b0;
    assert (a1 * h) * (b1 * h) == (a1 * b1) * (h * h);
    assert (a1 * h) * b0 == (a1 * b0) * h;
    assert a0 * (b1 * h) == (a0 * b1) * h;
    assert (a0 * b1 + a1 * b0) * h == (a0 * b1) * h + (a1 * b0) * h;
  }

  lemma Carries(h: int, p00: int, q00: int, p01: int, q01: int, p10: int, q10: int, p11: int, q11: int,
                k1: int, s1: int, k2: int, s2: int)
    requires p00 + q01 + q10 == k1 * h + s1
    requires k1 + p01 + p10 + q11 == k2 * h + s2
    ensures (p11 * h + q11) * (h * h) + ((p01 * h + q01) + (p10 * h + q10)) * h + (p00 * h + q00)
            == (k2 + p11) * (h * h * h) + s2 * (h * h) + s1 * h + q00
  {
    var h2, h3 := h * h, h * h * h;
    assert (p11 * h + q11) * h2 == p11 * h3 + q11 * h2 by { Expand(p11, q11, h, h2, h3); }
    assert ((p01 * h + q01) + (p10 * h + q10)) * h == (p01 + p10) * h2 + (q01 + q10) * h by {
      ExpandTwo(p01, q01, p10, q10, h);
    }
    assert (p00 + q01 + q10) * h == k1 * h2 + s1 * h by { Expand(k1, s1, h, h, h2); }
    assert (k1 + p01 + p10 + q11) * h2 == k2 * h3 + s2 * h2 by { Expand(k2, s2, h, h2, h3); }
    Sums(p00, q01, q10, h);
    assert (k1 + p01 + p10 + q11) * h2 == k1 * h2 + (p01 + p10) * h2 + q11 * h2;
    assert (k2 + p11) * h3 == k2 * h3 + p11 * h3;
  }

  lemma Expand(p: int, q: int, h: int, c: int, hc: int)
    requires hc == h * c
    ensures (p * h + q) * c == p * hc + q * c
  {
    MulExchange(p, h, c);
    assert (p * h + q) * c == (p * h) * c + q * c;
  }

  lemma ExpandTwo(p: int, q: int, p': int, q': int, h: int)
    ensures ((p * h + q) + (p' * h + q')) * h == (p + p') * (h * h) + (q + q') * h
  {
    assert (p * h + q) + (p' * h + q') == (p + p') * h + (q + q');
    Expand(p + p', q + q', h, h, h * h);
  }

  lemma Sums(a: int, b: int, c: int, h: int)
    ensures (a + b + c) * h == a * h + (b + c) * h
  {
  }

  lemma TopHalfFits(h: nat, a: nat, b: nat, r3: nat, r2: nat, lo: nat)
    requires h > 0 && a < h * h && b < h * h
    requires a * b == r3 * (h * h * h) + r2 * (h * h) + lo
    ensures r3 < h
  {
    if r3 >= h {
      MulOrder(h, r3, h * h * h);
      assert h * (h * h * h) == (h * h) * (h * h);
      assert r2 * (h * h) >= 0;
      ProductBound(a, b, h * h);
    }
  }

  lemma ProductBound(a: nat, b: nat, n: nat)
    requires a < n && b < n
    ensures a * b < n * n
  {
    assert a * b <= a * n;
    MulOrder(a, n, n);
  }
}
