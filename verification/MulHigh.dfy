/** The high word of a 64-bit product, as the interpreter computes it without 128-bit integers (RISC-V
    Unprivileged ISA 20191213, section 7.1). */
module MulHigh {
  import opened Sticky
  import W = WideWords

  predicate IsWord(x: int) { 0 <= x < 0x1_0000_0000_0000_0000 }

  predicate IsSigned(x: int) { -0x8000_0000_0000_0000 <= x < 0x8000_0000_0000_0000 }

  /** A number modulo 2^64. */
  function Word(x: int): (w: int)
    ensures IsWord(w)
  {
    x % 0x1_0000_0000_0000_0000
  }

  /** Bits 64 to 127 of a product, in two's complement. */
  function High(p: int): (w: int)
    ensures IsWord(w)
  {
    Word(p / 0x1_0000_0000_0000_0000)
  }

  method Mulhu(a: int, b: int) returns (r: int)
    requires IsWord(a) && IsWord(b)
    ensures r == High(a * b)
  {
    var hi, lo := W.MulHalves(0x1_0000_0000, a, b);
    DivModUnique(a * b, 0x1_0000_0000_0000_0000, hi, lo);
    DivModUnique(hi, 0x1_0000_0000_0000_0000, 0, hi);
    r := hi;
  }

  /** A signed operand as the unsigned one with the same bits. */
  lemma Unsigned(a: int)
    requires IsSigned(a)
    ensures Word(a) == if a < 0 then a + 0x1_0000_0000_0000_0000 else a
  {
    DivModUnique(a, 0x1_0000_0000_0000_0000, if a < 0 then -1 else 0, if a < 0 then a + 0x1_0000_0000_0000_0000 else a);
  }

  /** Adding multiples of 2^64 to a product adds to its high word. */
  lemma HighShift(p: int, k: int)
    ensures High(p + k * 0x1_0000_0000_0000_0000) == Word(High(p) + k)
  {
    var q, r := p / 0x1_0000_0000_0000_0000, p % 0x1_0000_0000_0000_0000;
    DivModIs(p, 0x1_0000_0000_0000_0000);
    DivModUnique(p + k * 0x1_0000_0000_0000_0000, 0x1_0000_0000_0000_0000, q + k, r);
    WordAdd(q, k);
  }

  lemma WordAdd(q: int, k: int)
    ensures Word(Word(q) + k) == Word(q + k)
  {
    DivModIs(q, 0x1_0000_0000_0000_0000);
    var d := q / 0x1_0000_0000_0000_0000;
    DivModIs(q + k, 0x1_0000_0000_0000_0000);
    DivModUnique(Word(q) + k, 0x1_0000_0000_0000_0000, (q + k) / 0x1_0000_0000_0000_0000 - d, Word(q + k));
  }

  /** The unsigned product of the bits, and what it exceeds the signed one by. */
  lemma SignedProduct(a: int, b: int)
    requires IsSigned(a) && IsSigned(b)
    ensures High(Word(a) * Word(b)) == Word(High(a * b) + (if a < 0 then b else 0) + (if b < 0 then a else 0))
  {
    Unsigned(a);
    Unsigned(b);
    var s, t := if a < 0 then 1 else 0, if b < 0 then 1 else 0;
    var k := s * b + t * a + s * t * 0x1_0000_0000_0000_0000;
    Products(a, b, s, t, 0x1_0000_0000_0000_0000);
    HighShift(a * b, k);
    var h := High(a * b) + s * b + t * a;
    WordMultiple(h, s * t);
  }

  lemma Products(a: int, b: int, s: int, t: int, m: int)
    ensures (a + s * m) * (b + t * m) == a * b + (s * b + t * a + s * t * m) * m
  {
  }

  lemma WordMultiple(h: int, k: int)
    ensures Word(h + k * 0x1_0000_0000_0000_0000) == Word(h)
  {
    DivModIs(h, 0x1_0000_0000_0000_0000);
    DivModUnique(h + k * 0x1_0000_0000_0000_0000, 0x1_0000_0000_0000_0000, h / 0x1_0000_0000_0000_0000 + k,
                 h % 0x1_0000_0000_0000_0000);
  }

  lemma MixedProduct(a: int, b: int)
    requires IsSigned(a) && IsWord(b)
    ensures High(Word(a) * b) == Word(High(a * b) + (if a < 0 then b else 0))
  {
    Unsigned(a);
    var s := if a < 0 then 1 else 0;
    Products(a, b, s, 0, 0x1_0000_0000_0000_0000);
    HighShift(a * b, s * b);
  }

  /** Equality modulo 2^64 of words. */
  lemma WordEqual(x: int, y: int)
    ensures Word(x) == Word(y) <==> Word(x - y) == 0
  {
    DivModIs(x, 0x1_0000_0000_0000_0000);
    DivModIs(y, 0x1_0000_0000_0000_0000);
    DivModIs(x - y, 0x1_0000_0000_0000_0000);
    var p, q := x / 0x1_0000_0000_0000_0000, y / 0x1_0000_0000_0000_0000;
    if Word(x) == Word(y) {
      DivModUnique(x - y, 0x1_0000_0000_0000_0000, p - q, 0);
    } else {
      var d := Word(x) - Word(y);
      if d > 0 {
        DivModUnique(x - y, 0x1_0000_0000_0000_0000, p - q, d);
      } else {
        DivModUnique(x - y, 0x1_0000_0000_0000_0000, p - q - 1, d + 0x1_0000_0000_0000_0000);
      }
    }
  }

  /** Subtracting twice modulo 2^64. */
  lemma SubtractTwo(u: int, a: int, b: int)
    ensures Word(Word(u - a) - b) == Word(u - (a + b))
  {
    WordAdd(u - a, -b);
  }

  /** The signed form as written subtracts each negative operand, where the other operand would be due. It is
      right exactly if the signs agree. */
  method Mulh(a: int, b: int) returns (r: int)
    requires IsSigned(a) && IsSigned(b)
    ensures r == Word(High(a * b) + (if a < 0 then b - a else 0) + (if b < 0 then a - b else 0))
    ensures r == High(a * b) <==> (a < 0 <==> b < 0)
  {
    SignedSlip(a, b);
    hide Word, High;
    r := Mulhu(Word(a), Word(b));
    r := SubtractNegatives(r, a, b);
  }

  method SubtractNegatives(u: int, a: int, b: int) returns (r: int)
    requires Word(u) == u
    ensures r == Word(u - ((if a < 0 then a else 0) + (if b < 0 then b else 0)))
  {
    hide Word;
    SubtractTwo(u, a, b);
    r := u;
    if a < 0 {
      r := Word(r - a);
    }
    if b < 0 {
      r := Word(r - b);
    }
  }

  /** What is left after subtracting each negative operand from the unsigned high word. */
  lemma SignedSlip(a: int, b: int)
    requires IsSigned(a) && IsSigned(b)
    ensures var h, u := High(a * b), High(Word(a) * Word(b));
            var x := (if a < 0 then a else 0) + (if b < 0 then b else 0);
            var z := h + (if a < 0 then b - a else 0) + (if b < 0 then a - b else 0);
            Word(u) == u && Word(u - x) == Word(z) && (Word(z) == h <==> (a < 0 <==> b < 0))
  {
    var h, u := High(a * b), High(Word(a) * Word(b));
    var x := (if a < 0 then a else 0) + (if b < 0 then b else 0);
    var y := (if a < 0 then b else 0) + (if b < 0 then a else 0);
    SignedProduct(a, b);
    WordIs(u);
    WordIs(h);
    WordSmall(y - x);
    hide Word, High;
    WordAdd(h + y, -x);
    WordEqual(h + y - x, h);
  }

  lemma WordIs(u: int)
    requires IsWord(u)
    ensures Word(u) == u
  {
  }

  lemma WordSmall(d: int)
    requires -0x1_0000_0000_0000_0000 < d < 0x1_0000_0000_0000_0000
    ensures Word(d) == 0 <==> d == 0
  {
    if d < 0 {
      DivModUnique(d, 0x1_0000_0000_0000_0000, -1, d + 0x1_0000_0000_0000_0000);
    }
  }

  /** The mixed form has the same slip: right exactly if the signed operand is not negative, or its bits happen
      to equal the unsigned operand. */
  method Mulhsu(a: int, b: int) returns (r: int)
    requires IsSigned(a) && IsWord(b)
    ensures r == Word(High(a * b) + (if a < 0 then b - a else 0))
    ensures r == High(a * b) <==> a >= 0 || b == a + 0x1_0000_0000_0000_0000
  {
    ghost var h, u := High(a * b), High(Word(a) * b);
    MixedProduct(a, b);
    WordAdd(h + b, -a);
    WordIs(h);
    WordEqual(h + b - a, h);
    if a < 0 {
      MixedSlip(a, b);
    }
    hide Word, High;
    r := Mulhu(Word(a), b);
    if a < 0 {
      r := Word(r - a);
    }
  }

  lemma MixedSlip(a: int, b: int)
    requires IsSigned(a) && IsWord(b) && a < 0
    ensures Word(b - a) == 0 <==> b == a + 0x1_0000_0000_0000_0000
  {
    var d := b - a;
    if d < 0x1_0000_0000_0000_0000 {
      DivModUnique(d, 0x1_0000_0000_0000_0000, 0, d);
    } else {
      DivModUnique(d, 0x1_0000_0000_0000_0000, 1, d - 0x1_0000_0000_0000_0000);
    }
  }

  /** -1 times 1: the high word is all ones, and the code computes 1. */
  method MulhSlip() returns (r: int)
    ensures r == 1 && High(-1 * 1) == 0xFFFF_FFFF_FFFF_FFFF
  {
    r := Mulh(-1, 1);
  }

  /** The same operands, the second unsigned. */
  method MulhsuSlip() returns (r: int)
    ensures r == 1 && High(-1 * 1) == 0xFFFF_FFFF_FFFF_FFFF
  {
    r := Mulhsu(-1, 1);
  }
}
