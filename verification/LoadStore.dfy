/** What loads and stores mean byte by byte, at every size and alignment. */
module LoadStore {
  import opened Options
  import opened PhysMem
  import opened PageWalk
  import opened Settled
  import opened MemAccess
  import Sticky

  /** The number with these base-256 digits, least significant first. */
  function Compose(bytes: seq<Byte>): nat { if bytes == [] then 0 else bytes[0] + 256 * Compose(bytes[1..]) }

  lemma {:induction false} ComposeLoad(m: Ram, l: Loc, bytes: seq<Byte>)
    requires forall i :: 0 <= i < |bytes| ==> bytes[i] == ByteAt(m, Shift(l, i))
    ensures Compose(bytes) == Load(m, l, |bytes|)
    decreases |bytes|
  {
    if bytes != [] {
      assert Shift(l, 0) == l;
      forall i | 0 <= i < |bytes[1..]|
        ensures bytes[1..][i] == ByteAt(m, Shift(Shift(l, 1), i))
      {
        assert Shift(Shift(l, 1), i) == Shift(l, i + 1);
      }
      ComposeLoad(m, Shift(l, 1), bytes[1..]);
    }
  }

  lemma {:induction false} ComposeAppend(x: seq<Byte>, y: seq<Byte>)
    ensures Compose(x + y) == Compose(x) + Pow256(|x|) * Compose(y)
  {
    if x == [] {
      assert x + y == y;
    } else {
      assert (x + y)[1..] == x[1..] + y;
      ComposeAppend(x[1..], y);
      OneMoreByte(x[0], Compose(x[1..]), Pow256(|x| - 1), Compose(y));
    }
  }

  /** Cutting whole bytes off either end of a word. */
  lemma WordHalves(m: Ram, l: Loc, al: nat, n: nat)
    requires al <= n
    ensures Sticky.Quot(Load(m, l, n), Pow256(al)) == Load(m, Shift(l, al), n - al)
    ensures Sticky.Rem(Load(m, l, n), Pow256(al)) == Load(m, l, al)
  {
    hide Load, Sticky.Quot, Sticky.Rem;
    LoadSplit(m, l, al, n - al);
    LoadBound(m, l, al);
    assert Pow256(al) * Load(m, Shift(l, al), n - al) == Load(m, Shift(l, al), n - al) * Pow256(al);
    Sticky.QuotRemUnique(Load(m, l, n), Pow256(al), Load(m, Shift(l, al), n - al), Load(m, l, al));
  }

  // ---- loads ----

  /** Where each byte of an aligned access lies. */
  lemma AlignedBytes(ranges: seq<Range>, m: Ram, g: Regime, a: nat, n: nat, access: Access, i: nat)
    requires WellMapped(ranges) && Proper(g) && IsSize(n) && a % n == 0 && a < TWO_64 && i < n
    requires Target1(ranges, m, g, a, access).Some?
    ensures a + i < TWO_64 && Target1(ranges, m, g, a + i, access) ==
            Some(Shift(Target1(ranges, m, g, a, access).value, i))
    ensures AfterWalk(ranges, m, g, a + i, access) == AfterWalk(ranges, m, g, a, access)
  {
    hide Translate, AfterWalk, Locate, Proper, WellMapped;
    AlignedRun(a, n, i);
    TranslatePage(ranges, m, g, a, a + i, access);
    var p, q := Translate(ranges, m, g, a, access).value, Translate(ranges, m, g, a + i, access).value;
    SamePage(a, a + i, p, q);
    LocatePage(ranges, p, q);
  }

  lemma AlignedRun(a: nat, n: nat, i: nat)
    requires IsSize(n) && a % n == 0 && i < n && a < TWO_64
    ensures a / 4096 == (a + i) / 4096 && a + n <= TWO_64
  {
    AlignedFits(a, n);
    Sticky.DivModUnique(a + i, 4096, a / 4096, a % 4096 + i);
  }

  /** Bytes of one aligned word, each found by its own translation. */
  lemma PartOfWord(ranges: seq<Range>, m: Ram, mem: Ram, g: Regime, a: nat, w: nat, o: nat, start: nat,
                   bytes: seq<Byte>)
    requires WellMapped(ranges) && Proper(g) && IsSize(w) && a % w == 0 && a < TWO_64 && o + |bytes| <= w &&
             start == a + o
    requires Target1(ranges, m, g, a, Read).Some?
    requires forall i :: 0 <= i < |bytes| ==>
               var l := Target1(ranges, m, g, Plus(start, i), Read); l.Some? ==> bytes[i] == ByteAt(mem, l.value)
    ensures forall i :: 0 <= i < |bytes| ==> Target1(ranges, m, g, Plus(start, i), Read).Some?
    ensures Compose(bytes) == Load(mem, Shift(Target1(ranges, m, g, a, Read).value, o), |bytes|)
  {
    hide Target1, Proper, WellMapped, Load, Compose;
    var l := Target1(ranges, m, g, a, Read).value;
    forall i | 0 <= i < |bytes|
      ensures Target1(ranges, m, g, Plus(start, i), Read).Some? && bytes[i] == ByteAt(mem, Shift(Shift(l, o), i))
    {
      AlignedBytes(ranges, m, g, a, w, Read, o + i);
      PlusFits(start, i);
      assert Shift(Shift(l, o), i) == Shift(l, o + i);
    }
    ComposeLoad(mem, Shift(l, o), bytes);
  }

  lemma PlusFits(a: nat, i: nat)
    requires a + i < TWO_64
    ensures Plus(a, i) == a + i
  {
  }

  /** The addresses of the (one or two) aligned words a load reads, and how many bytes come from the first. */
  function FirstWord(a: nat, n: nat): nat
    requires IsSize(n)
  {
    if n == 2 then a else a - a % n
  }

  function SecondWord(a: nat, n: nat): nat
    requires IsSize(n)
  {
    if n == 2 then Plus(a, 1) else Plus(a - a % n, n)
  }

  function FromFirst(a: nat, n: nat): (k: nat)
    requires IsSize(n)
    ensures k <= n
  {
    if n == 2 && a % 2 != 0 then 1 else n - a % n
  }

  /** Memory at the moment byte `i` is read: after the walk for its own word. */
  ghost function ReadIn(ranges: seq<Range>, m: Ram, g: Regime, a: nat, n: nat, i: nat): Ram
    requires IsSize(n)
  {
    var m1 := AfterWalk(ranges, m, g, FirstWord(a, n), Read);
    if i < FromFirst(a, n) then m1 else AfterWalk(ranges, m1, g, SecondWord(a, n), Read)
  }

  /** Byte `i` of a load: translated on its own, read at its moment. */
  ghost predicate IsByte(ranges: seq<Range>, m: Ram, g: Regime, a: nat, n: nat, i: nat, b: Byte)
    requires IsSize(n)
  {
    var l := Target1(ranges, m, g, Plus(a, i), Read);
    l.Some? && b == ByteAt(ReadIn(ranges, m, g, a, n, i), l.value)
  }

  lemma WordsApart(a: nat, n: nat)
    requires IsSize(n) && a % n != 0 && a < TWO_64
    ensures var w := if n == 2 then 1 else n;
            FirstWord(a, n) % w == 0 && SecondWord(a, n) % w == 0 && FirstWord(a, n) < TWO_64 &&
              SecondWord(a, n) < TWO_64
    ensures FirstWord(a, n) + (if n == 2 then 0 else a % n) == a
  {
    hide Plus;
    AlignedBase(a, n);
    PlusBound(a, 1);
    PlusBound(a - a % n, n);
  }

  lemma PlusBound(a: nat, i: nat)
    ensures Plus(a, i) < TWO_64
  {
  }

  /** Stepping over the first word's bytes leads to the second word. */
  lemma PlusPlus(a: nat, i: nat, j: nat)
    ensures Plus(a, i + j) == Plus(Plus(a, i), j)
  {
    var x, w := a + i, 0x1_0000_0000_0000_0000;
    Sticky.DivModUnique(x + j, w, x / w + (x % w + j) / w, (x % w + j) % w);
  }

  /** The two loads behind an unaligned one. */
  lemma TwoWords(ranges: seq<Range>, m: Ram, g: Regime, a: nat, n: nat) returns (l0: Loc, l1: Loc)
    requires WellMapped(ranges) && Proper(g) && IsSize(n) && a % n != 0 && a < TWO_64 &&
             LoadAny(ranges, m, g, a, n).0.Value?
    ensures Target1(ranges, m, g, FirstWord(a, n), Read) == Some(l0) &&
            Target1(ranges, m, g, SecondWord(a, n), Read) == Some(l1)
    ensures var w := if n == 2 then 1 else n;
            var m1 := AfterWalk(ranges, m, g, FirstWord(a, n), Read);
            var m2 := AfterWalk(ranges, m1, g, SecondWord(a, n), Read);
            LoadAny(ranges, m, g, a, n).0.v ==
              if n == 2 then Load(m1, l0, 1) + 256 * Load(m2, l1, 1)
                else Splice(Load(m1, l0, n), Load(m2, l1, n), a % n, n)
  {
    hide Translate, Locate, Proper, WellMapped, Load, AfterWalk, Plus, Splice;
    var a0, a1 := FirstWord(a, n), SecondWord(a, n);
    WalkKeepsTranslations(ranges, m, g, a0, Read, g, a1, Read);
    l0, l1 := Target1(ranges, m, g, a0, Read).value, Target1(ranges, m, g, a1, Read).value;
  }

  lemma LoadSpans(ranges: seq<Range>, m: Ram, g: Regime, a: nat, n: nat, bytes: seq<Byte>)
    requires WellMapped(ranges) && Proper(g) && IsSize(n) && a % n != 0 && a < TWO_64 &&
             LoadAny(ranges, m, g, a, n).0.Value?
    requires |bytes| == n && forall i :: 0 <= i < n ==>
               var l := Target1(ranges, m, g, Plus(a, i), Read);
               l.Some? ==> bytes[i] == ByteAt(ReadIn(ranges, m, g, a, n, i), l.value)
    ensures forall i :: 0 <= i < n ==> Target1(ranges, m, g, Plus(a, i), Read).Some?
    ensures LoadAny(ranges, m, g, a, n).0.v == Compose(bytes)
  {
    hide Target1, Proper, WellMapped, Load, Compose, AfterWalk, Plus, LoadAny, Splice;
    var a0, a1, k, al := FirstWord(a, n), SecondWord(a, n), FromFirst(a, n), if n == 2 then 0 else a % n;
    var w := if n == 2 then 1 else n;
    var m1 := AfterWalk(ranges, m, g, a0, Read);
    var m2 := AfterWalk(ranges, m1, g, a1, Read);
    var l0, l1 := TwoWords(ranges, m, g, a, n);
    WordsApart(a, n);
    PartOfWord(ranges, m, m1, g, a0, w, al, a, bytes[..k]);
    SecondIsNext(a, n);
    forall i | 0 <= i < |bytes[k..]|
      ensures Plus(a1, i) == Plus(a, k + i)
    {
      PlusPlus(a, k, i);
    }
    PartOfWord(ranges, m, m2, g, a1, w, 0, a1, bytes[k..]);
    forall i | 0 <= i < n
      ensures Target1(ranges, m, g, Plus(a, i), Read).Some?
    {
      if i >= k {
        assert Plus(a1, i - k) == Plus(a, k + (i - k));
      }
    }
    ComposeAppend(bytes[..k], bytes[k..]);
    assert bytes[..k] + bytes[k..] == bytes && Shift(l1, 0) == l1;
    SpansValue(m1, m2, l0, l1, a, n, al, k);
  }

  lemma SecondIsNext(a: nat, n: nat)
    requires IsSize(n) && a % n != 0
    ensures Plus(a, FromFirst(a, n)) == SecondWord(a, n)
  {
  }

  lemma SpansValue(m1: Ram, m2: Ram, l0: Loc, l1: Loc, a: nat, n: nat, al: nat, k: nat)
    requires IsSize(n) && a % n != 0 && al == (if n == 2 then 0 else a % n) && k == FromFirst(a, n)
    ensures Load(m1, Shift(l0, al), k) + Pow256(k) * Load(m2, l1, n - k) ==
              if n == 2 then Load(m1, l0, 1) + 256 * Load(m2, l1, 1)
                else Splice(Load(m1, l0, n), Load(m2, l1, n), a % n, n)
  {
    if n == 2 {
      assert Shift(l0, 0) == l0 && Pow256(1) == 256;
    } else {
      hide Load, Pow256, Sticky.Quot, Sticky.Rem;
      WordHalves(m1, l0, al, n);
      WordHalves(m2, l1, al, n);
      assert Pow256(k) * Load(m2, l1, al) == Load(m2, l1, al) * Pow256(k);
    }
  }

  /** A load returns the number made of its bytes, each translated on its own, in little-endian order. */
  lemma LoadComposes(ranges: seq<Range>, m: Ram, g: Regime, a: nat, n: nat, bytes: seq<Byte>)
    requires WellMapped(ranges) && Proper(g) && IsSize(n) && a < TWO_64 && LoadAny(ranges, m, g, a, n).0.Value?
    requires |bytes| == n && forall i :: 0 <= i < n ==>
               var l := Target1(ranges, m, g, Plus(a, i), Read);
               l.Some? ==> bytes[i] == ByteAt(ReadIn(ranges, m, g, a, n, i), l.value)
    ensures forall i :: 0 <= i < n ==> IsByte(ranges, m, g, a, n, i, bytes[i])
    ensures LoadAny(ranges, m, g, a, n).0.v == Compose(bytes)
  {
    hide Translate, Locate, Proper, WellMapped, Load, Compose, AfterWalk, Plus;
    if a % n == 0 {
      PartOfWord(ranges, m, AfterWalk(ranges, m, g, a, Read), g, a, n, 0, a, bytes);
      assert forall l :: Shift(l, 0) == l;
    } else {
      LoadSpans(ranges, m, g, a, n, bytes);
    }
  }
}
