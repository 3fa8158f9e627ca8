/** A store followed by a load of the same size at the same address returns what was stored. */
module StoreLoad {
  import opened Options
  import opened PhysMem
  import opened PageWalk
  import opened Settled
  import opened MemAccess
  import opened LoadStore
  import Sticky

  /** No walk under `g` reads byte `x`. */
  ghost predicate TableFree(ranges: seq<Range>, m: Ram, g: Regime, x: Loc)
  {
    forall v: nat :: !WalkReads(ranges, m, g, v, x)
  }

  // ---- which bytes walks read does not change ----

  lemma {:induction false} ReadsAfterUpdate(ranges: seq<Range>, m: Ram, at: nat, access: Access, table: nat, v: nat,
                                            k: nat, x: Loc)
    requires WellMapped(ranges) && at % 8 == 0 && table % 8 == 0 && Locate(ranges, at).Some?
    requires var pte := Read64(ranges, m, at); Present(pte) && Xwr(pte) != 0
    ensures var m' := Write64(ranges, m, at, Updated(Read64(ranges, m, at), access));
            Reads(ranges, m', table, v, k, x) <==> Reads(ranges, m, table, v, k, x)
    decreases k
  {
    hide Read64, Write64, Locate, Target, Slot, Updated, Present, Xwr, Grown, WellMapped, Inside;
    var pte, slot := Read64(ranges, m, at), Slot(table, v, k);
    var m' := Write64(ranges, m, at, Updated(pte, access));
    WordBound(ranges, m, at);
    UpdatedBound(pte, access);
    SlotAligned(table, v, k);
    ReadAfterWrite(ranges, m, at, Updated(pte, access), slot);
    UpdatedGrows(pte, access);
    var p, q := Read64(ranges, m, slot), Read64(ranges, m', slot);
    assert Grown(p, q) by {
      GrownReflexive(p);
    }
    GrownMeaning(p, q, Paged(U, false, false, 3, 0), Read);
    if Present(p) && Xwr(p) == 0 && k > 0 {
      TargetAligned(p);
      ReadsAfterUpdate(ranges, m, at, access, Target(p), v, k - 1, x);
    }
  }

  lemma {:induction false} ReadsKept(ranges: seq<Range>, m: Ram, m': Ram, table: nat, v: nat, k: nat, x: Loc)
    requires forall y: Loc :: Reads(ranges, m, table, v, k, y) ==> ByteAt(m, y) == ByteAt(m', y)
    ensures Reads(ranges, m', table, v, k, x) <==> Reads(ranges, m, table, v, k, x)
    decreases k
  {
    hide Locate, Present, Xwr, Target, Slot, Load;
    var at := Slot(table, v, k);
    var l, pte := Locate(ranges, at), Read64(ranges, m, at);
    if l.Some? {
      forall y | Inside(y, l.value, 8)
        ensures ByteAt(m, y) == ByteAt(m', y)
      {
        assert Reads(ranges, m, table, v, k, y);
      }
      LoadSame(m, m', l.value, 8);
    }
    if Present(pte) && Xwr(pte) == 0 && k > 0 {
      forall y: Loc | Reads(ranges, m, Target(pte), v, k - 1, y)
        ensures ByteAt(m, y) == ByteAt(m', y)
      {
        assert Reads(ranges, m, table, v, k, y);
      }
      ReadsKept(ranges, m, m', Target(pte), v, k - 1, x);
    }
  }

  lemma {:induction false} LeafIsRead(ranges: seq<Range>, m: Ram, table: nat, v: nat, k: nat, x: Loc)
    requires Walk(ranges, m, table, v, k).Leaf?
    requires var l := Locate(ranges, Walk(ranges, m, table, v, k).at); l.Some? && Inside(x, l.value, 8)
    ensures Reads(ranges, m, table, v, k, x)
    decreases k
  {
    hide Locate, Target, Slot, Xwr, Present, Read64, Inside;
    var pte := Read64(ranges, m, Slot(table, v, k));
    if Xwr(pte) == 0 {
      LeafIsRead(ranges, m, Target(pte), v, k - 1, x);
    }
  }

  /** A walk's own writes leave alone both the bytes outside tables and which bytes those are. */
  lemma WalkFree(ranges: seq<Range>, m: Ram, g: Regime, v: nat, access: Access, x: Loc)
    requires WellMapped(ranges) && Proper(g)
    ensures var m' := AfterWalk(ranges, m, g, v, access);
            (TableFree(ranges, m', g, x) <==> TableFree(ranges, m, g, x)) &&
            (TableFree(ranges, m, g, x) ==> ByteAt(m', x) == ByteAt(m, x))
  {
    hide Walk, Reads, Read64, Locate, Updated, Permits, Present, Xwr, Store, Inside, Canonical, WellMapped, Proper;
    ProperRoot(g);
    var m', leaf := AfterWalk(ranges, m, g, v, access), LeafOf(ranges, m, g, v);
    if m' != m {
      LeafFacts(ranges, m, g.root, v, g.levels - 1);
      forall w: nat
        ensures WalkReads(ranges, m', g, w, x) <==> WalkReads(ranges, m, g, w, x)
      {
        ReadsAfterUpdate(ranges, m, leaf.at, access, g.root, w, g.levels - 1, x);
      }
      var l := Locate(ranges, leaf.at).value;
      if Inside(x, l, 8) {
        LeafIsRead(ranges, m, g.root, v, g.levels - 1, x);
        assert WalkReads(ranges, m, g, v, x);
      } else {
        StoreOutside(m, l, Updated(leaf.pte, access), 8, x);
      }
    }
  }

  /** Storing outside tables leaves them, and which bytes they are, alone. */
  lemma StoreFree(ranges: seq<Range>, m: Ram, g: Regime, l: Loc, v: nat, n: nat, x: Loc)
    requires forall y: Loc :: Inside(y, l, n) ==> TableFree(ranges, m, g, y)
    ensures TablesKept(ranges, m, Store(m, l, v, n), g)
    ensures TableFree(ranges, Store(m, l, v, n), g, x) <==> TableFree(ranges, m, g, x)
  {
    hide Reads, Store, Inside;
    var m' := Store(m, l, v, n);
    forall w: nat, y: Loc | WalkReads(ranges, m, g, w, y)
      ensures ByteAt(m, y) == ByteAt(m', y)
    {
      if !Inside(y, l, n) {
        StoreOutside(m, l, v, n, y);
      }
    }
    if g.Paged? && g.levels > 0 {
      forall w: nat
        ensures WalkReads(ranges, m', g, w, x) <==> WalkReads(ranges, m, g, w, x)
      {
        forall y: Loc | Reads(ranges, m, g.root, w, g.levels - 1, y)
          ensures ByteAt(m, y) == ByteAt(m', y)
        {
          assert WalkReads(ranges, m, g, w, y);
        }
        ReadsKept(ranges, m, m', g.root, w, g.levels - 1, x);
      }
    }
  }

  // ---- one store ----

  /** From `m` to `m'`, no translation changed, settled accesses stayed settled, tables stayed where they are. */
  ghost predicate Follows(ranges: seq<Range>, m: Ram, m': Ram, g: Regime)
  {
    (forall y: nat, access :: Translate(ranges, m', g, y, access) == Translate(ranges, m, g, y, access)) &&
    (forall y: nat, access :: AfterWalk(ranges, m, g, y, access) == m ==> AfterWalk(ranges, m', g, y, access) == m') &&
    forall x: Loc :: TableFree(ranges, m', g, x) <==> TableFree(ranges, m, g, x)
  }

  lemma WalkFollows(ranges: seq<Range>, m: Ram, g: Regime, v: nat, access: Access)
    requires WellMapped(ranges) && Proper(g)
    ensures Follows(ranges, m, AfterWalk(ranges, m, g, v, access), g)
  {
    hide WellMapped, Proper, TableFree, Translate, AfterWalk;
    forall y: nat, access2
      ensures var m' := AfterWalk(ranges, m, g, v, access);
              Translate(ranges, m', g, y, access2) == Translate(ranges, m, g, y, access2) &&
              (AfterWalk(ranges, m, g, y, access2) == m ==> AfterWalk(ranges, m', g, y, access2) == m')
    {
      WalkKeepsTranslations(ranges, m, g, v, access, g, y, access2);
    }
    forall x: Loc
      ensures TableFree(ranges, AfterWalk(ranges, m, g, v, access), g, x) <==> TableFree(ranges, m, g, x)
    {
      WalkFree(ranges, m, g, v, access, x);
    }
  }

  lemma StoreFollows(ranges: seq<Range>, m: Ram, g: Regime, l: Loc, v: nat, n: nat)
    requires WellMapped(ranges) && Proper(g) && forall y: Loc :: Inside(y, l, n) ==> TableFree(ranges, m, g, y)
    ensures Follows(ranges, m, Store(m, l, v, n), g)
  {
    hide WellMapped, Proper, TableFree, Translate, AfterWalk, TablesKept, Store, Inside;
    var m' := Store(m, l, v, n);
    forall x: Loc
      ensures TablesKept(ranges, m, m', g) && (TableFree(ranges, m', g, x) <==> TableFree(ranges, m, g, x))
    {
      StoreFree(ranges, m, g, l, v, n, x);
    }
    assert TablesKept(ranges, m, m', g) by {
      StoreFree(ranges, m, g, l, v, n, l);
    }
    forall y: nat, access
      ensures Translate(ranges, m', g, y, access) == Translate(ranges, m, g, y, access) &&
              (AfterWalk(ranges, m, g, y, access) == m ==> AfterWalk(ranges, m', g, y, access) == m')
    {
      KeptTables(ranges, m, m', g, y, access);
    }
  }

  /** A page that may be written may be read, and once settled for writing is settled for reading. */
  lemma WriteThenRead(ranges: seq<Range>, m: Ram, g: Regime, a: nat)
    requires WellMapped(ranges) && Proper(g) && Translate(ranges, m, g, a, Write).Some? &&
             AfterWalk(ranges, m, g, a, Write) == m
    ensures Translate(ranges, m, g, a, Read) == Translate(ranges, m, g, a, Write) &&
            AfterWalk(ranges, m, g, a, Read) == m
  {
    hide Walk, Write64, Locate, Proper, Canonical, Target, Span, User, WellMapped, Present;
    ProperRoot(g);
    if g.Paged? {
      var leaf := LeafOf(ranges, m, g, a);
      LeafFacts(ranges, m, g.root, a, g.levels - 1);
      NoWriteNeeded(ranges, m, leaf, Write);
    }
  }

  lemma {:induction false} StoredByte(m: Ram, l: Loc, v: nat, n: nat, i: nat)
    requires i < n
    ensures ByteAt(Store(m, l, v, n), Shift(l, i)) == Sticky.Quot(v, Pow256(i)) % 256
    decreases n
  {
    if i == 0 {
      assert Shift(l, 0) == l;
      StoreOutside(m[l := v % 256], Shift(l, 1), v / 256, n - 1, l);
    } else {
      StoredByte(m[l := v % 256], Shift(l, 1), v / 256, n - 1, i - 1);
      assert Shift(Shift(l, 1), i - 1) == Shift(l, i);
      DropByte(v, Pow256(i - 1));
    }
  }

  lemma DropByte(v: nat, p: nat)
    requires p > 0
    ensures Sticky.Quot(v / 256, p) == Sticky.Quot(v, 256 * p)
  {
    hide Sticky.Quot, Sticky.Rem;
    Sticky.QuotRem(v / 256, p);
    var q, r := Sticky.Quot(v / 256, p), Sticky.Rem(v / 256, p);
    assert 256 * (q * p) == q * (256 * p);
    Sticky.QuotRemUnique(v, 256 * p, q, 256 * r + v % 256);
  }

  /** An aligned store to RAM outside the tables. */
  lemma StoreStep(ranges: seq<Range>, m: Ram, g: Regime, a: nat, v: nat, n: nat, l: Loc)
    requires WellMapped(ranges) && Proper(g) && Target1(ranges, m, g, a, Write) == Some(l)
    requires forall y: Loc :: Inside(y, l, n) ==> TableFree(ranges, m, g, y)
    ensures var (r, m') := StoreAligned(ranges, m, g, a, v, n);
            r.Done? && Follows(ranges, m, m', g) && AfterWalk(ranges, m', g, a, Read) == m' &&
            Translate(ranges, m', g, a, Read) == Translate(ranges, m, g, a, Write) &&
            (forall i: nat :: i < n ==> ByteAt(m', Shift(l, i)) == Sticky.Quot(v, Pow256(i)) % 256) &&
            forall x: Loc :: TableFree(ranges, m, g, x) && !Inside(x, l, n) ==> ByteAt(m', x) == ByteAt(m, x)
  {
    hide WellMapped, Proper, TableFree, Translate, AfterWalk, Store, Locate, Pow256, Sticky.Quot;
    var m1 := AfterWalk(ranges, m, g, a, Write);
    var m' := Store(m1, l, v, n);
    WalkFollows(ranges, m, g, a, Write);
    WalkTwice(ranges, m, g, a, Write);
    WriteThenRead(ranges, m1, g, a);
    StoreFollows(ranges, m1, g, l, v, n);
    forall i: nat | i < n
      ensures ByteAt(m', Shift(l, i)) == Sticky.Quot(v, Pow256(i)) % 256
    {
      StoredByte(m1, l, v, n, i);
    }
    forall x: Loc | TableFree(ranges, m, g, x) && !Inside(x, l, n)
      ensures ByteAt(m', x) == ByteAt(m, x)
    {
      WalkFree(ranges, m, g, a, Write, x);
      StoreOutside(m1, l, v, n, x);
    }
  }

  // ---- a store of any alignment ----

  function Digit(v: nat, i: nat): Byte { Sticky.Quot(v, Pow256(i)) % 256 }

  /** The bytes of an access are distinct RAM locations, none of them part of a table in use. */
  ghost predicate FreeBytes(ranges: seq<Range>, m: Ram, g: Regime, a: nat, locs: seq<Loc>)
  {
    (forall j :: 0 <= j < |locs| ==>
       Target1(ranges, m, g, Plus(a, j), Write) == Some(locs[j]) && TableFree(ranges, m, g, locs[j])) &&
    forall j, k :: 0 <= j < k < |locs| ==> locs[j] != locs[k]
  }

  /** Byte `j` holds its digit, and reading it again needs no write. */
  ghost predicate HoldsDigit(ranges: seq<Range>, m: Ram, g: Regime, a: nat, v: nat, locs: seq<Loc>, j: nat)
    requires j < |locs|
  {
    ByteAt(m, locs[j]) == Digit(v, j) && IsSettled(ranges, m, g, Plus(a, j), Read, locs[j])
  }

  lemma {:induction false} StoreBytesRun(ranges: seq<Range>, m: Ram, g: Regime, a: nat, v: nat, i: nat, n: nat,
                                         locs: seq<Loc>)
    requires WellMapped(ranges) && Proper(g) && |locs| == n && i <= n && FreeBytes(ranges, m, g, a, locs)
    ensures var (r, m') := StoreBytes(ranges, m, g, a, v, i, n);
            r.Done? && Follows(ranges, m, m', g) &&
            (forall j :: i <= j < n ==> HoldsDigit(ranges, m', g, a, v, locs, j)) &&
            forall x: Loc :: TableFree(ranges, m, g, x) && x !in locs[i..] ==> ByteAt(m', x) == ByteAt(m, x)
    decreases n - i
  {
    hide WellMapped, Proper, TableFree, Translate, AfterWalk, Locate, Plus, StoreAligned, Digit;
    if i < n {
      var l, m1 := locs[i], StoreAligned(ranges, m, g, Plus(a, i), Digit(v, i), 1).1;
      assert Digit(v, i) == Sticky.Quot(v, Pow256(i)) % 256 by {
        DigitIs(v, i);
      }
      StoreStep(ranges, m, g, Plus(a, i), Digit(v, i), 1, l);
      assert ByteAt(m1, l) == Digit(v, i) by {
        OneDigit(Digit(v, i));
        assert Shift(l, 0) == l;
      }
      FreeStill(ranges, m, m1, g, a, locs);
      StoreBytesRun(ranges, m1, g, a, v, i + 1, n, locs);
      var m' := StoreBytes(ranges, m1, g, a, v, i + 1, n).1;
      assert l !in locs[i + 1..];
      assert locs[i..] == [l] + locs[i + 1..];
      assert HoldsDigit(ranges, m', g, a, v, locs, i);
    }
  }

  lemma DigitIs(v: nat, i: nat)
    ensures Digit(v, i) == Sticky.Quot(v, Pow256(i)) % 256
  {
  }

  lemma OneDigit(b: Byte)
    ensures Sticky.Quot(b, Pow256(0)) % 256 == b
  {
  }

  lemma FreeStill(ranges: seq<Range>, m: Ram, m': Ram, g: Regime, a: nat, locs: seq<Loc>)
    requires FreeBytes(ranges, m, g, a, locs) && Follows(ranges, m, m', g)
    ensures FreeBytes(ranges, m', g, a, locs)
  {
    hide Translate, AfterWalk, Locate, Plus, TableFree;
  }

  function Digits(v: nat, n: nat): (d: seq<Byte>) { seq(n, i requires 0 <= i < n => Digit(v, i)) }

  lemma {:induction false} ComposeDigits(v: nat, n: nat)
    requires v < Pow256(n)
    ensures Compose(Digits(v, n)) == v
  {
    if n > 0 {
      ComposeDigits(v / 256, n - 1);
      forall i | 0 <= i < n - 1
        ensures Digits(v, n)[1..][i] == Digits(v / 256, n - 1)[i]
      {
        DropByte(v, Pow256(i));
      }
      assert Digits(v, n)[1..] == Digits(v / 256, n - 1);
      OneDigitOf(v);
    }
  }

  lemma OneDigitOf(v: nat)
    ensures Digit(v, 0) == v % 256
  {
  }

  /** Reading back bytes that hold digits. */
  lemma ReadBack(ranges: seq<Range>, m: Ram, g: Regime, a: nat, v: nat, n: nat, locs: seq<Loc>)
    requires WellMapped(ranges) && Proper(g) && IsSize(n) && a < TWO_64 && v < Pow256(n) && |locs| == n
    requires forall j :: 0 <= j < n ==> HoldsDigit(ranges, m, g, a, v, locs, j)
    ensures LoadAny(ranges, m, g, a, n).0 == Value(v)
  {
    hide WellMapped, Proper, IsSettled, Plus, LoadAny, Pow256, Digit, Compose, ReadIn, Target1, FirstWord, SecondWord,
      FromFirst;
    assert HoldsDigit(ranges, m, g, a, v, locs, 0);
    FirstSettled(ranges, m, g, a, n, locs[0]);
    var l1 := locs[0];
    if a % n != 0 {
      SecondIsNext(a, n);
      FromFirstLess(a, n);
      l1 := locs[FromFirst(a, n)];
      assert HoldsDigit(ranges, m, g, a, v, locs, FromFirst(a, n));
    }
    forall i | 0 <= i < n
      ensures var l := Target1(ranges, m, g, Plus(a, i), Read);
              l.Some? ==> Digits(v, n)[i] == ByteAt(ReadIn(ranges, m, g, a, n, i), l.value)
      ensures LoadAny(ranges, m, g, a, n).0.Value?
    {
      assert HoldsDigit(ranges, m, g, a, v, locs, i);
      SettledLoad(ranges, m, g, a, n, i, Shift(locs[0], FirstWord(a, n) - a), l1, locs[i]);
    }
    assert LoadAny(ranges, m, g, a, n).0.Value? by {
      SettledLoad(ranges, m, g, a, n, 0, Shift(locs[0], FirstWord(a, n) - a), l1, locs[0]);
    }
    ComposeDigits(v, n);
    LoadComposes(ranges, m, g, a, n, Digits(v, n));
  }

  lemma FromFirstLess(a: nat, n: nat)
    requires IsSize(n) && a % n != 0
    ensures FromFirst(a, n) < n
  {
  }

  /** When the words of a load are settled, it yields a value and writes nothing. */
  lemma SettledLoad(ranges: seq<Range>, m: Ram, g: Regime, a: nat, n: nat, i: nat, l0: Loc, l1: Loc, l: Loc)
    requires IsSize(n) && a < TWO_64 && i < n && IsSettled(ranges, m, g, FirstWord(a, n), Read, l0)
    requires a % n != 0 ==> IsSettled(ranges, m, g, SecondWord(a, n), Read, l1)
    requires IsSettled(ranges, m, g, Plus(a, i), Read, l)
    ensures LoadAny(ranges, m, g, a, n).0.Value? && ReadIn(ranges, m, g, a, n, i) == m
    ensures Target1(ranges, m, g, Plus(a, i), Read) == Some(l)
  {
    hide Translate, AfterWalk, Locate, Plus, Load, Splice;
  }

  lemma FirstSettled(ranges: seq<Range>, m: Ram, g: Regime, a: nat, n: nat, l: Loc)
    requires WellMapped(ranges) && Proper(g) && IsSize(n) && a < TWO_64 && IsSettled(ranges, m, g, Plus(a, 0), Read, l)
    ensures IsSettled(ranges, m, g, FirstWord(a, n), Read, Shift(l, FirstWord(a, n) - a))
  {
    hide WellMapped, Proper, IsSettled;
    PlusFits(a, 0);
    AlignedBase(a, n);
    AlignedRun(FirstWord(a, n), if n == 2 then 1 else n, a - FirstWord(a, n));
    SettledPage(ranges, m, g, a, FirstWord(a, n), Read, l);
  }

  lemma DistinctBytes(ranges: seq<Range>, m: Ram, g: Regime, a: nat, j: nat, k: nat)
    requires WellMapped(ranges) && Proper(g) && a < TWO_64 && j < k < 8
    requires Target1(ranges, m, g, Plus(a, j), Write).Some? && Target1(ranges, m, g, Plus(a, k), Write).Some?
    ensures Target1(ranges, m, g, Plus(a, j), Write) != Target1(ranges, m, g, Plus(a, k), Write)
  {
    hide WellMapped, Proper, Translate, Locate, Plus;
    OffsetInPage(ranges, m, g, Plus(a, j));
    OffsetInPage(ranges, m, g, Plus(a, k));
    DifferentOffsets(a, j, k);
  }

  lemma OffsetInPage(ranges: seq<Range>, m: Ram, g: Regime, a: nat)
    requires WellMapped(ranges) && Proper(g) && Target1(ranges, m, g, a, Write).Some?
    ensures Target1(ranges, m, g, a, Write).value.offset % 4096 == a % 4096
  {
    hide WellMapped, Proper, Translate, Locate;
    TranslatePage(ranges, m, g, a, a, Write);
    var p := Translate(ranges, m, g, a, Write).value;
    LocatePage(ranges, p, p);
  }

  lemma DifferentOffsets(a: nat, j: nat, k: nat)
    requires a < TWO_64 && j < k < 8
    ensures Plus(a, j) % 4096 != Plus(a, k) % 4096
  {
    PlusInPage(a, j);
    PlusInPage(a, k);
  }

  lemma PlusInPage(a: nat, i: nat)
    ensures Plus(a, i) % 4096 == (a + i) % 4096
  {
    var x, w := a + i, 0x1_0000_0000_0000_0000;
    var q, r := x / w, x % w;
    Sticky.DivModUnique(x, 4096, 0x10_0000_0000_0000 * q + r / 4096, r % 4096);
  }

  /** Store, then load at the same address and size: the stored value comes back, for every alignment and
      across page boundaries, provided the bytes are RAM and not page tables in use. */
  lemma StoreThenLoad(ranges: seq<Range>, m: Ram, g: Regime, a: nat, v: nat, n: nat)
    requires WellMapped(ranges) && Proper(g) && IsSize(n) && a < TWO_64 && v < Pow256(n)
    requires forall i: nat :: i < n ==>
               var l := Target1(ranges, m, g, Plus(a, i), Write); l.Some? && TableFree(ranges, m, g, l.value)
    ensures StoreAny(ranges, m, g, a, v, n).0.Done?
    ensures LoadAny(ranges, StoreAny(ranges, m, g, a, v, n).1, g, a, n).0 == Value(v)
  {
    hide WellMapped, Proper, TableFree, Translate, AfterWalk, Locate, Plus, StoreAligned, LoadAny, Pow256;
    var locs := seq(n, i requires 0 <= i < n => Target1(ranges, m, g, Plus(a, i), Write).value);
    forall j, k | 0 <= j < k < n
      ensures locs[j] != locs[k]
    {
      DistinctBytes(ranges, m, g, a, j, k);
    }
    var m' := StoreAny(ranges, m, g, a, v, n).1;
    if a % n == 0 {
      AlignedHolds(ranges, m, g, a, v, n, locs);
    } else {
      StoreBytesRun(ranges, m, g, a, v, 0, n, locs);
    }
    ReadBack(ranges, m', g, a, v, n, locs);
  }

  lemma AlignedHolds(ranges: seq<Range>, m: Ram, g: Regime, a: nat, v: nat, n: nat, locs: seq<Loc>)
    requires WellMapped(ranges) && Proper(g) && IsSize(n) && a % n == 0 && a < TWO_64 && |locs| == n
    requires FreeBytes(ranges, m, g, a, locs)
    ensures var (r, m') := StoreAligned(ranges, m, g, a, v, n);
            r.Done? && forall j :: 0 <= j < n ==> HoldsDigit(ranges, m', g, a, v, locs, j)
  {
    hide WellMapped, Proper, TableFree, Translate, AfterWalk, Locate, Plus, StoreAligned, Pow256, Digit;
    PlusFits(a, 0);
    var l := locs[0];
    forall j | 0 <= j < n
      ensures locs[j] == Shift(l, j) && Plus(a, j) == a + j
    {
      AlignedBytes(ranges, m, g, a, n, Write, j);
      PlusFits(a, j);
    }
    forall y: Loc | Inside(y, l, n)
      ensures TableFree(ranges, m, g, y)
    {
      assert y == locs[y.offset - l.offset];
    }
    StoreStep(ranges, m, g, a, v, n, l);
    var m' := StoreAligned(ranges, m, g, a, v, n).1;
    forall j | 0 <= j < n
      ensures HoldsDigit(ranges, m', g, a, v, locs, j)
    {
      DigitIs(v, j);
      AlignedRun(a, n, j);
      SettledPage(ranges, m', g, a, a + j, Read, l);
    }
  }
}
