/** What loads and stores leave behind: which bytes a store writes, and how memory went from one moment to the
    next. */
module History {
  import opened Options
  import opened PhysMem
  import opened PageWalk
  import opened Settled
  import opened MemAccess
  import opened LoadStore

  function Bytes(l: Loc, n: nat): set<Loc> { set i | 0 <= i < n :: Shift(l, i) }

  lemma InBytes(l: Loc, n: nat, x: Loc)
    ensures Inside(x, l, n) ==> x in Bytes(l, n)
  {
    if Inside(x, l, n) {
      assert x == Shift(l, x.offset - l.offset);
    }
  }

  ghost function Changed(m: Ram, m': Ram): set<Loc>
  {
    set x | x in m.Keys + m'.Keys && ByteAt(m, x) != ByteAt(m', x)
  }

  // ---- the bytes a store writes ----

  /** The RAM locations of the first `n` bytes at `a`. */
  ghost function Written(ranges: seq<Range>, m: Ram, g: Regime, a: nat, n: nat): set<Loc>
  {
    set i | 0 <= i < n && Target1(ranges, m, g, Plus(a, i), Write).Some? ::
      Target1(ranges, m, g, Plus(a, i), Write).value
  }

  /** How many of the `n` bytes at `a` come before the first that faults. */
  ghost function Reach(ranges: seq<Range>, m: Ram, g: Regime, a: nat, n: nat): (k: nat)
    ensures k <= n && (k < n ==> Translate(ranges, m, g, Plus(a, k), Write).None?)
    ensures forall i :: 0 <= i < k ==> Translate(ranges, m, g, Plus(a, i), Write).Some?
  {
    if n == 0 then 0
    else
      var k := Reach(ranges, m, g, a, n - 1);
      if k == n - 1 && Translate(ranges, m, g, Plus(a, k), Write).Some? then n else k
  }

  ghost predicate AllMapped(ranges: seq<Range>, m: Ram, g: Regime, a: nat, k: nat)
  {
    forall i :: 0 <= i < k ==> Translate(ranges, m, g, Plus(a, i), Write).Some?
  }

  /** What a store of `n` bytes writes: everything before the first byte that faults. */
  ghost function WrittenBy(ranges: seq<Range>, m: Ram, g: Regime, a: nat, n: nat): set<Loc>
  {
    Written(ranges, m, g, a, Reach(ranges, m, g, a, n))
  }

  lemma ReachIs(ranges: seq<Range>, m: Ram, g: Regime, a: nat, n: nat, k: nat)
    requires k <= n && forall i :: 0 <= i < k ==> Translate(ranges, m, g, Plus(a, i), Write).Some?
    requires k < n ==> Translate(ranges, m, g, Plus(a, k), Write).None?
    ensures Reach(ranges, m, g, a, n) == k
  {
  }

  lemma WrittenNext(ranges: seq<Range>, m: Ram, g: Regime, a: nat, k: nat)
    requires a < TWO_64
    ensures Written(ranges, m, g, a, k + 1) == Written(ranges, m, g, a, k) + Written(ranges, m, g, Plus(a, k), 1)
    ensures Written(ranges, m, g, a, 0) == {}
  {
    hide Target1;
    PlusZero(a, k);
    var one := Written(ranges, m, g, Plus(a, k), 1);
    var t := Target1(ranges, m, g, Plus(a, k), Write);
    assert one == if t.Some? then {t.value} else {} by {
      assert t.Some? ==> Target1(ranges, m, g, Plus(Plus(a, k), 0), Write).value in one;
    }
    forall x | x in Written(ranges, m, g, a, k)
      ensures x in Written(ranges, m, g, a, k + 1)
    {
      var i :| 0 <= i < k && Target1(ranges, m, g, Plus(a, i), Write).Some? &&
               x == Target1(ranges, m, g, Plus(a, i), Write).value;
      assert 0 <= i < k + 1;
    }
  }

  /** One byte more of an unaligned store. */
  lemma ByteStored(ranges: seq<Range>, m0: Ram, m: Ram, g: Regime, a: nat, i: nat)
    requires a < TWO_64
    requires Translate(ranges, m, g, Plus(a, i), Write) == Translate(ranges, m0, g, Plus(a, i), Write)
    ensures var t := Translate(ranges, m0, g, Plus(a, i), Write);
            WrittenBy(ranges, m, g, Plus(a, i), 1) ==
              if t.Some? then Written(ranges, m0, g, Plus(a, i), 1) else {}
    ensures Written(ranges, m0, g, a, i + 1) == Written(ranges, m0, g, a, i) + Written(ranges, m0, g, Plus(a, i), 1)
  {
    hide Translate, Locate, Plus;
    WrittenNext(ranges, m0, g, a, i);
    PlusZero(a, i);
    var t := Translate(ranges, m, g, Plus(a, i), Write);
    ReachIs(ranges, m, g, Plus(a, i), 1, if t.Some? then 1 else 0);
  }

  lemma PlusZero(a: nat, k: nat)
    ensures Plus(Plus(a, k), 0) == Plus(a, k)
  {
  }

  /** An aligned store lies on one page: it writes all its bytes, side by side, or none. */
  lemma WrittenAligned(ranges: seq<Range>, m: Ram, g: Regime, a: nat, n: nat)
    requires WellMapped(ranges) && Proper(g) && IsSize(n) && a % n == 0 && a < TWO_64
    ensures var t := Target1(ranges, m, g, a, Write);
            WrittenBy(ranges, m, g, a, n) == if t.Some? then Bytes(t.value, n) else {}
    ensures Reach(ranges, m, g, a, n) == if Translate(ranges, m, g, a, Write).Some? then n else 0
  {
    hide WellMapped, Proper, Translate, Locate, Plus, Target1;
    forall i | 0 <= i < n
      ensures Translate(ranges, m, g, Plus(a, i), Write).Some? <==> Translate(ranges, m, g, a, Write).Some?
      ensures ByteTarget(ranges, m, g, a, i)
    {
      PageByte(ranges, m, g, a, n, i);
    }
    if Translate(ranges, m, g, a, Write).Some? {
      ReachIs(ranges, m, g, a, n, n);
      SideBySide(ranges, m, g, a, n);
    } else {
      ReachIs(ranges, m, g, a, n, 0);
      NoTarget(ranges, m, g, a);
    }
  }

  lemma NoTarget(ranges: seq<Range>, m: Ram, g: Regime, a: nat)
    requires Translate(ranges, m, g, a, Write).None?
    ensures Target1(ranges, m, g, a, Write).None?
  {
  }

  /** Byte `i` lies `i` places after the first. */
  ghost predicate ByteTarget(ranges: seq<Range>, m: Ram, g: Regime, a: nat, i: nat)
  {
    var t := Target1(ranges, m, g, a, Write);
    Target1(ranges, m, g, Plus(a, i), Write) == if t.Some? then Some(Shift(t.value, i)) else None
  }

  lemma SideBySide(ranges: seq<Range>, m: Ram, g: Regime, a: nat, n: nat)
    requires forall i :: 0 <= i < n ==> ByteTarget(ranges, m, g, a, i)
    ensures var t := Target1(ranges, m, g, a, Write);
            Written(ranges, m, g, a, n) == if t.Some? then Bytes(t.value, n) else {}
  {
    hide Plus, Target1, Shift;
    var t := Target1(ranges, m, g, a, Write);
    forall x
      ensures x in Written(ranges, m, g, a, n) <==> t.Some? && x in Bytes(t.value, n)
    {
      if x in Written(ranges, m, g, a, n) {
        var i :| 0 <= i < n && Target1(ranges, m, g, Plus(a, i), Write).Some? &&
                 x == Target1(ranges, m, g, Plus(a, i), Write).value;
        assert ByteTarget(ranges, m, g, a, i);
      }
      if t.Some? && x in Bytes(t.value, n) {
        var i :| 0 <= i < n && x == Shift(t.value, i);
        assert ByteTarget(ranges, m, g, a, i);
      }
    }
  }

  lemma PageByte(ranges: seq<Range>, m: Ram, g: Regime, a: nat, n: nat, i: nat)
    requires WellMapped(ranges) && Proper(g) && IsSize(n) && a % n == 0 && a < TWO_64 && i < n
    ensures Translate(ranges, m, g, Plus(a, i), Write).Some? <==> Translate(ranges, m, g, a, Write).Some?
    ensures ByteTarget(ranges, m, g, a, i)
  {
    hide WellMapped, Proper, Translate, Locate;
    AlignedRun(a, n, i);
    PlusFits(a, i);
    var t, u := Translate(ranges, m, g, a, Write), Translate(ranges, m, g, a + i, Write);
    if t.Some? {
      TranslatePage(ranges, m, g, a, a + i, Write);
      SamePage(a, a + i, t.value, u.value);
      if Locate(ranges, t.value).Some? {
        LocatePage(ranges, t.value, u.value);
      } else if Locate(ranges, u.value).Some? {
        LocatePage(ranges, u.value, t.value);
      }
    } else if u.Some? {
      TranslatePage(ranges, m, g, a + i, a, Write);
    }
  }

  // ---- from moment to moment ----

  /** `m'` is `m` after a walk. */
  ghost predicate WalkStep(ranges: seq<Range>, m: Ram, m': Ram, g: Regime, access: Access)
  {
    exists v: nat :: m' == AfterWalk(ranges, m, g, v, access)
  }

  ghost predicate Confined(m: Ram, m': Ram, stored: set<Loc>)
  {
    forall x: Loc :: x !in stored ==> ByteAt(m', x) == ByteAt(m, x)
  }

  ghost predicate MarkedIn(ranges: seq<Range>, h0: seq<Ram>, h: seq<Ram>, g: Regime, access: Access, x: Loc)
  {
    exists i :: |h0| <= i < |h| && MarkedAt(ranges, h, i, g, access, x)
  }

  /** A walk changed byte `x` at moment `i`. */
  ghost predicate MarkedAt(ranges: seq<Range>, h: seq<Ram>, i: nat, g: Regime, access: Access, x: Loc)
    requires i < |h|
  {
    0 < i && WalkStep(ranges, h[i - 1], h[i], g, access) && ByteAt(h[i - 1], x) != ByteAt(h[i], x)
  }

  ghost predicate StepsOk(ranges: seq<Range>, h0: seq<Ram>, h: seq<Ram>, g: Regime, access: Access, stored: set<Loc>)
  {
    forall i :: |h0| <= i < |h| ==> StepAt(ranges, h, i, g, access, stored)
  }

  ghost predicate StepAt(ranges: seq<Range>, h: seq<Ram>, i: nat, g: Regime, access: Access, stored: set<Loc>)
    requires i < |h|
  {
    0 < i ==> WalkStep(ranges, h[i - 1], h[i], g, access) || Confined(h[i - 1], h[i], stored)
  }

  /** Since `h0`, memory changed by walks and in the bytes `stored`; new bytes in `marked` were changed by walks. */
  ghost predicate Recorded(ranges: seq<Range>, h0: seq<Ram>, h: seq<Ram>, g: Regime, access: Access,
                           stored: set<Loc>, marked0: set<Loc>, marked: set<Loc>)
  {
    0 < |h0| && h0 <= h && marked0 <= marked && StepsOk(ranges, h0, h, g, access, stored) &&
    forall x :: x in marked && x !in marked0 ==> MarkedIn(ranges, h0, h, g, access, x)
  }

  lemma NothingRecorded(ranges: seq<Range>, h: seq<Ram>, g: Regime, access: Access, stored: set<Loc>, marked: set<Loc>)
    requires 0 < |h|
    ensures Recorded(ranges, h, h, g, access, stored, marked, marked)
  {
  }

  lemma WalkRecorded(ranges: seq<Range>, h: seq<Ram>, m: Ram, g: Regime, v: nat, access: Access, stored: set<Loc>,
                     marked: set<Loc>)
    requires 0 < |h| && m == AfterWalk(ranges, h[|h| - 1], g, v, access)
    ensures Recorded(ranges, h, h + [m], g, access, stored, marked, marked + Changed(h[|h| - 1], m))
  {
    hide AfterWalk;
    var h' := h + [m];
    assert h'[|h|] == m && h'[|h| - 1] == h[|h| - 1];
    assert WalkStep(ranges, h'[|h| - 1], h'[|h|], g, access);
    assert StepAt(ranges, h', |h|, g, access, stored);
    forall x | x in Changed(h[|h| - 1], m)
      ensures MarkedIn(ranges, h, h', g, access, x)
    {
      assert MarkedAt(ranges, h', |h|, g, access, x);
    }
  }

  lemma StoreRecorded(ranges: seq<Range>, h: seq<Ram>, g: Regime, access: Access, l: Loc, v: nat, n: nat,
                      stored: set<Loc>, marked: set<Loc>)
    requires 0 < |h| && Bytes(l, n) <= stored
    ensures Recorded(ranges, h, h + [Store(h[|h| - 1], l, v, n)], g, access, stored, marked, marked)
  {
    hide Store;
    var m := h[|h| - 1];
    var h' := h + [Store(m, l, v, n)];
    forall x: Loc | x !in stored
      ensures ByteAt(Store(m, l, v, n), x) == ByteAt(m, x)
    {
      InBytes(l, n, x);
      StoreOutside(m, l, v, n, x);
    }
    assert Confined(h'[|h| - 1], h'[|h|], stored);
    assert StepAt(ranges, h', |h|, g, access, stored);
  }

  lemma RecordedThen(ranges: seq<Range>, h0: seq<Ram>, h1: seq<Ram>, h2: seq<Ram>, g: Regime, access: Access,
                     stored1: set<Loc>, stored2: set<Loc>, marked0: set<Loc>, marked1: set<Loc>, marked2: set<Loc>)
    requires Recorded(ranges, h0, h1, g, access, stored1, marked0, marked1)
    requires Recorded(ranges, h1, h2, g, access, stored2, marked1, marked2) && stored1 <= stored2
    ensures Recorded(ranges, h0, h2, g, access, stored2, marked0, marked2)
  {
    hide StepsOk, MarkedIn;
    StepsThen(ranges, h0, h1, h2, g, access, stored1, stored2);
    forall x | x in marked2 && x !in marked0
      ensures MarkedIn(ranges, h0, h2, g, access, x)
    {
      MarkedThen(ranges, h0, h1, h2, g, access, x);
    }
  }

  lemma RecordedPrefix(ranges: seq<Range>, h0: seq<Ram>, h: seq<Ram>, g: Regime, access: Access,
                       stored: set<Loc>, marked0: set<Loc>, marked: set<Loc>)
    requires Recorded(ranges, h0, h, g, access, stored, marked0, marked)
    ensures h0 <= h && 0 < |h0|
  {
  }

  lemma RecordedMore(ranges: seq<Range>, h0: seq<Ram>, h: seq<Ram>, g: Regime, access: Access,
                     stored: set<Loc>, more: set<Loc>, marked0: set<Loc>, marked: set<Loc>)
    requires Recorded(ranges, h0, h, g, access, stored, marked0, marked) && stored <= more
    ensures Recorded(ranges, h0, h, g, access, more, marked0, marked)
  {
    NothingRecorded(ranges, h, g, access, more, marked);
    RecordedThen(ranges, h0, h, h, g, access, stored, more, marked0, marked, marked);
  }

  lemma StepsThen(ranges: seq<Range>, h0: seq<Ram>, h1: seq<Ram>, h2: seq<Ram>, g: Regime, access: Access,
                  stored1: set<Loc>, stored2: set<Loc>)
    requires 0 < |h0| && h0 <= h1 <= h2 && stored1 <= stored2
    requires StepsOk(ranges, h0, h1, g, access, stored1) && StepsOk(ranges, h1, h2, g, access, stored2)
    ensures StepsOk(ranges, h0, h2, g, access, stored2)
  {
    hide WalkStep;
    forall i | |h0| <= i < |h2|
      ensures StepAt(ranges, h2, i, g, access, stored2)
    {
      if i < |h1| {
        assert StepAt(ranges, h1, i, g, access, stored1);
      }
    }
  }

  lemma MarkedThen(ranges: seq<Range>, h0: seq<Ram>, h1: seq<Ram>, h2: seq<Ram>, g: Regime, access: Access, x: Loc)
    requires h0 <= h1 <= h2 && (MarkedIn(ranges, h0, h1, g, access, x) || MarkedIn(ranges, h1, h2, g, access, x))
    ensures MarkedIn(ranges, h0, h2, g, access, x)
  {
    hide WalkStep;
    if MarkedIn(ranges, h0, h1, g, access, x) {
      var i :| |h0| <= i < |h1| && MarkedAt(ranges, h1, i, g, access, x);
      assert MarkedAt(ranges, h2, i, g, access, x);
    } else {
      var i :| |h1| <= i < |h2| && MarkedAt(ranges, h2, i, g, access, x);
      assert MarkedIn(ranges, h0, h2, g, access, x);
    }
  }

  lemma StepQuiet(ranges: seq<Range>, m: Ram, m': Ram, w: View, access: Access)
    requires ProperView(w) && (WalkStep(ranges, m, m', RegimeFor(w, access), access) || Confined(m, m', {}))
    ensures Quiet(ranges, m, m', w)
  {
    hide AfterWalk, WalkReads, Proper;
    if WalkStep(ranges, m, m', RegimeFor(w, access), access) {
      var v: nat :| m' == AfterWalk(ranges, m, RegimeFor(w, access), v, access);
      assert Proper(RegimeFor(w, access));
    }
  }

  /** Loads are quiet. */
  lemma ReadsQuiet(ranges: seq<Range>, h0: seq<Ram>, h: seq<Ram>, w: View, access: Access, marked0: set<Loc>,
                   marked: set<Loc>)
    requires ProperView(w) && QuietRun(ranges, h0, w)
    requires Recorded(ranges, h0, h, RegimeFor(w, access), access, {}, marked0, marked)
    ensures QuietRun(ranges, h, w)
  {
    hide WalkStep, Confined, Quiet, ProperView;
    forall i | 0 < i < |h|
      ensures Quiet(ranges, h[i - 1], h[i], w)
    {
      if i < |h0| {
        assert h0[i] == h[i] && h0[i - 1] == h[i - 1];
      } else {
        assert StepAt(ranges, h, i, RegimeFor(w, access), access, {});
        StepQuiet(ranges, h[i - 1], h[i], w, access);
      }
    }
  }

  /** Through a quiet run no translation changes. */
  lemma {:induction false} TranslationLasts(ranges: seq<Range>, h: seq<Ram>, w: View, i: nat, j: nat, v: nat,
                                            access: Access)
    requires WellMapped(ranges) && ProperView(w) && QuietRun(ranges, h, w) && i <= j < |h|
    ensures Translate(ranges, h[j], RegimeFor(w, access), v, access) ==
            Translate(ranges, h[i], RegimeFor(w, access), v, access)
    decreases j
  {
    hide Translate, AfterWalk, Quiet, ProperView;
    if i < j {
      TranslationLasts(ranges, h, w, i, j - 1, v, access);
      QuietStep(ranges, h[j - 1], h[j], w, v, access);
    }
  }

  /** Byte `i` of an unaligned store in a quiet run: its own translation is still what it was at the start. */
  lemma ByteQuiet(ranges: seq<Range>, h0: seq<Ram>, h: seq<Ram>, w: View, a: nat, n: nat, i: nat)
    requires WellMapped(ranges) && ProperView(w) && QuietRun(ranges, h, w) && 0 < |h0| && h0 <= h && a < TWO_64 && i < n
    requires AllMapped(ranges, h0[|h0| - 1], w.data, a, i)
    ensures var m0, m, g := h0[|h0| - 1], h[|h| - 1], w.data;
            if Reach(ranges, m, g, Plus(a, i), 1) == 1 then
              AllMapped(ranges, m0, g, a, i + 1) &&
              Written(ranges, m0, g, a, i) + WrittenBy(ranges, m, g, Plus(a, i), 1) ==
                Written(ranges, m0, g, a, i + 1) &&
              (i + 1 == n ==> Reach(ranges, m0, g, a, n) == n)
            else
              Reach(ranges, m0, g, a, n) == i && WrittenBy(ranges, m, g, Plus(a, i), 1) == {}
  {
    hide WellMapped, ProperView, QuietRun, Translate, Plus, Written;
    var m0, m, g := h0[|h0| - 1], h[|h| - 1], w.data;
    assert m0 == h[|h0| - 1];
    TranslationLasts(ranges, h, w, |h0| - 1, |h| - 1, Plus(a, i), Write);
    ByteStored(ranges, m0, m, g, a, i);
    PlusZero(a, i);
    if Translate(ranges, m, g, Plus(a, i), Write).Some? {
      ReachIs(ranges, m, g, Plus(a, i), 1, 1);
      if i + 1 == n {
        ReachIs(ranges, m0, g, a, n, n);
      }
    } else {
      ReachIs(ranges, m, g, Plus(a, i), 1, 0);
      ReachIs(ranges, m0, g, a, n, i);
    }
  }
}
