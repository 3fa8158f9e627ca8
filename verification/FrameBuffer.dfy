/** The framebuffer: dirty pages are turned into row ranges to redraw. */
module FrameBuffer {
  import opened PhysMem
  import opened Sticky
  import opened Settled
  import opened Control
  import opened MemAccess
  import opened History
  import opened TlbCpu

  const MAX_MERGE_DISTANCE: int := 3

  /** Rows `y0` up to `y0 + rows`. */
  datatype Rect = Rect(y0: int, rows: int)

  predicate InRect(r: Rect, row: int) { r.y0 <= row < r.y0 + r.rows }

  ghost predicate Covered(rects: seq<Rect>, row: int)
  {
    exists i :: 0 <= i < |rects| && InRect(rects[i], row)
  }

  function FirstRow(p: nat, stride: nat): nat
    requires stride > 0
  {
    Quot(4096 * p, stride)
  }

  function LastRow(p: nat, stride: nat): nat
    requires stride > 0
  {
    Quot(4096 * p + 4095, stride)
  }

  lemma RowsOrdered(a: nat, b: nat, stride: nat)
    requires stride > 0 && a <= b
    ensures Quot(a, stride) <= Quot(b, stride)
  {
    DivModIs(a, stride);
    DivModIs(b, stride);
    if a / stride > b / stride {
      MulOrder(b / stride + 1, a / stride, stride);
    }
  }

  lemma PagesOrdered(p: nat, q: nat, stride: nat)
    requires stride > 0 && p <= q
    ensures FirstRow(p, stride) <= FirstRow(q, stride) && LastRow(p, stride) <= LastRow(q, stride)
    ensures FirstRow(q, stride) <= LastRow(q, stride)
  {
    hide Quot;
    RowsOrdered(4096 * p, 4096 * q, stride);
    RowsOrdered(4096 * p + 4095, 4096 * q + 4095, stride);
    RowsOrdered(4096 * q, 4096 * q + 4095, stride);
  }

  /** The rows of the first `n` pages that are dirty and on screen are drawn, or in the open region. */
  ghost predicate Drawn(bits: seq<bool>, n: int, stride: nat, height: nat, rects: seq<Rect>, y0: int, y1: int)
    requires stride > 0
  {
    forall p, row: int ::
      0 <= p < n && p < |bits| && bits[p] && FirstRow(p, stride) <= row <= LastRow(p, stride) && row < height ==>
        Covered(rects, row) || y0 <= row < y1
  }

  /** Row `row` belongs to one of the first `n` pages that is dirty, or is one of the few rows before it. */
  ghost predicate NearDirty(bits: seq<bool>, n: int, stride: nat, row: int)
    requires stride > 0
  {
    exists p :: 0 <= p < n && p < |bits| && bits[p] && FirstRow(p, stride) - 3 <= row <= LastRow(p, stride)
  }

  /** Nothing is drawn, or about to be, that is not near a dirty page. */
  ghost predicate Tight(bits: seq<bool>, n: int, stride: nat, rects: seq<Rect>, y0: int, y1: int)
    requires stride > 0
  {
    forall row :: Holds(rects, y0, y1, row) ==> NearDirty(bits, n, stride, row)
  }

  /** The open region starts no later than page `n` does and ends no later. */
  ghost predicate Behind(n: int, stride: nat, height: nat, y0: int, y1: int)
    requires stride > 0
  {
    0 <= y0 && 0 <= y1 <= height &&
    forall p: nat :: p >= n ==> y0 <= FirstRow(p, stride) && y1 <= LastRow(p, stride) + 1
  }

  ghost predicate OnScreen(rects: seq<Rect>, height: int)
  {
    forall i :: 0 <= i < |rects| ==> 0 <= rects[i].y0 && rects[i].rows > 0 && rects[i].y0 + rects[i].rows <= height
  }

  /** The last dirty page before page `n`, or -1. */
  function Before(bits: seq<bool>, n: nat): (q: int)
    ensures -1 <= q < n && (q >= 0 ==> q < |bits| && bits[q])
  {
    if n == 0 then -1 else if n - 1 < |bits| && bits[n - 1] then n - 1 else Before(bits, n - 1)
  }

  /** Where a page ends on screen. */
  function EndRow(p: nat, stride: nat, height: nat): nat
    requires stride > 0
  {
    if LastRow(p, stride) + 1 < height then LastRow(p, stride) + 1 else height
  }

  /** A region with rows in it is open before page `n`: the last dirty page began on screen or joined one. */
  predicate IsOpen(bits: seq<bool>, n: nat, stride: nat, height: nat)
    requires stride > 0
    decreases n, 0
  {
    var q := Before(bits, n);
    q >= 0 && (FirstRow(q, stride) < height || Joins(bits, q, stride, height))
  }

  /** Page `p` begins near enough to the open region to join it. */
  predicate Joins(bits: seq<bool>, p: nat, stride: nat, height: nat)
    requires stride > 0
    decreases p, 1
  {
    IsOpen(bits, p, stride, height) && FirstRow(p, stride) <= EndRow(Before(bits, p), stride, height) + 3
  }

  /** Of the first `n` pages, the dirty ones that begin below the screen all join a region that begins on it. */
  ghost predicate Contained(bits: seq<bool>, n: int, stride: nat, height: nat)
    requires stride > 0
  {
    forall p: nat :: p < n && p < |bits| && bits[p] && FirstRow(p, stride) > height ==> Joins(bits, p, stride, height)
  }

  /** What is drawn stays on screen exactly as long as the pages are contained. */
  ghost predicate Tracks(bits: seq<bool>, n: nat, stride: nat, height: nat, rects: seq<Rect>, y0: int, y1: int)
    requires stride > 0
  {
    (if Before(bits, n) >= 0 then y1 == EndRow(Before(bits, n), stride, height) else y0 == y1) &&
    (y0 > y1 ==> y1 == height) &&
    if Contained(bits, n, stride, height) then
      OnScreen(rects, height) && y0 <= y1 && (y0 < y1 <==> IsOpen(bits, n, stride, height))
    else !OnScreen(rects, height) || y0 > y1
  }

  lemma StillOff(rects: seq<Rect>, r: Rect, height: int)
    requires !OnScreen(rects, height) || r.rows < 0
    ensures !OnScreen(rects + [r], height)
  {
    if !OnScreen(rects, height) {
      var i :| 0 <= i < |rects| && !(0 <= rects[i].y0 && rects[i].rows > 0 && rects[i].y0 + rects[i].rows <= height);
      assert (rects + [r])[i] == rects[i];
    } else {
      assert (rects + [r])[|rects|] == r;
    }
  }

  lemma ContainedNext(bits: seq<bool>, p: nat, stride: nat, height: nat)
    requires stride > 0 && p < |bits| && bits[p]
    ensures Contained(bits, p + 1, stride, height) <==>
            Contained(bits, p, stride, height) && (FirstRow(p, stride) > height ==> Joins(bits, p, stride, height))
    ensures IsOpen(bits, p + 1, stride, height) <==> FirstRow(p, stride) < height || Joins(bits, p, stride, height)
  {
    hide FirstRow, LastRow;
  }

  /** A new region at page `p`. */
  lemma TracksNew(bits: seq<bool>, p: nat, stride: nat, height: nat, rects: seq<Rect>, y0: int, y1: int)
    requires stride > 0 && p < |bits| && bits[p] && !Joins(bits, p, stride, height)
    requires if Contained(bits, p, stride, height) then OnScreen(rects, height) else !OnScreen(rects, height)
    requires y0 == FirstRow(p, stride) <= LastRow(p, stride) && y1 == EndRow(p, stride, height)
    ensures Tracks(bits, p + 1, stride, height, rects, y0, y1)
  {
    ContainedNext(bits, p, stride, height);
    hide FirstRow, LastRow, Contained, IsOpen, OnScreen;
  }

  lemma AddTracks(bits: seq<bool>, p: nat, stride: nat, height: nat, rects0: seq<Rect>, y00: int, y10: int,
                  rects: seq<Rect>, y0: int, y1: int)
    requires stride > 0 && p < |bits| && bits[p] && Tracks(bits, p, stride, height, rects0, y00, y10)
    requires 0 <= y00 <= FirstRow(p, stride) <= LastRow(p, stride) && y10 <= height && y10 <= LastRow(p, stride) + 1
    requires y1 == EndRow(p, stride, height)
    requires if y00 == y10 then rects == rects0 && y0 == FirstRow(p, stride)
             else if FirstRow(p, stride) <= y10 + 3 then rects == rects0 && y0 == y00
             else rects == rects0 + [Rect(y00, y10 - y00)] && y0 == FirstRow(p, stride)
    ensures Tracks(bits, p + 1, stride, height, rects, y0, y1)
  {
    hide FirstRow, LastRow, Contained;
    ContainedNext(bits, p, stride, height);
    if Contained(bits, p, stride, height) {
      if !Joins(bits, p, stride, height) {
        TracksNew(bits, p, stride, height, rects, y0, y1);
      }
    } else if rects != rects0 {
      StillOff(rects0, Rect(y00, y10 - y00), height);
    }
  }

  lemma {:induction false} SkipTracks(bits: seq<bool>, p: nat, q: nat, stride: nat, height: nat, rects: seq<Rect>,
                                      y0: int, y1: int)
    requires stride > 0 && p <= q && (forall i :: p <= i < q && i < |bits| ==> !bits[i])
    requires Tracks(bits, p, stride, height, rects, y0, y1)
    ensures Tracks(bits, q, stride, height, rects, y0, y1)
    decreases q
  {
    if p < q {
      SkipTracks(bits, p, q - 1, stride, height, rects, y0, y1);
      hide FirstRow, LastRow, OnScreen;
      assert Before(bits, q) == Before(bits, q - 1);
      assert Contained(bits, q, stride, height) == Contained(bits, q - 1, stride, height);
    }
  }

  /** The last region drawn. */
  lemma EndTracks(bits: seq<bool>, n: nat, stride: nat, height: nat, rects0: seq<Rect>, y0: int, y1: int,
                  rects: seq<Rect>)
    requires stride > 0 && |bits| <= n && Tracks(bits, n, stride, height, rects0, y0, y1) && 0 <= y0 && y1 <= height
    requires rects == if y0 == y1 then rects0 else rects0 + [Rect(y0, y1 - y0)]
    ensures OnScreen(rects, height) <==> Contained(bits, |bits|, stride, height)
  {
    hide FirstRow, LastRow;
    assert Contained(bits, n, stride, height) == Contained(bits, |bits|, stride, height);
    if !Contained(bits, n, stride, height) && y0 != y1 {
      StillOff(rects0, Rect(y0, y1 - y0), height);
    }
  }

  /** No dirty page begins below the screen: contained. */
  lemma NoneBelow(bits: seq<bool>, stride: nat, height: nat)
    requires stride > 0 && forall p: nat :: p < |bits| && bits[p] ==> FirstRow(p, stride) <= height
    ensures Contained(bits, |bits|, stride, height)
  {
  }

  /** One row on screen, one row to a page, and only page 8 dirty: not contained. */
  lemma OffScreen()
    ensures !Contained(seq(32, i => i == 8), 32, 4096, 1)
  {
    var bits := seq(32, i => i == 8);
    Sticky.DivModUnique(4096 * 8, 4096, 8, 0);
    NoDirty(bits, 8);
    assert bits[8] && FirstRow(8, 4096) > 1 && !Joins(bits, 8, 4096, 1);
  }

  lemma {:induction false} NoDirty(bits: seq<bool>, n: nat)
    requires forall i :: 0 <= i < n && i < |bits| ==> !bits[i]
    ensures Before(bits, n) == -1
  {
    if n > 0 {
      NoDirty(bits, n - 1);
    }
  }

  ghost predicate Holds(rects: seq<Rect>, y0: int, y1: int, row: int) { Covered(rects, row) || y0 <= row < y1 }

  lemma AddDrawn(bits: seq<bool>, p: nat, stride: nat, height: nat, rects0: seq<Rect>, y00: int, y10: int,
                 rects: seq<Rect>, y0: int, y1: int)
    requires stride > 0 && Drawn(bits, p, stride, height, rects0, y00, y10)
    requires forall row :: Holds(rects0, y00, y10, row) ==> Holds(rects, y0, y1, row)
    requires y0 <= FirstRow(p, stride) && (y1 == LastRow(p, stride) + 1 || y1 == height)
    ensures Drawn(bits, p + 1, stride, height, rects, y0, y1)
  {
    hide FirstRow, LastRow, Covered;
    forall q, row: int | 0 <= q < p + 1 && q < |bits| && bits[q] && FirstRow(q, stride) <= row <= LastRow(q, stride) &&
      row < height
      ensures Covered(rects, row) || y0 <= row < y1
    {
      if q < p {
        assert Holds(rects0, y00, y10, row);
        assert Holds(rects, y0, y1, row);
      }
    }
  }

  lemma AddBehind(p: nat, stride: nat, height: nat, y0: int, y1: int)
    requires stride > 0 && 0 <= y0 <= FirstRow(p, stride) && 0 <= y1 <= height && y1 <= LastRow(p, stride) + 1
    ensures Behind(p + 1, stride, height, y0, y1)
  {
    hide FirstRow, LastRow;
    forall q: nat | q >= p + 1
      ensures y0 <= FirstRow(q, stride) && y1 <= LastRow(q, stride) + 1
    {
      PagesOrdered(p, q, stride);
    }
  }

  lemma DrawOne(rects: seq<Rect>, y0: int, y1: int, y0': int, y1': int, row: int)
    requires Holds(rects, y0, y1, row)
    ensures Holds(rects + [Rect(y0, y1 - y0)], y0', y1', row)
  {
    var all := rects + [Rect(y0, y1 - y0)];
    if Covered(rects, row) {
      var i :| 0 <= i < |rects| && InRect(rects[i], row);
      assert InRect(all[i], row);
    } else {
      assert InRect(all[|rects|], row);
    }
  }

  /** Takes one dirty page into the open region, drawing the region first if the page is too far off. */
  method AddPage(bits: seq<bool>, p: nat, stride: nat, height: nat, rects0: seq<Rect>, y00: int, y10: int)
    returns (rects: seq<Rect>, y0: int, y1: int)
    requires stride > 0 && p < |bits| && bits[p]
    requires Drawn(bits, p, stride, height, rects0, y00, y10) && Behind(p, stride, height, y00, y10)
    requires Tracks(bits, p, stride, height, rects0, y00, y10)
    ensures Drawn(bits, p + 1, stride, height, rects, y0, y1) && Behind(p + 1, stride, height, y0, y1)
    ensures Tight(bits, p, stride, rects0, y00, y10) ==> Tight(bits, p + 1, stride, rects, y0, y1)
    ensures Tracks(bits, p + 1, stride, height, rects, y0, y1)
  {
    hide FirstRow, LastRow, Covered, Drawn, Tight, Tracks;
    PagesOrdered(p, p, stride);
    rects, y0, y1 := rects0, y00, y10;
    var pageY0 := FirstRow(p, stride);
    var pageY1 := LastRow(p, stride) + 1;
    pageY1 := if pageY1 < height then pageY1 else height;
    if y0 == y1 {
      y0, y1 := pageY0, pageY1;
    } else if pageY0 <= y1 + MAX_MERGE_DISTANCE {
      y1 := pageY1;
    } else {
      forall row | Holds(rects0, y00, y10, row)
        ensures Holds(rects + [Rect(y0, y1 - y0)], pageY0, pageY1, row)
      {
        DrawOne(rects, y0, y1, pageY0, pageY1, row);
      }
      rects := rects + [Rect(y0, y1 - y0)];
      y0, y1 := pageY0, pageY1;
    }
    AddDrawn(bits, p, stride, height, rects0, y00, y10, rects, y0, y1);
    AddBehind(p, stride, height, y0, y1);
    AddTracks(bits, p, stride, height, rects0, y00, y10, rects, y0, y1);
    if Tight(bits, p, stride, rects0, y00, y10) {
      AddTight(bits, p, stride, rects0, y00, y10, rects, y0, y1);
    }
  }

  lemma AddTight(bits: seq<bool>, p: nat, stride: nat, rects0: seq<Rect>, y00: int, y10: int, rects: seq<Rect>, y0: int,
                 y1: int)
    requires stride > 0 && p < |bits| && bits[p] && Tight(bits, p, stride, rects0, y00, y10)
    requires (rects == rects0 && y0 == y00 && y10 + 3 >= FirstRow(p, stride)) || (y0 == FirstRow(p, stride) &&
             (rects == rects0 || rects == rects0 + [Rect(y00, y10 - y00)]))
    requires y1 <= LastRow(p, stride) + 1
    ensures Tight(bits, p + 1, stride, rects, y0, y1)
  {
    hide FirstRow, LastRow;
    forall row | Holds(rects, y0, y1, row)
      ensures NearDirty(bits, p + 1, stride, row)
    {
      if Covered(rects, row) {
        DrawnWasHeld(rects0, y00, y10, rects, row);
      }
      if Holds(rects0, y00, y10, row) {
        var q :| 0 <= q < p && q < |bits| && bits[q] && FirstRow(q, stride) - 3 <= row <= LastRow(q, stride);
      } else {
        assert FirstRow(p, stride) - 3 <= row <= LastRow(p, stride);
      }
    }
  }

  lemma SkipPage(bits: seq<bool>, p: nat, q: nat, stride: nat, height: nat, rects: seq<Rect>, y0: int, y1: int)
    requires stride > 0 && p <= q && (forall i :: p <= i < q && i < |bits| ==> !bits[i])
    requires Drawn(bits, p, stride, height, rects, y0, y1) && Behind(p, stride, height, y0, y1)
    ensures Drawn(bits, q, stride, height, rects, y0, y1) && Behind(q, stride, height, y0, y1)
    ensures Tight(bits, p, stride, rects, y0, y1) ==> Tight(bits, q, stride, rects, y0, y1)
  {
    hide FirstRow, LastRow, Covered;
    if Tight(bits, p, stride, rects, y0, y1) {
      forall row | Holds(rects, y0, y1, row)
        ensures NearDirty(bits, q, stride, row)
      {
        assert NearDirty(bits, p, stride, row);
      }
    }
  }

  lemma SetAt(bits: seq<bool>, pageIndex: nat, word: seq<bool>, done: nat, b: nat)
    requires |word| == 32 && b <= 32 && pageIndex + 32 <= |bits| && forall i :: 0 <= i < b ==> !word[i]
    requires forall i :: 0 <= i < 32 ==> word[i] == (done <= i && bits[pageIndex + i])
    ensures forall i :: pageIndex + done <= i < pageIndex + b ==> !bits[i]
  {
    forall i | pageIndex + done <= i < pageIndex + b
      ensures !bits[i]
    {
      assert !word[i - pageIndex];
    }
  }

  lemma StartBehind(stride: nat, height: nat)
    requires stride > 0
    ensures Behind(0, stride, height, 0, 0)
  {
  }

  /** Once the open region is drawn, or is empty, everything is. */
  lemma AllDrawn(bits: seq<bool>, n: int, stride: nat, height: nat, rects0: seq<Rect>, y0: int, y1: int,
                 rects: seq<Rect>)
    requires stride > 0 && |bits| <= n && Drawn(bits, n, stride, height, rects0, y0, y1)
    requires Behind(n, stride, height, y0, y1)
    requires rects == if y0 == y1 then rects0 else rects0 + [Rect(y0, y1 - y0)]
    requires Tight(bits, n, stride, rects0, y0, y1)
    ensures Drawn(bits, |bits|, stride, height, rects, 0, 0)
    ensures forall row :: Covered(rects, row) ==> NearDirty(bits, |bits|, stride, row)
  {
    hide FirstRow, LastRow, Covered;
    forall p, row: int | 0 <= p < |bits| && bits[p] && FirstRow(p, stride) <= row <= LastRow(p, stride) && row < height
      ensures Covered(rects, row)
    {
      assert Holds(rects0, y0, y1, row);
      if y0 != y1 {
        DrawOne(rects0, y0, y1, 0, 0, row);
        assert Holds(rects, 0, 0, row);
      }
    }
    forall row | Covered(rects, row)
      ensures NearDirty(bits, |bits|, stride, row)
    {
      DrawnWasHeld(rects0, y0, y1, rects, row);
      assert NearDirty(bits, n, stride, row);
    }
  }

  lemma DrawnWasHeld(rects0: seq<Rect>, y0: int, y1: int, rects: seq<Rect>, row: int)
    requires (rects == rects0 || rects == rects0 + [Rect(y0, y1 - y0)]) && Covered(rects, row)
    ensures Holds(rects0, y0, y1, row)
  {
    var i :| 0 <= i < |rects| && InRect(rects[i], row);
    if i < |rects0| {
      assert InRect(rects0[i], row);
    }
  }

  lemma StartTight(bits: seq<bool>, stride: nat)
    requires stride > 0
    ensures Tight(bits, 0, stride, [], 0, 0)
  {
  }

  lemma StartTracks(bits: seq<bool>, stride: nat, height: nat)
    requires stride > 0
    ensures Tracks(bits, 0, stride, height, [], 0, 0)
  {
  }

  lemma BehindIs(n: int, stride: nat, height: nat, y0: int, y1: int)
    requires stride > 0 && Behind(n, stride, height, y0, y1)
    ensures 0 <= y0 && y1 <= height
  {
  }

  /** The 32 pages of one word, lowest set bit first. */
  method RefreshWord(bits: seq<bool>, pageIndex: nat, stride: nat, height: nat, rects0: seq<Rect>, y00: int, y10: int)
    returns (rects: seq<Rect>, y0: int, y1: int)
    requires stride > 0 && pageIndex + 32 <= |bits|
    requires Drawn(bits, pageIndex, stride, height, rects0, y00, y10) && Behind(pageIndex, stride, height, y00, y10)
    requires Tracks(bits, pageIndex, stride, height, rects0, y00, y10)
    ensures Drawn(bits, pageIndex + 32, stride, height, rects, y0, y1) && Behind(pageIndex + 32, stride, height, y0, y1)
    ensures Tight(bits, pageIndex, stride, rects0, y00, y10) ==> Tight(bits, pageIndex + 32, stride, rects, y0, y1)
    ensures Tracks(bits, pageIndex + 32, stride, height, rects, y0, y1)
  {
    hide FirstRow, LastRow, Covered, Behind, Drawn, Tight, Tracks;
    rects, y0, y1 := rects0, y00, y10;
    var word := bits[pageIndex..pageIndex + 32];
    var bitPos, done := 0, 0;
    while exists i :: 0 <= i < 32 && word[i]
      invariant |word| == 32 && 0 <= done <= 32 && 0 <= bitPos < 32 && bitPos <= done <= bitPos + 1
      invariant forall i :: 0 <= i < 32 ==> word[i] == (done <= i && bits[pageIndex + i])
      invariant Drawn(bits, pageIndex + done, stride, height, rects, y0, y1) &&
                Behind(pageIndex + done, stride, height, y0, y1)
      invariant Tight(bits, pageIndex, stride, rects0, y00, y10) ==>
                  Tight(bits, pageIndex + done, stride, rects, y0, y1)
      invariant Tracks(bits, pageIndex + done, stride, height, rects, y0, y1)
      decreases 32 - done
    {
      while !word[bitPos]
        invariant 0 <= bitPos < 32 && done <= bitPos + 1 && forall i :: 0 <= i < bitPos ==> !word[i]
        decreases 32 - bitPos
      {
        bitPos := bitPos + 1;
      }
      SetAt(bits, pageIndex, word, done, bitPos);
      SkipPage(bits, pageIndex + done, pageIndex + bitPos, stride, height, rects, y0, y1);
      SkipTracks(bits, pageIndex + done, pageIndex + bitPos, stride, height, rects, y0, y1);
      word := word[bitPos := false];
      rects, y0, y1 := AddPage(bits, pageIndex + bitPos, stride, height, rects, y0, y1);
      done := bitPos + 1;
    }
    SetAt(bits, pageIndex, word, done, 32);
    SkipPage(bits, pageIndex + done, pageIndex + 32, stride, height, rects, y0, y1);
    SkipTracks(bits, pageIndex + done, pageIndex + 32, stride, height, rects, y0, y1);
  }

  /** Redraws every row of every dirty page, merging nearby pages, a word of 32 pages at a time. */
  method Refresh(bits: seq<bool>, pageCount: nat, stride: nat, height: nat) returns (rects: seq<Rect>)
    requires stride > 0 && |bits| == (pageCount + 31) / 32 * 32
    ensures forall p, row: int ::
              0 <= p < |bits| && bits[p] && FirstRow(p, stride) <= row <= LastRow(p, stride) && row < height ==>
                Covered(rects, row)
    ensures forall row :: Covered(rects, row) ==> NearDirty(bits, |bits|, stride, row)
    ensures OnScreen(rects, height) <==> Contained(bits, |bits|, stride, height)
  {
    hide FirstRow, LastRow, Covered, Behind, NearDirty, Tracks, Contained, OnScreen;
    var y0: int, y1: int := 0, 0;
    rects := [];
    StartBehind(stride, height);
    StartTight(bits, stride);
    StartTracks(bits, stride, height);
    var pageIndex := 0;
    while pageIndex < pageCount
      invariant pageIndex % 32 == 0 && pageIndex <= |bits|
      invariant Drawn(bits, pageIndex, stride, height, rects, y0, y1) && Behind(pageIndex, stride, height, y0, y1)
      invariant Tight(bits, pageIndex, stride, rects, y0, y1)
      invariant Tracks(bits, pageIndex, stride, height, rects, y0, y1)
    {
      rects, y0, y1 := RefreshWord(bits, pageIndex, stride, height, rects, y0, y1);
      pageIndex := pageIndex + 32;
    }
    ghost var before := rects;
    if y0 != y1 {
      rects := rects + [Rect(y0, y1 - y0)];
    }
    AllDrawn(bits, pageIndex, stride, height, before, y0, y1, rects);
    BehindIs(pageIndex, stride, height, y0, y1);
    EndTracks(bits, pageIndex, stride, height, before, y0, y1, rects);
  }

  /** Stored to, or changed other than by a page walk's own write, since the range was last shown. */
  ghost predicate Touched(x: Loc, r: int, ram: Ram, shown: Ram, stored: set<Loc>, marked: set<Loc>)
  {
    x.range == r && (x in stored || (ByteAt(ram, x) != ByteAt(shown, x) && x !in marked))
  }

  /** A refresh redraws the row of every byte touched since the last one, if the row is on screen. */
  method RefreshScreen(cpu: Cpu, fb: nat, stride: nat, height: nat) returns (rects: seq<Rect>)
    requires cpu.Valid() && fb < |cpu.ranges| && cpu.ranges[fb].isRam && cpu.ranges[fb].tracked && stride > 0
    modifies cpu`dirty, cpu`shown, cpu`stored, cpu`marked, cpu.tlbWrite
    ensures cpu.Valid()
    ensures forall x: Loc ::
              Touched(x, fb, cpu.ram, old(cpu.shown), old(cpu.stored), old(cpu.marked)) && x.offset >= 0 ==>
                Quot(x.offset, stride) < height ==> Covered(rects, Quot(x.offset, stride))
    ensures forall x: Loc :: x.range == fb ==> ByteAt(cpu.shown, x) == ByteAt(cpu.ram, x) && x !in cpu.stored
  {
    hide Covered, FirstRow, LastRow;
    ghost var shown, stored, marked := cpu.shown, cpu.stored, cpu.marked;
    var bits := cpu.GetDirtyBits(fb);
    rects := Refresh(bits, cpu.ranges[fb].size / 4096, stride, height);
    forall x: Loc | Touched(x, fb, cpu.ram, shown, stored, marked) && x.offset >= 0 && Quot(x.offset, stride) < height
      ensures Covered(rects, Quot(x.offset, stride))
    {
      ByteOnPage(x.offset, stride);
    }
  }

  /** Whatever a store wrote into the frame buffer, up to its first fault, the next refresh redraws: cached page or
      not, and whatever else happened before. */
  method StoreThenRefresh(cpu: Cpu, a: nat, v: nat, n: nat, fb: nat, stride: nat, height: nat)
    returns (r: StoreResult, rects: seq<Rect>)
    requires cpu.Valid() && fb < |cpu.ranges| && cpu.ranges[fb].isRam && cpu.ranges[fb].tracked && stride > 0
    requires a < TWO_64 && IsSize(n)
    modifies cpu, cpu.tlbWrite
    ensures cpu.Valid()
    ensures var w := old(ViewOf(cpu.Control()));
            QuietRun(cpu.ranges, if a % n == 0 then old(cpu.since) else cpu.since, w) ==>
              (r.Done? <==> Reach(cpu.ranges, old(cpu.ram), w.data, a, n) == n) &&
              forall x :: x in WrittenBy(cpu.ranges, old(cpu.ram), w.data, a, n) && x.range == fb && x.offset >= 0 ==>
                Quot(x.offset, stride) < height ==> Covered(rects, Quot(x.offset, stride))
  {
    hide Covered, WrittenBy, Reach, QuietRun, ViewOf, StoreAny;
    r := cpu.WriteU(a, v, n);
    rects := RefreshScreen(cpu, fb, stride, height);
  }

  lemma ByteOnPage(o: nat, stride: nat)
    requires stride > 0
    ensures FirstRow(o / 4096, stride) <= Quot(o, stride) <= LastRow(o / 4096, stride)
  {
    hide Quot;
    RowsOrdered(4096 * (o / 4096), o, stride);
    RowsOrdered(o, 4096 * (o / 4096) + 4095, stride);
  }
}
