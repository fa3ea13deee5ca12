/** The frame scheduler as functions of the world's cells: one dispatch of a
    cell, one row scanned in the frame's column direction, the rows scanned
    from the bottom up, and the lemmas about a whole frame. */
module Scheduler {
  import opened Grid
  import opened SandRule

  /** Whether (x, y) is inside the world and holds sand. */
  predicate SandAt(s: seq<CellType>, w: nat, h: nat, x: int, y: int)
    requires |s| == w * h
  {
    InBounds(w, h, x, y) && s[Index(w, h, x, y)] == Sand
  }

  /** The column visited `j`-th in a row: left to right on even frames,
      right to left on odd frames. */
  function Col(w: nat, isEven: bool, j: int): int
  {
    if isEven then j else w - 1 - j
  }

  /** How many columns of a row are visited before column `x`. */
  function ScanPos(w: nat, isEven: bool, x: int): (j: int)
    ensures Col(w, isEven, j) == x
  {
    if isEven then x else w - 1 - x
  }

  /** One cell visited by the scheduler: a sand cell is handed to the falling
      rule, and when the grain moved its old cell is cleared; an empty cell is
      left alone. */
  function Dispatch(s: seq<CellType>, w: nat, h: nat, x: int, y: int, isEven: bool): (r: seq<CellType>)
    requires |s| == w * h && InBounds(w, h, x, y)
    ensures |r| == |s|
  {
    if s[Index(w, h, x, y)] == Sand then
      var moved := SandMove(s, w, h, x, y, Sand, isEven);
      if moved.1 then moved.0[Index(w, h, x, y) := None] else moved.0
    else
      s
  }

  /** The world after visiting the first `n` columns of row `y`. */
  function ScanRow(s: seq<CellType>, w: nat, h: nat, y: int, isEven: bool, n: nat): (r: seq<CellType>)
    requires |s| == w * h && 0 <= y < h && n <= w
    ensures |r| == |s|
    decreases n
  {
    if n == 0 then s
    else Dispatch(ScanRow(s, w, h, y, isEven, n - 1), w, h, Col(w, isEven, n - 1), y, isEven)
  }

  /** The world after scanning the bottom `m` rows, bottom row first. */
  function ScanRows(s: seq<CellType>, w: nat, h: nat, isEven: bool, m: nat): (r: seq<CellType>)
    requires |s| == w * h && m <= h
    ensures |r| == |s|
    decreases m
  {
    if m == 0 then s
    else ScanRow(ScanRows(s, w, h, isEven, m - 1), w, h, h - m, isEven, w)
  }

  /** One frame: every row scanned, bottom to top, in the column direction
      chosen by the parity of the frame number. */
  function Step(s: seq<CellType>, w: nat, h: nat, frame: nat): (r: seq<CellType>)
    requires |s| == w * h
    ensures |r| == |s|
  {
    ScanRows(s, w, h, frame % 2 == 0, h)
  }

  /** `k` consecutive frames starting at frame number `frame`. */
  function Run(s: seq<CellType>, w: nat, h: nat, frame: nat, k: nat): (r: seq<CellType>)
    requires |s| == w * h
    ensures |r| == |s|
    decreases k
  {
    if k == 0 then s else Run(Step(s, w, h, frame), w, h, frame + 1, k - 1)
  }

  // ---------------------------------------------------------------------
  // One dispatch

  /** A dispatch either changes nothing, or moves a grain from (x, y) into
      one free cell of the row below, at most one column to either side. */
  lemma DispatchShape(s: seq<CellType>, w: nat, h: nat, x: int, y: int, isEven: bool)
    requires |s| == w * h && InBounds(w, h, x, y)
    ensures var r := Dispatch(s, w, h, x, y, isEven);
      r == s || (y < h - 1 && s[Index(w, h, x, y)] == Sand &&
                 exists c {:trigger Free(s, w, h, c, y + 1)} :: x - 1 <= c <= x + 1 && Free(s, w, h, c, y + 1)
                   && r == s[Index(w, h, c, y + 1) := Sand][Index(w, h, x, y) := None])
  {
  }

  /** A dispatch changes no cell other than (x, y) and the row below it. */
  lemma DispatchFrame(s: seq<CellType>, w: nat, h: nat, x: int, y: int, isEven: bool)
    requires |s| == w * h && InBounds(w, h, x, y)
    ensures forall c, r :: (InBounds(w, h, c, r) && r != y + 1 && (r != y || c != x)
      ==> Dispatch(s, w, h, x, y, isEven)[Index(w, h, c, r)] == s[Index(w, h, c, r)])
  {
    var d := Dispatch(s, w, h, x, y, isEven);
    DispatchShape(s, w, h, x, y, isEven);
    if d != s {
      var t :| x - 1 <= t <= x + 1 && Free(s, w, h, t, y + 1)
        && d == s[Index(w, h, t, y + 1) := Sand][Index(w, h, x, y) := None];
      forall c, r | InBounds(w, h, c, r) && r != y + 1 && (r != y || c != x)
        ensures d[Index(w, h, c, r)] == s[Index(w, h, c, r)]
      {
        IndexInjective(w, h, c, r, t, y + 1);
        IndexInjective(w, h, c, r, x, y);
      }
    }
  }

  /** A dispatch neither creates nor destroys sand: the cells before and
      after are the same multiset. */
  lemma DispatchConserves(s: seq<CellType>, w: nat, h: nat, x: int, y: int, isEven: bool)
    requires |s| == w * h && InBounds(w, h, x, y)
    ensures multiset(Dispatch(s, w, h, x, y, isEven)) == multiset(s)
  {
  }

  // ---------------------------------------------------------------------
  // Conservation of sand over a frame

  lemma {:induction false} ScanRowConserves(s: seq<CellType>, w: nat, h: nat, y: int, isEven: bool, n: nat)
    requires |s| == w * h && 0 <= y < h && n <= w
    ensures multiset(ScanRow(s, w, h, y, isEven, n)) == multiset(s)
    decreases n
  {
    if n > 0 {
      ScanRowConserves(s, w, h, y, isEven, n - 1);
      DispatchConserves(ScanRow(s, w, h, y, isEven, n - 1), w, h, Col(w, isEven, n - 1), y, isEven);
    }
  }

  lemma {:induction false} ScanRowsConserves(s: seq<CellType>, w: nat, h: nat, isEven: bool, m: nat)
    requires |s| == w * h && m <= h
    ensures multiset(ScanRows(s, w, h, isEven, m)) == multiset(s)
    decreases m
  {
    if m > 0 {
      ScanRowsConserves(s, w, h, isEven, m - 1);
      ScanRowConserves(ScanRows(s, w, h, isEven, m - 1), w, h, h - m, isEven, w);
    }
  }

  /** A frame is a permutation of the cells; in particular it keeps the
      number of sand cells. */
  lemma StepConservesSand(s: seq<CellType>, w: nat, h: nat, frame: nat)
    requires |s| == w * h
    ensures multiset(Step(s, w, h, frame)) == multiset(s)
    ensures multiset(Step(s, w, h, frame))[Sand] == multiset(s)[Sand]
  {
    ScanRowsConserves(s, w, h, frame % 2 == 0, h);
  }

  // ---------------------------------------------------------------------
  // The bottom row

  /** Whether column `x` of the bottom row holds sand. */
  predicate BottomSand(s: seq<CellType>, w: nat, h: nat, x: int)
    requires |s| == w * h
  {
    SandAt(s, w, h, x, h - 1)
  }

  /** Sand in the bottom row is never cleared by a dispatch. */
  lemma DispatchKeepsBottomSand(s: seq<CellType>, w: nat, h: nat, x: int, y: int, isEven: bool)
    requires |s| == w * h && InBounds(w, h, x, y)
    ensures forall c :: BottomSand(s, w, h, c) ==> BottomSand(Dispatch(s, w, h, x, y, isEven), w, h, c)
  {
  }

  lemma {:induction false} ScanRowKeepsBottomSand(s: seq<CellType>, w: nat, h: nat, y: int, isEven: bool, n: nat)
    requires |s| == w * h && 0 <= y < h && n <= w
    ensures forall c :: BottomSand(s, w, h, c) ==> BottomSand(ScanRow(s, w, h, y, isEven, n), w, h, c)
    decreases n
  {
    if n > 0 {
      ScanRowKeepsBottomSand(s, w, h, y, isEven, n - 1);
      DispatchKeepsBottomSand(ScanRow(s, w, h, y, isEven, n - 1), w, h, Col(w, isEven, n - 1), y, isEven);
    }
  }

  lemma {:induction false} ScanRowsKeepBottomSand(s: seq<CellType>, w: nat, h: nat, isEven: bool, m: nat)
    requires |s| == w * h && m <= h
    ensures forall c :: BottomSand(s, w, h, c) ==> BottomSand(ScanRows(s, w, h, isEven, m), w, h, c)
    decreases m
  {
    if m > 0 {
      ScanRowsKeepBottomSand(s, w, h, isEven, m - 1);
      ScanRowKeepsBottomSand(ScanRows(s, w, h, isEven, m - 1), w, h, h - m, isEven, w);
    }
  }

  /** Sand in the bottom row is still there after a frame. */
  lemma StepKeepsBottomSand(s: seq<CellType>, w: nat, h: nat, frame: nat)
    requires |s| == w * h
    ensures forall c :: BottomSand(s, w, h, c) ==> BottomSand(Step(s, w, h, frame), w, h, c)
  {
    ScanRowsKeepBottomSand(s, w, h, frame % 2 == 0, h);
  }

  // ---------------------------------------------------------------------
  // Scan order: no cell is visited after it has been written

  /** Visiting the first `n` columns of row `y` changes no cell of a higher
      row and no cell of row `y` that is still to be visited. */
  lemma {:induction false} ScanRowAhead(s: seq<CellType>, w: nat, h: nat, y: int, isEven: bool, n: nat)
    requires |s| == w * h && 0 <= y < h && n <= w
    ensures forall c, r :: (InBounds(w, h, c, r) && (r < y || (r == y && ScanPos(w, isEven, c) >= n))
      ==> ScanRow(s, w, h, y, isEven, n)[Index(w, h, c, r)] == s[Index(w, h, c, r)])
    decreases n
  {
    if n > 0 {
      ScanRowAhead(s, w, h, y, isEven, n - 1);
      DispatchFrame(ScanRow(s, w, h, y, isEven, n - 1), w, h, Col(w, isEven, n - 1), y, isEven);
    }
  }

  /** Scanning the bottom `m` rows changes no cell above them. */
  lemma {:induction false} ScanRowsAhead(s: seq<CellType>, w: nat, h: nat, isEven: bool, m: nat)
    requires |s| == w * h && m <= h
    ensures forall c, r :: (InBounds(w, h, c, r) && r < h - m
      ==> ScanRows(s, w, h, isEven, m)[Index(w, h, c, r)] == s[Index(w, h, c, r)])
    decreases m
  {
    if m > 0 {
      ScanRowsAhead(s, w, h, isEven, m - 1);
      ScanRowAhead(ScanRows(s, w, h, isEven, m - 1), w, h, h - m, isEven, w);
    }
  }

  /** When the scheduler reaches the `j`-th column of row `y`, that cell
      still holds what it held when the frame began: a grain moved earlier
      in the frame only lands in cells already visited, so no grain is
      dispatched twice in one frame. */
  lemma DispatchSeesFrameStart(s: seq<CellType>, w: nat, h: nat, isEven: bool, y: int, j: int)
    requires |s| == w * h && 0 <= y < h && 0 <= j < w
    ensures ScanRow(ScanRows(s, w, h, isEven, h - 1 - y), w, h, y, isEven, j)[Index(w, h, Col(w, isEven, j), y)]
         == s[Index(w, h, Col(w, isEven, j), y)]
  {
    var t := ScanRows(s, w, h, isEven, h - 1 - y);
    ScanRowsAhead(s, w, h, isEven, h - 1 - y);
    ScanRowAhead(t, w, h, y, isEven, j);
    assert ScanPos(w, isEven, Col(w, isEven, j)) == j;
  }

  // ---------------------------------------------------------------------
  // Every sand cell is fed from at most one row above

  /** Sand at (x, y) is accounted for by sand in the frame-start world either
      at (x, y) itself or in one of the three cells above it. */
  predicate FedFrom(s0: seq<CellType>, w: nat, h: nat, x: int, y: int)
    requires |s0| == w * h
  {
    SandAt(s0, w, h, x, y) ||
    SandAt(s0, w, h, x - 1, y - 1) || SandAt(s0, w, h, x, y - 1) || SandAt(s0, w, h, x + 1, y - 1)
  }

  /** Dispatching a cell that still holds its frame-start content keeps
      every sand cell accounted for by the frame-start world. */
  lemma DispatchFed(s0: seq<CellType>, p: seq<CellType>, w: nat, h: nat, x: int, y: int, isEven: bool)
    requires |s0| == w * h && |p| == w * h && InBounds(w, h, x, y)
    requires forall c, r :: SandAt(p, w, h, c, r) ==> FedFrom(s0, w, h, c, r)
    requires p[Index(w, h, x, y)] == s0[Index(w, h, x, y)]
    ensures forall c, r :: SandAt(Dispatch(p, w, h, x, y, isEven), w, h, c, r) ==> FedFrom(s0, w, h, c, r)
  {
    var d := Dispatch(p, w, h, x, y, isEven);
    DispatchShape(p, w, h, x, y, isEven);
    if d != p {
      var t :| x - 1 <= t <= x + 1 && Free(p, w, h, t, y + 1)
        && d == p[Index(w, h, t, y + 1) := Sand][Index(w, h, x, y) := None];
      forall c, r | SandAt(d, w, h, c, r) ensures FedFrom(s0, w, h, c, r) {
        IndexInjective(w, h, c, r, t, y + 1);
        IndexInjective(w, h, c, r, x, y);
        if c == t && r == y + 1 {
          assert SandAt(s0, w, h, x, y);
        } else {
          assert SandAt(p, w, h, c, r);
        }
      }
    }
  }

  lemma {:induction false} ScanRowFed(s0: seq<CellType>, s: seq<CellType>, w: nat, h: nat, y: int, isEven: bool, n: nat)
    requires |s0| == w * h && |s| == w * h && 0 <= y < h && n <= w
    requires forall c, r :: SandAt(s, w, h, c, r) ==> FedFrom(s0, w, h, c, r)
    requires forall c, r :: InBounds(w, h, c, r) && r <= y ==> s[Index(w, h, c, r)] == s0[Index(w, h, c, r)]
    ensures forall c, r :: SandAt(ScanRow(s, w, h, y, isEven, n), w, h, c, r) ==> FedFrom(s0, w, h, c, r)
    decreases n
  {
    if n > 0 {
      var x := Col(w, isEven, n - 1);
      ScanRowFed(s0, s, w, h, y, isEven, n - 1);
      ScanRowAhead(s, w, h, y, isEven, n - 1);
      assert ScanPos(w, isEven, x) == n - 1;
      DispatchFed(s0, ScanRow(s, w, h, y, isEven, n - 1), w, h, x, y, isEven);
    }
  }

  lemma {:induction false} ScanRowsFed(s: seq<CellType>, w: nat, h: nat, isEven: bool, m: nat)
    requires |s| == w * h && m <= h
    ensures forall c, r :: SandAt(ScanRows(s, w, h, isEven, m), w, h, c, r) ==> FedFrom(s, w, h, c, r)
    decreases m
  {
    if m > 0 {
      ScanRowsFed(s, w, h, isEven, m - 1);
      ScanRowsAhead(s, w, h, isEven, m - 1);
      ScanRowFed(s, ScanRows(s, w, h, isEven, m - 1), w, h, h - m, isEven, w);
    }
  }

  /** After a frame every sand cell was sand at the start of the frame, or
      one of the three cells directly above it was. This speaks of cells;
      `StepMovesEachGrain` follows the grains themselves. */
  lemma StepDescendsAtMostOneRow(s: seq<CellType>, w: nat, h: nat, frame: nat)
    requires |s| == w * h
    ensures forall c, r :: SandAt(Step(s, w, h, frame), w, h, c, r) ==> FedFrom(s, w, h, c, r)
  {
    ScanRowsFed(s, w, h, frame % 2 == 0, h);
  }

  /** The three frame-level guarantees together: sand is conserved, bottom-row
      sand stays, and every sand cell is fed from the frame-start world. */
  lemma FrameProperties(s: seq<CellType>, w: nat, h: nat, frame: nat)
    requires |s| == w * h
    ensures multiset(Step(s, w, h, frame)) == multiset(s)
    ensures forall c :: BottomSand(s, w, h, c) ==> BottomSand(Step(s, w, h, frame), w, h, c)
    ensures forall c, r :: SandAt(Step(s, w, h, frame), w, h, c, r) ==> FedFrom(s, w, h, c, r)
  {
    StepConservesSand(s, w, h, frame);
    StepKeepsBottomSand(s, w, h, frame);
    StepDescendsAtMostOneRow(s, w, h, frame);
  }

  // ---------------------------------------------------------------------
  // Where each grain goes: a one-to-one account of a frame

  /** The world as the scheduler finds it when it reaches (x, y): the rows
      below fully scanned and the cells of row `y` before (x, y) visited. */
  function Reached(s: seq<CellType>, w: nat, h: nat, isEven: bool, x: int, y: int): (r: seq<CellType>)
    requires |s| == w * h && InBounds(w, h, x, y)
    ensures |r| == |s|
  {
    ScanRow(ScanRows(s, w, h, isEven, h - 1 - y), w, h, y, isEven, ScanPos(w, isEven, x))
  }

  /** The cell in which the grain that starts the frame at (x, y) ends it:
      the cell it claims when the scheduler reaches it, or (x, y) itself when
      it claims none. */
  function Landing(s: seq<CellType>, w: nat, h: nat, isEven: bool, x: int, y: int): (l: (int, int))
    requires |s| == w * h && InBounds(w, h, x, y)
    ensures InBounds(w, h, l.0, l.1)
    ensures l == (x, y) || (l.1 == y + 1 && x - 1 <= l.0 <= x + 1 && Free(Reached(s, w, h, isEven, x, y), w, h, l.0, l.1))
  {
    match SandTarget(Reached(s, w, h, isEven, x, y), w, h, x, y, isEven)
    case Stay => (x, y)
    case MoveTo(c) => (c, y + 1)
  }

  /** Whether (c, r) has been visited by the time the scheduler reaches the
      `j`-th column of row `y`. */
  predicate VisitedBefore(w: nat, isEven: bool, y: int, j: int, c: int, r: int)
  {
    r > y || (r == y && ScanPos(w, isEven, c) < j)
  }

  /** Visiting a frame-start grain moves it from (x, y) to its landing cell. */
  lemma VisitMovesToLanding(s: seq<CellType>, w: nat, h: nat, isEven: bool, x: int, y: int)
    requires |s| == w * h && SandAt(s, w, h, x, y)
    ensures var p, l := Reached(s, w, h, isEven, x, y), Landing(s, w, h, isEven, x, y);
      p[Index(w, h, x, y)] == Sand &&
      Dispatch(p, w, h, x, y, isEven)
        == if l == (x, y) then p else p[Index(w, h, l.0, l.1) := Sand][Index(w, h, x, y) := None]
  {
    DispatchSeesFrameStart(s, w, h, isEven, y, ScanPos(w, isEven, x));
  }

  /** A dispatch removes sand only from the cell it visits. */
  lemma DispatchKeepsSand(s: seq<CellType>, w: nat, h: nat, x: int, y: int, isEven: bool, c: int, r: int)
    requires |s| == w * h && InBounds(w, h, x, y) && (c != x || r != y) && SandAt(s, w, h, c, r)
    ensures SandAt(Dispatch(s, w, h, x, y, isEven), w, h, c, r)
  {
    DispatchShape(s, w, h, x, y, isEven);
    IndexInjective(w, h, c, r, x, y);
  }

  /** Sand stays where it is while the scan of row `y` visits other cells. */
  lemma {:induction false} ScanRowKeepsSand(s: seq<CellType>, w: nat, h: nat, y: int, isEven: bool, k: nat, n: nat, c: int, r: int)
    requires |s| == w * h && 0 <= y < h && k <= n <= w
    requires SandAt(ScanRow(s, w, h, y, isEven, k), w, h, c, r)
    requires r != y || ScanPos(w, isEven, c) < k
    ensures SandAt(ScanRow(s, w, h, y, isEven, n), w, h, c, r)
    decreases n
  {
    if n > k {
      ScanRowKeepsSand(s, w, h, y, isEven, k, n - 1, c, r);
      DispatchKeepsSand(ScanRow(s, w, h, y, isEven, n - 1), w, h, Col(w, isEven, n - 1), y, isEven, c, r);
    }
  }

  /** Sand in a row already scanned stays while further rows are scanned. */
  lemma {:induction false} ScanRowsKeepSand(s: seq<CellType>, w: nat, h: nat, isEven: bool, k: nat, m: nat, c: int, r: int)
    requires |s| == w * h && k <= m <= h
    requires SandAt(ScanRows(s, w, h, isEven, k), w, h, c, r) && r >= h - k
    ensures SandAt(ScanRows(s, w, h, isEven, m), w, h, c, r)
    decreases m
  {
    if m > k {
      ScanRowsKeepSand(s, w, h, isEven, k, m - 1, c, r);
      ScanRowKeepsSand(ScanRows(s, w, h, isEven, m - 1), w, h, h - m, isEven, 0, w, c, r);
    }
  }

  /** Right after its visit, a frame-start grain is in its landing cell. */
  lemma LandedAfterVisit(s: seq<CellType>, w: nat, h: nat, isEven: bool, x: int, y: int)
    requires |s| == w * h && SandAt(s, w, h, x, y)
    ensures var l := Landing(s, w, h, isEven, x, y);
      SandAt(ScanRow(ScanRows(s, w, h, isEven, h - 1 - y), w, h, y, isEven, ScanPos(w, isEven, x) + 1), w, h, l.0, l.1)
  {
    var l := Landing(s, w, h, isEven, x, y);
    VisitMovesToLanding(s, w, h, isEven, x, y);
    IndexInjective(w, h, l.0, l.1, x, y);
  }

  /** Once the grain from (x1, y1) has landed, its landing cell holds sand
      whenever the scheduler reaches a later cell (x2, y2) of the frame. */
  lemma LandingKept(s: seq<CellType>, w: nat, h: nat, isEven: bool, x1: int, y1: int, x2: int, y2: int)
    requires |s| == w * h && SandAt(s, w, h, x1, y1) && InBounds(w, h, x2, y2)
    requires y2 < y1 || (y2 == y1 && ScanPos(w, isEven, x1) < ScanPos(w, isEven, x2))
    ensures var l := Landing(s, w, h, isEven, x1, y1);
      SandAt(Reached(s, w, h, isEven, x2, y2), w, h, l.0, l.1)
  {
    var l := Landing(s, w, h, isEven, x1, y1);
    LandedAfterVisit(s, w, h, isEven, x1, y1);
    SandKeptUntilReached(s, w, h, isEven, y1, ScanPos(w, isEven, x1) + 1, x2, y2, l.0, l.1);
  }

  /** Sand at (c, r) once `k` cells of row `y1` are visited stays until the
      scheduler reaches a later cell (x2, y2), provided (c, r) is not among
      the cells visited in between. */
  lemma SandKeptUntilReached(s: seq<CellType>, w: nat, h: nat, isEven: bool, y1: int, k: nat, x2: int, y2: int, c: int, r: int)
    requires |s| == w * h && 0 <= y1 < h && k <= w && InBounds(w, h, x2, y2)
    requires y2 < y1 || (y2 == y1 && k <= ScanPos(w, isEven, x2))
    requires r > y1 || (r == y1 && ScanPos(w, isEven, c) < k)
    requires SandAt(ScanRow(ScanRows(s, w, h, isEven, h - 1 - y1), w, h, y1, isEven, k), w, h, c, r)
    ensures SandAt(Reached(s, w, h, isEven, x2, y2), w, h, c, r)
  {
    var t := ScanRows(s, w, h, isEven, h - 1 - y1);
    if y2 == y1 {
      ScanRowKeepsSand(t, w, h, y1, isEven, k, ScanPos(w, isEven, x2), c, r);
    } else {
      ScanRowKeepsSand(t, w, h, y1, isEven, k, w, c, r);
      RowsBelowKeepSand(s, w, h, isEven, y1, x2, y2, c, r);
    }
  }

  /** Sand in a cell at or below row `y1`, present once row `y1` is scanned,
      is still there when the scheduler reaches (x2, y2) in a higher row. */
  lemma RowsBelowKeepSand(s: seq<CellType>, w: nat, h: nat, isEven: bool, y1: int, x2: int, y2: int, c: int, r: int)
    requires |s| == w * h && InBounds(w, h, x2, y2) && y2 < y1 < h && r >= y1
    requires SandAt(ScanRow(ScanRows(s, w, h, isEven, h - 1 - y1), w, h, y1, isEven, w), w, h, c, r)
    ensures SandAt(Reached(s, w, h, isEven, x2, y2), w, h, c, r)
  {
    assert ScanRow(ScanRows(s, w, h, isEven, h - 1 - y1), w, h, y1, isEven, w) == ScanRows(s, w, h, isEven, h - y1);
    ScanRowsKeepSand(s, w, h, isEven, h - y1, h - 1 - y2, c, r);
    ScanRowKeepsSand(ScanRows(s, w, h, isEven, h - 1 - y2), w, h, y2, isEven, 0, ScanPos(w, isEven, x2), c, r);
  }

  /** Every grain of the frame-start world is in its landing cell when the
      frame is over. */
  lemma GrainLands(s: seq<CellType>, w: nat, h: nat, isEven: bool, x: int, y: int)
    requires |s| == w * h && SandAt(s, w, h, x, y)
    ensures var l := Landing(s, w, h, isEven, x, y);
      SandAt(ScanRows(s, w, h, isEven, h), w, h, l.0, l.1)
  {
    var l := Landing(s, w, h, isEven, x, y);
    var t := ScanRows(s, w, h, isEven, h - 1 - y);
    LandedAfterVisit(s, w, h, isEven, x, y);
    ScanRowKeepsSand(t, w, h, y, isEven, ScanPos(w, isEven, x) + 1, w, l.0, l.1);
    assert ScanRow(t, w, h, y, isEven, w) == ScanRows(s, w, h, isEven, h - y);
    ScanRowsKeepSand(s, w, h, isEven, h - y, h, l.0, l.1);
  }

  /** Two different grains of the frame-start world never land in the same
      cell. */
  lemma LandingInjective(s: seq<CellType>, w: nat, h: nat, isEven: bool, x1: int, y1: int, x2: int, y2: int)
    requires |s| == w * h && SandAt(s, w, h, x1, y1) && SandAt(s, w, h, x2, y2)
    ensures Landing(s, w, h, isEven, x1, y1) == Landing(s, w, h, isEven, x2, y2) <==> x1 == x2 && y1 == y2
  {
    if Landing(s, w, h, isEven, x1, y1) == Landing(s, w, h, isEven, x2, y2) && (x1 != x2 || y1 != y2) {
      if y2 < y1 || (y2 == y1 && ScanPos(w, isEven, x1) < ScanPos(w, isEven, x2)) {
        LandingKept(s, w, h, isEven, x1, y1, x2, y2);
      } else {
        LandingKept(s, w, h, isEven, x2, y2, x1, y1);
      }
      assert false;
    }
  }

  /** Sand at (c, r) is accounted for at the moment the scheduler reaches
      the `j`-th column of row `y`: it is a frame-start grain not yet
      visited, or the landing cell of a frame-start grain already visited. */
  ghost predicate Accounted(s: seq<CellType>, p: seq<CellType>, w: nat, h: nat, isEven: bool, y: int, j: int, c: int, r: int)
    requires |s| == w * h && |p| == w * h
  {
    SandAt(p, w, h, c, r) ==>
      (!VisitedBefore(w, isEven, y, j, c, r) && SandAt(s, w, h, c, r)) ||
      exists a, b :: SandAt(s, w, h, a, b) && VisitedBefore(w, isEven, y, j, a, b) && Landing(s, w, h, isEven, a, b) == (c, r)
  }

  /** Every sand cell of `p` is accounted for at that moment of the scan. */
  ghost predicate AllAccounted(s: seq<CellType>, p: seq<CellType>, w: nat, h: nat, isEven: bool, y: int, j: int)
    requires |s| == w * h && |p| == w * h
  {
    forall c, r :: Accounted(s, p, w, h, isEven, y, j, c, r)
  }

  /** Visiting (x, y) keeps the sand cell (c, r) accounted for: the visited
      grain is accounted for by its landing cell, and every other sand cell
      is untouched. */
  lemma DispatchAccounted(s: seq<CellType>, w: nat, h: nat, isEven: bool, x: int, y: int, c: int, r: int)
    requires |s| == w * h && InBounds(w, h, x, y)
    requires Accounted(s, Reached(s, w, h, isEven, x, y), w, h, isEven, y, ScanPos(w, isEven, x), c, r)
    ensures Accounted(s, Dispatch(Reached(s, w, h, isEven, x, y), w, h, x, y, isEven), w, h, isEven, y, ScanPos(w, isEven, x) + 1, c, r)
  {
    var p := Reached(s, w, h, isEven, x, y);
    var d := Dispatch(p, w, h, x, y, isEven);
    var j := ScanPos(w, isEven, x);
    DispatchSeesFrameStart(s, w, h, isEven, y, j);
    if SandAt(d, w, h, c, r) {
      IndexInjective(w, h, c, r, x, y);
      if SandAt(s, w, h, x, y) {
        VisitMovesToLanding(s, w, h, isEven, x, y);
        var l := Landing(s, w, h, isEven, x, y);
        if (c, r) == l {
          assert VisitedBefore(w, isEven, y, j + 1, x, y);
        } else {
          IndexInjective(w, h, c, r, l.0, l.1);
          assert SandAt(p, w, h, c, r);
        }
      } else {
        assert SandAt(p, w, h, c, r);
      }
    }
  }

  lemma {:induction false} ScanRowAccounted(s: seq<CellType>, w: nat, h: nat, isEven: bool, y: int, n: nat)
    requires |s| == w * h && 0 <= y < h && n <= w
    requires AllAccounted(s, ScanRows(s, w, h, isEven, h - 1 - y), w, h, isEven, y, 0)
    ensures AllAccounted(s, ScanRow(ScanRows(s, w, h, isEven, h - 1 - y), w, h, y, isEven, n), w, h, isEven, y, n)
    decreases n
  {
    if n > 0 {
      ScanRowAccounted(s, w, h, isEven, y, n - 1);
      var x := Col(w, isEven, n - 1);
      var p := ScanRow(ScanRows(s, w, h, isEven, h - 1 - y), w, h, y, isEven, n - 1);
      assert ScanPos(w, isEven, x) == n - 1;
      assert p == Reached(s, w, h, isEven, x, y);
      forall c, r ensures Accounted(s, Dispatch(p, w, h, x, y, isEven), w, h, isEven, y, n, c, r) {
        DispatchAccounted(s, w, h, isEven, x, y, c, r);
      }
    }
  }

  lemma {:induction false} ScanRowsAccounted(s: seq<CellType>, w: nat, h: nat, isEven: bool, m: nat)
    requires |s| == w * h && m <= h
    ensures AllAccounted(s, ScanRows(s, w, h, isEven, m), w, h, isEven, h - 1 - m, 0)
    decreases m
  {
    if m > 0 {
      var y := h - m;
      ScanRowsAccounted(s, w, h, isEven, m - 1);
      ScanRowAccounted(s, w, h, isEven, y, w);
      var p := ScanRows(s, w, h, isEven, m);
      assert p == ScanRow(ScanRows(s, w, h, isEven, h - 1 - y), w, h, y, isEven, w);
      var above := y - 1;
      forall c, r ensures Accounted(s, p, w, h, isEven, above, 0, c, r) {
        assert Accounted(s, p, w, h, isEven, y, w, c, r);
      }
    }
  }

  /** A frame moves every grain to its own landing cell: each frame-start
      grain ends in its landing cell, no two grains share one, and every
      sand cell after the frame is the landing cell of some grain. With the
      contract of `Landing`, no grain rises and none falls more than one
      row. */
  lemma StepMovesEachGrain(s: seq<CellType>, w: nat, h: nat, frame: nat)
    requires |s| == w * h
    ensures var isEven := frame % 2 == 0;
      forall x, y :: SandAt(s, w, h, x, y) ==>
        SandAt(Step(s, w, h, frame), w, h, Landing(s, w, h, isEven, x, y).0, Landing(s, w, h, isEven, x, y).1)
    ensures var isEven := frame % 2 == 0;
      forall x1, y1, x2, y2 :: SandAt(s, w, h, x1, y1) && SandAt(s, w, h, x2, y2) ==>
        (Landing(s, w, h, isEven, x1, y1) == Landing(s, w, h, isEven, x2, y2) <==> x1 == x2 && y1 == y2)
    ensures var isEven := frame % 2 == 0;
      forall c, r :: SandAt(Step(s, w, h, frame), w, h, c, r) ==>
        exists x, y :: SandAt(s, w, h, x, y) && Landing(s, w, h, isEven, x, y) == (c, r)
  {
    var isEven := frame % 2 == 0;
    forall x, y | SandAt(s, w, h, x, y)
      ensures SandAt(Step(s, w, h, frame), w, h, Landing(s, w, h, isEven, x, y).0, Landing(s, w, h, isEven, x, y).1)
    {
      GrainLands(s, w, h, isEven, x, y);
    }
    forall x1, y1, x2, y2 | SandAt(s, w, h, x1, y1) && SandAt(s, w, h, x2, y2)
      ensures Landing(s, w, h, isEven, x1, y1) == Landing(s, w, h, isEven, x2, y2) <==> x1 == x2 && y1 == y2
    {
      LandingInjective(s, w, h, isEven, x1, y1, x2, y2);
    }
    ScanRowsAccounted(s, w, h, isEven, h);
    forall c, r | SandAt(Step(s, w, h, frame), w, h, c, r)
      ensures exists x, y :: SandAt(s, w, h, x, y) && Landing(s, w, h, isEven, x, y) == (c, r)
    {
      assert Accounted(s, ScanRows(s, w, h, isEven, h), w, h, isEven, -1, 0, c, r);
    }
  }

  // ---------------------------------------------------------------------
  // A single grain on an otherwise empty world

  /** The world holding one grain of sand at (x, y) and nothing else. */
  function Grain(w: nat, h: nat, x: int, y: int): (s: seq<CellType>)
    requires InBounds(w, h, x, y)
    ensures |s| == w * h
  {
    seq(w * h, _ => None)[Index(w, h, x, y) := Sand]
  }

  /** The grain world holds sand exactly at its grain. */
  lemma GrainAt(w: nat, h: nat, x: int, y: int, c: int, r: int)
    requires InBounds(w, h, x, y) && InBounds(w, h, c, r)
    ensures Grain(w, h, x, y)[Index(w, h, c, r)] == if c == x && r == y then Sand else None
  {
    IndexInjective(w, h, c, r, x, y);
  }

  /** Visiting cells that are empty when reached changes nothing. */
  lemma {:induction false} RowIdle(s: seq<CellType>, w: nat, h: nat, y: int, isEven: bool, k: nat, n: nat)
    requires |s| == w * h && 0 <= y < h && k <= n <= w
    requires forall j :: k <= j < n ==> ScanRow(s, w, h, y, isEven, k)[Index(w, h, Col(w, isEven, j), y)] == None
    ensures ScanRow(s, w, h, y, isEven, n) == ScanRow(s, w, h, y, isEven, k)
    decreases n
  {
    if n > k {
      RowIdle(s, w, h, y, isEven, k, n - 1);
    }
  }

  /** Scanning rows that are entirely empty changes nothing. */
  lemma {:induction false} RowsIdle(s: seq<CellType>, w: nat, h: nat, isEven: bool, k: nat, m: nat)
    requires |s| == w * h && k <= m <= h
    requires forall c, r :: InBounds(w, h, c, r) && h - m <= r < h - k ==> ScanRows(s, w, h, isEven, k)[Index(w, h, c, r)] == None
    ensures ScanRows(s, w, h, isEven, m) == ScanRows(s, w, h, isEven, k)
    decreases m
  {
    if m > k {
      RowsIdle(s, w, h, isEven, k, m - 1);
      RowIdle(ScanRows(s, w, h, isEven, k), w, h, h - m, isEven, 0, w);
    }
  }

  /** Scanning a row whose only non-empty cell is (x, y) amounts to
      dispatching that one cell. */
  lemma RowWithOneGrain(s: seq<CellType>, w: nat, h: nat, y: int, isEven: bool, x: int)
    requires |s| == w * h && InBounds(w, h, x, y)
    requires forall c :: 0 <= c < w && c != x ==> s[Index(w, h, c, y)] == None
    ensures ScanRow(s, w, h, y, isEven, w) == Dispatch(s, w, h, x, y, isEven)
  {
    var jx := ScanPos(w, isEven, x);
    RowIdle(s, w, h, y, isEven, 0, jx);
    DispatchFrame(s, w, h, x, y, isEven);
    RowIdle(s, w, h, y, isEven, jx + 1, w);
  }

  /** Dispatching the lone grain moves it one row down, unless it already
      lies in the bottom row. */
  lemma GrainDispatch(w: nat, h: nat, x: int, y: int, isEven: bool)
    requires InBounds(w, h, x, y)
    ensures Dispatch(Grain(w, h, x, y), w, h, x, y, isEven) == Grain(w, h, x, if y < h - 1 then y + 1 else y)
  {
  }

  /** A single grain falls straight down one row per frame, whatever the
      frame parity, and rests once it reaches the bottom row. */
  lemma SingleGrainStep(w: nat, h: nat, x: int, y: int, frame: nat)
    requires InBounds(w, h, x, y)
    ensures Step(Grain(w, h, x, y), w, h, frame) == Grain(w, h, x, if y < h - 1 then y + 1 else y)
  {
    var isEven := frame % 2 == 0;
    var s := Grain(w, h, x, y);
    var y' := if y < h - 1 then y + 1 else y;
    var g := Grain(w, h, x, y');
    forall c, r | InBounds(w, h, c, r) && r != y ensures s[Index(w, h, c, r)] == None {
      GrainAt(w, h, x, y, c, r);
    }
    forall c | 0 <= c < w && c != x ensures s[Index(w, h, c, y)] == None {
      GrainAt(w, h, x, y, c, y);
    }
    RowsIdle(s, w, h, isEven, 0, h - 1 - y);
    RowWithOneGrain(s, w, h, y, isEven, x);
    GrainDispatch(w, h, x, y, isEven);
    assert ScanRows(s, w, h, isEven, h - y) == g;
    forall c, r | InBounds(w, h, c, r) && r < y ensures g[Index(w, h, c, r)] == None {
      GrainAt(w, h, x, y', c, r);
    }
    RowsIdle(s, w, h, isEven, h - y, h);
  }

  /** Starting from row `y`, a lone grain is in row `y + k` after `k`
      frames, as long as that row exists. */
  lemma {:induction false} GrainFallsToFloor(w: nat, h: nat, x: int, y: int, frame: nat, k: nat)
    requires InBounds(w, h, x, y) && y + k < h
    ensures Run(Grain(w, h, x, y), w, h, frame, k) == Grain(w, h, x, y + k)
    decreases k
  {
    if k > 0 {
      SingleGrainStep(w, h, x, y, frame);
      GrainFallsToFloor(w, h, x, y + 1, frame + 1, k - 1);
    }
  }
}
