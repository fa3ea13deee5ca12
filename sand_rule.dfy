/** The falling rule for one grain, as a function of the world's cells:
    which cell below the grain it claims, and the world after the claim. */
module SandRule {
  import opened Grid

  /** The outcome of the rule: the grain stays, or it claims the cell in
      column `col` of the row below. */
  datatype Claim = Stay | MoveTo(col: int)

  /** Whether (x, y) is inside the world and holds no material. */
  predicate Free(s: seq<CellType>, w: nat, h: nat, x: int, y: int)
    requires |s| == w * h
  {
    InBounds(w, h, x, y) && s[Index(w, h, x, y)] == None
  }

  /** The columns of the row below in the order the rule tries them:
      straight down, then the diagonal on the side the frame parity favours
      (left on even frames), then the other diagonal. */
  function Preference(x: int, isEven: bool): (cols: seq<int>)
    ensures |cols| == 3 && cols[0] == x
    ensures {cols[1], cols[2]} == {x - 1, x + 1}
    ensures cols[1] == if isEven then x - 1 else x + 1
  {
    if isEven then [x, x - 1, x + 1] else [x, x + 1, x - 1]
  }

  /** The cell the grain at (x, y) claims: nothing from the bottom row;
      otherwise the cell below if it is empty, else the first empty one of
      the two diagonals, left first on even frames and right first on odd
      frames, each considered only when it is inside the world. */
  function SandTarget(s: seq<CellType>, w: nat, h: nat, x: int, y: int, isEven: bool): (c: Claim)
    requires |s| == w * h && InBounds(w, h, x, y)
    ensures y == h - 1 ==> c == Stay
    ensures c.MoveTo? ==> y < h - 1 && x - 1 <= c.col <= x + 1 && Free(s, w, h, c.col, y + 1)
    ensures c == Stay ==> y == h - 1 || (!Free(s, w, h, x - 1, y + 1) && !Free(s, w, h, x, y + 1) && !Free(s, w, h, x + 1, y + 1))
  {
    if y == h - 1 then
      Stay
    else if s[Index(w, h, x, y + 1)] == None then
      MoveTo(x)
    else
      var left := x > 0 && s[Index(w, h, x - 1, y + 1)] == None;
      var right := x < w - 1 && s[Index(w, h, x + 1, y + 1)] == None;
      if isEven then
        (if left then MoveTo(x - 1) else if right then MoveTo(x + 1) else Stay)
      else
        (if right then MoveTo(x + 1) else if left then MoveTo(x - 1) else Stay)
  }

  /** Away from the bottom row the rule claims the first free column of its
      preference order, and stays exactly when none of them is free. */
  lemma SandTargetIsFirstFree(s: seq<CellType>, w: nat, h: nat, x: int, y: int, isEven: bool)
    requires |s| == w * h && InBounds(w, h, x, y) && y < h - 1
    ensures var c, p := SandTarget(s, w, h, x, y, isEven), Preference(x, isEven);
      c.MoveTo? ==> exists k :: 0 <= k < 3 && c.col == p[k] && Free(s, w, h, p[k], y + 1)
                              && forall j :: 0 <= j < k ==> !Free(s, w, h, p[j], y + 1)
    ensures var c, p := SandTarget(s, w, h, x, y, isEven), Preference(x, isEven);
      c == Stay <==> forall k :: 0 <= k < 3 ==> !Free(s, w, h, p[k], y + 1)
  {
    var c, p := SandTarget(s, w, h, x, y, isEven), Preference(x, isEven);
    if c.MoveTo? {
      if c.col == p[0] {
        assert 0 <= 0 < 3 && c.col == p[0] && Free(s, w, h, p[0], y + 1);
      } else if c.col == p[1] {
        assert !Free(s, w, h, p[0], y + 1);
        assert 0 <= 1 < 3 && c.col == p[1] && Free(s, w, h, p[1], y + 1);
      } else {
        assert !Free(s, w, h, p[0], y + 1) && !Free(s, w, h, p[1], y + 1);
        assert 0 <= 2 < 3 && c.col == p[2] && Free(s, w, h, p[2], y + 1);
      }
    }
  }

  /** The rule applied: the claimed cell receives `newType` and nothing else
      changes; the flag says whether a claim was made. */
  function SandMove(s: seq<CellType>, w: nat, h: nat, x: int, y: int, newType: CellType, isEven: bool): (r: (seq<CellType>, bool))
    requires |s| == w * h && InBounds(w, h, x, y)
    ensures |r.0| == |s|
    ensures !r.1 ==> r.0 == s
    ensures r.1 ==> y < h - 1 && exists c {:trigger Free(s, w, h, c, y + 1)} :: x - 1 <= c <= x + 1 && Free(s, w, h, c, y + 1)
                                       && r.0 == s[Index(w, h, c, y + 1) := newType]
  {
    match SandTarget(s, w, h, x, y, isEven)
    case Stay => (s, false)
    case MoveTo(c) => (s[Index(w, h, c, y + 1) := newType], true)
  }

  /** The rule writes at most one cell: every cell outside the row below,
      and every cell of that row more than one column away, keeps its
      material; and the rule moves exactly when some cell below is free. */
  lemma SandMoveFrame(s: seq<CellType>, w: nat, h: nat, x: int, y: int, newType: CellType, isEven: bool)
    requires |s| == w * h && InBounds(w, h, x, y)
    ensures var r := SandMove(s, w, h, x, y, newType, isEven);
      forall cx, cy :: InBounds(w, h, cx, cy) && (cy != y + 1 || cx < x - 1 || cx > x + 1)
        ==> r.0[Index(w, h, cx, cy)] == s[Index(w, h, cx, cy)]
    ensures SandMove(s, w, h, x, y, newType, isEven).1 <==>
      y < h - 1 && (Free(s, w, h, x - 1, y + 1) || Free(s, w, h, x, y + 1) || Free(s, w, h, x + 1, y + 1))
  {
    var r := SandMove(s, w, h, x, y, newType, isEven);
    if r.1 {
      var c :| x - 1 <= c <= x + 1 && Free(s, w, h, c, y + 1) && r.0 == s[Index(w, h, c, y + 1) := newType];
      forall cx, cy | InBounds(w, h, cx, cy) && (cy != y + 1 || cx < x - 1 || cx > x + 1)
        ensures r.0[Index(w, h, cx, cy)] == s[Index(w, h, cx, cy)]
      {
        IndexInjective(w, h, cx, cy, c, y + 1);
      }
    }
  }
}
