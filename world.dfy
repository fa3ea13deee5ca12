/** The world as the program holds it: one flat array of cells updated in
    place, with the accessor, the falling rule and the frame scheduler as
    methods proved against the functions of `SandRule` and `Scheduler`. */
module Simulation {
  import opened Grid
  import opened SandRule
  import opened Scheduler

  class World {
    /** Width and height of the world, in cells. */
    const W: nat
    const H: nat
    /** The cells, row after row. */
    const cells: array<CellType>

    predicate Valid()
    {
      W >= 1 && H >= 1 && cells.Length == W * H
    }

    /** A new world: every cell empty. */
    constructor (w: nat, h: nat)
      requires w >= 1 && h >= 1
      ensures Valid() && W == w && H == h && fresh(cells)
      ensures forall i :: 0 <= i < cells.Length ==> cells[i] == None
    {
      W, H := w, h;
      cells := new CellType[w * h](_ => None);
    }

    /** Reads the material of cell (x, y). */
    method GetParticle(x: int, y: int) returns (c: CellType)
      requires Valid() && InBounds(W, H, x, y)
      ensures c == cells[Index(W, H, x, y)]
      ensures c == cells[y * W + x]
    {
      var i := Index(W, H, x, y);
      c := cells[i];
    }

    /** Writes material `t` into cell (x, y) and into no other cell. */
    method SetParticle(x: int, y: int, t: CellType)
      requires Valid() && InBounds(W, H, x, y)
      modifies cells
      ensures cells[..] == old(cells[..])[Index(W, H, x, y) := t]
    {
      var i := Index(W, H, x, y);
      cells[i] := t;
    }

    /** The left-below claim: tried only while no move has been made and the
        grain is not in the leftmost column. */
    method DoLeft(x: int, y: int, newType: CellType, couldMove: bool) returns (moved: bool)
      requires Valid() && InBounds(W, H, x, y) && y < H - 1
      modifies cells
      ensures !couldMove && Free(old(cells[..]), W, H, x - 1, y + 1) ==>
        moved && cells[..] == old(cells[..])[Index(W, H, x - 1, y + 1) := newType]
      ensures !(!couldMove && Free(old(cells[..]), W, H, x - 1, y + 1)) ==>
        moved == couldMove && cells[..] == old(cells[..])
    {
      moved := couldMove;
      if !couldMove && x > 0 {
        var leftBelow := GetParticle(x - 1, y + 1);
        if leftBelow == None {
          SetParticle(x - 1, y + 1, newType);
          moved := true;
        }
      }
    }

    /** The right-below claim: tried only while no move has been made and the
        grain is not in the rightmost column. */
    method DoRight(x: int, y: int, newType: CellType, couldMove: bool) returns (moved: bool)
      requires Valid() && InBounds(W, H, x, y) && y < H - 1
      modifies cells
      ensures !couldMove && Free(old(cells[..]), W, H, x + 1, y + 1) ==>
        moved && cells[..] == old(cells[..])[Index(W, H, x + 1, y + 1) := newType]
      ensures !(!couldMove && Free(old(cells[..]), W, H, x + 1, y + 1)) ==>
        moved == couldMove && cells[..] == old(cells[..])
    {
      moved := couldMove;
      if !couldMove && x < W - 1 {
        var rightBelow := GetParticle(x + 1, y + 1);
        if rightBelow == None {
          SetParticle(x + 1, y + 1, newType);
          moved := true;
        }
      }
    }

    /** The falling rule for the grain at (x, y): claims the first free cell
        below it, writing `newType` there, and reports whether it moved.
        The grain's own cell is left for the caller to clear. */
    method SimulateSand(x: int, y: int, newType: CellType, isEven: bool) returns (couldMove: bool)
      requires Valid() && InBounds(W, H, x, y)
      modifies cells
      ensures (cells[..], couldMove) == SandMove(old(cells[..]), W, H, x, y, newType, isEven)
    {
      if y == H - 1 {
        return false;
      }
      couldMove := false;
      var below := GetParticle(x, y + 1);
      if below == None {
        SetParticle(x, y + 1, newType);
        couldMove := true;
      }
      if isEven {
        couldMove := DoLeft(x, y, newType, couldMove);
        couldMove := DoRight(x, y, newType, couldMove);
      } else {
        couldMove := DoRight(x, y, newType, couldMove);
        couldMove := DoLeft(x, y, newType, couldMove);
      }
    }

    /** One visit of the scheduler: a sand cell is handed to the falling
        rule and cleared when its grain moved; an empty cell is left alone. */
    method UpdateCell(x: int, y: int, isEven: bool)
      requires Valid() && InBounds(W, H, x, y)
      modifies cells
      ensures cells[..] == Dispatch(old(cells[..]), W, H, x, y, isEven)
    {
      var cell := GetParticle(x, y);
      var couldMove := false;
      match cell {
        case None =>
        case Sand =>
          couldMove := SimulateSand(x, y, Sand, isEven);
      }
      if couldMove {
        SetParticle(x, y, None);
      }
    }

    /** Advances the world by one frame: rows from the bottom up, columns
        left to right on even frames and right to left on odd frames; each
        sand cell is handed to the falling rule and cleared when it moved. */
    method StepSimulation(frame: nat)
      requires Valid()
      modifies cells
      ensures cells[..] == Step(old(cells[..]), W, H, frame)
      ensures multiset(cells[..]) == multiset(old(cells[..]))
      ensures forall c :: BottomSand(old(cells[..]), W, H, c) ==> BottomSand(cells[..], W, H, c)
      ensures forall c, r :: SandAt(cells[..], W, H, c, r) ==> FedFrom(old(cells[..]), W, H, c, r)
      ensures forall x, y :: SandAt(old(cells[..]), W, H, x, y) ==>
        var l := Landing(old(cells[..]), W, H, frame % 2 == 0, x, y);
        SandAt(cells[..], W, H, l.0, l.1)
      ensures forall c, r :: SandAt(cells[..], W, H, c, r) ==>
        exists x, y :: SandAt(old(cells[..]), W, H, x, y) && Landing(old(cells[..]), W, H, frame % 2 == 0, x, y) == (c, r)
    {
      ghost var start := cells[..];
      var isEven := frame % 2 == 0;
      var y := H - 1;
      while y >= 0
        invariant -1 <= y <= H - 1
        invariant cells[..] == ScanRows(start, W, H, isEven, H - 1 - y)
      {
        ghost var rowStart := cells[..];
        var x := if isEven then 0 else W - 1;
        while if isEven then x < W else x >= 0
          invariant if isEven then 0 <= x <= W else -1 <= x <= W - 1
          invariant cells[..] == ScanRow(rowStart, W, H, y, isEven, ScanPos(W, isEven, x))
          decreases if isEven then W - x else x + 1
        {
          ghost var visited := ScanPos(W, isEven, x);
          UpdateCell(x, y, isEven);
          x := if isEven then x + 1 else x - 1;
          assert ScanPos(W, isEven, x) == visited + 1;
        }
        assert ScanPos(W, isEven, x) == W;
        assert cells[..] == ScanRows(start, W, H, isEven, H - y);
        y := y - 1;
      }
      FrameProperties(start, W, H, frame);
      StepMovesEachGrain(start, W, H, frame);
    }
  }
}
