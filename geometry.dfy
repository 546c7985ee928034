/**
 * Grid coordinates, facings and distances shared by the maze, the player
 * and the pursuer.
 */
module Geometry {

  datatype Option<+T> = None | Some(value: T)

  /** A grid cell, as the `{ r, c }` objects of the game: row first, then column. */
  datatype Pos = Pos(r: int, c: int)

  function Abs(x: int): (a: nat)
    ensures a == x || a == -x
  {
    if x < 0 then -x else x
  }

  /** The `Math.abs(dr) + Math.abs(dc)` distance used by the spawn scan. */
  function Manhattan(p: Pos, q: Pos): nat
  {
    Abs(p.r - q.r) + Abs(p.c - q.c)
  }

  /** Two cells share an edge of the 4-connected grid. */
  predicate Adjacent(p: Pos, q: Pos)
  {
    Manhattan(p, q) == 1
  }

  /** `p` comes strictly before `q` when the grid is scanned row by row. */
  predicate RowMajorBefore(p: Pos, q: Pos)
  {
    p.r < q.r || (p.r == q.r && p.c < q.c)
  }

  /** One of the four unit moves up, down, left, right. */
  predicate IsUnitDelta(dr: int, dc: int)
  {
    (dr == -1 && dc == 0) || (dr == 1 && dc == 0) || (dr == 0 && dc == -1) || (dr == 0 && dc == 1)
  }

  /**
   * The direction a body faces. The game stores it as a rotation about the
   * vertical axis: North is pi (row - 1), South is 0 (row + 1), West is
   * -pi/2 (column - 1) and East is pi/2 (column + 1).
   */
  datatype Facing = North | South | West | East

  /** The unit move that a facing points along. */
  function Delta(f: Facing): (d: (int, int))
    ensures IsUnitDelta(d.0, d.1)
  {
    match f
    case North => (-1, 0)
    case South => (1, 0)
    case West => (0, -1)
    case East => (0, 1)
  }

  /**
   * The facing after a move by (dr, dc): a unit move turns the body to point
   * along it, any other delta keeps the current facing.
   */
  function FacingFor(dr: int, dc: int, current: Facing): (f: Facing)
    ensures IsUnitDelta(dr, dc) ==> Delta(f) == (dr, dc)
    ensures !IsUnitDelta(dr, dc) ==> f == current
  {
    if dr == -1 && dc == 0 then North
    else if dr == 1 && dc == 0 then South
    else if dr == 0 && dc == -1 then West
    else if dr == 0 && dc == 1 then East
    else current
  }

  /** Facing and delta are inverse: turning toward a facing's own delta gives that facing back. */
  lemma FacingForDelta(f: Facing, current: Facing)
    ensures FacingFor(Delta(f).0, Delta(f).1, current) == f
  {
  }

  /** A unit move changes the position by Manhattan distance exactly one. */
  lemma UnitDeltaIsAdjacent(p: Pos, dr: int, dc: int)
    requires IsUnitDelta(dr, dc)
    ensures Adjacent(p, Pos(p.r + dr, p.c + dc))
  {
  }
}
