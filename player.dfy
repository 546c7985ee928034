/**
 * Player movement of src/player.js: a guarded single-cell move that either
 * is rejected outright or moves the player, turns it and starts a walk burst.
 */
module Movement {
  import opened Geometry
  import opened Maze

  /** Seconds of walk animation started by a successful step. */
  const WalkBurst: real := 0.18

  /** Where a move by (dr, dc) from `p` leaves a body: the target if walkable, else `p`. */
  function MoveTarget(g: Grid, p: Pos, dr: int, dc: int): (q: Pos)
    ensures IsWalkable(g, p.r + dr, p.c + dc) ==> q == Pos(p.r + dr, p.c + dc)
    ensures !IsWalkable(g, p.r + dr, p.c + dc) ==> q == p
  {
    if IsWalkable(g, p.r + dr, p.c + dc) then Pos(p.r + dr, p.c + dc) else p
  }

  /** The position after trying each move of `moves` in turn. */
  function FollowMoves(g: Grid, p: Pos, moves: seq<(int, int)>): Pos
    decreases |moves|
  {
    if moves == [] then p
    else FollowMoves(g, MoveTarget(g, p, moves[0].0, moves[0].1), moves[1..])
  }

  /** A player that starts on a walkable cell is on a walkable cell after any sequence of moves. */
  lemma {:induction false} FollowMovesStaysWalkable(g: Grid, p: Pos, moves: seq<(int, int)>)
    requires IsWalkable(g, p.r, p.c)
    ensures IsWalkable(g, FollowMoves(g, p, moves).r, FollowMoves(g, p, moves).c)
    decreases |moves|
  {
    if moves != [] {
      FollowMovesStaysWalkable(g, MoveTarget(g, p, moves[0].0, moves[0].1), moves[1..]);
    }
  }

  /** Unit moves carry the player at most one cell each: no jumps, no diagonals. */
  lemma {:induction false} FollowMovesIsBounded(g: Grid, p: Pos, moves: seq<(int, int)>)
    requires forall i :: 0 <= i < |moves| ==> IsUnitDelta(moves[i].0, moves[i].1)
    ensures Manhattan(p, FollowMoves(g, p, moves)) <= |moves|
    decreases |moves|
  {
    if moves != [] {
      var q := MoveTarget(g, p, moves[0].0, moves[0].1);
      FollowMovesIsBounded(g, q, moves[1..]);
      assert Manhattan(p, q) <= 1;
    }
  }

  class Player {
    /** The level the player walks on. */
    const level: Level
    var r: int
    var c: int
    var facing: Facing
    var isWalking: bool
    var walkTimer: real

    /** A player at (0, 0), facing South (rotation 0), standing still. */
    constructor (level: Level)
      ensures this.level == level
      ensures r == 0 && c == 0 && facing == South && !isWalking && walkTimer == 0.0
    {
      this.level := level;
      r, c := 0, 0;
      facing := South;
      isWalking := false;
      walkTimer := 0.0;
    }

    /** `setGridPos`: the grid position becomes exactly (r, c). */
    method SetGridPos(r: int, c: int)
      modifies this`r, this`c
      ensures this.r == r && this.c == c
    {
      this.r := r;
      this.c := c;
    }

    /**
     * `tryMove`: rejected, with nothing changed, when the target cell is not
     * walkable; otherwise the player turns along the move, steps into the
     * target and starts a walk burst.
     */
    method TryMove(dr: int, dc: int) returns (moved: bool)
      modifies this`r, this`c, this`facing, this`isWalking, this`walkTimer
      ensures moved == IsWalkable(level.grid, old(r) + dr, old(c) + dc)
      ensures Pos(r, c) == MoveTarget(level.grid, Pos(old(r), old(c)), dr, dc)
      ensures moved ==> facing == FacingFor(dr, dc, old(facing)) && isWalking && walkTimer == WalkBurst
      ensures !moved ==> facing == old(facing) && isWalking == old(isWalking) && walkTimer == old(walkTimer)
      ensures IsWalkable(level.grid, old(r), old(c)) ==> IsWalkable(level.grid, r, c)
      ensures moved && IsUnitDelta(dr, dc) ==> Adjacent(Pos(old(r), old(c)), Pos(r, c))
    {
      var nr := r + dr;
      var nc := c + dc;
      if !IsWalkable(level.grid, nr, nc) {
        return false;
      }
      facing := FacingFor(dr, dc, facing);
      SetGridPos(nr, nc);
      isWalking := true;
      walkTimer := WalkBurst;
      return true;
    }
  }
}
