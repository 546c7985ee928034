/**
 * The pursuer of src/enemy.js: it spawns on the walkable, non-exit cell
 * farthest from a target, and on a fixed time step moves one cell along a
 * shortest walk found by breadth-first search.
 */
module Pursuer {
  import opened Geometry
  import opened Maze
  import opened Paths

  /** The default number of seconds between two steps. */
  const DefaultStepInterval: real := 0.45

  /** Seconds of walk animation started by each step. */
  const StepWalkBurst: real := 0.18

  /** The cell used when the scan finds no candidate at all. */
  const FallbackSpawn: Pos := Pos(1, 1)

  // ---- Spawn choice ----

  /** A cell of some row of the grid that is walkable and is not the exit. */
  ghost predicate SpawnCandidate(g: Grid, p: Pos)
  {
    0 <= p.r < |g| && 0 <= p.c < |g[p.r]| && IsWalkable(g, p.r, p.c) && !IsExitTile(g, p.r, p.c)
  }

  /**
   * `p` is a candidate at the greatest Manhattan distance from `t`, and the
   * first such one in row-major order: every candidate scanned before it is
   * strictly nearer.
   */
  ghost predicate FarthestFirst(g: Grid, t: Pos, p: Pos)
  {
    && SpawnCandidate(g, p)
    && (forall q :: SpawnCandidate(g, q) ==> Manhattan(q, t) <= Manhattan(p, t))
    && (forall q :: SpawnCandidate(g, q) && RowMajorBefore(q, p) ==> Manhattan(q, t) < Manhattan(p, t))
  }

  /** At most one cell is the first farthest candidate. */
  lemma FarthestFirstUnique(g: Grid, t: Pos, p1: Pos, p2: Pos)
    requires FarthestFirst(g, t, p1) && FarthestFirst(g, t, p2)
    ensures p1 == p2
  {
    assert Manhattan(p1, t) == Manhattan(p2, t);
    assert !RowMajorBefore(p1, p2) && !RowMajorBefore(p2, p1);
  }

  /** What the scan knows once every cell before `upTo` in row-major order has been looked at. */
  ghost predicate BestSoFar(g: Grid, t: Pos, best: Option<Pos>, bestD: int, upTo: Pos)
  {
    && (best.None? ==> bestD == -1 && forall q :: SpawnCandidate(g, q) ==> !RowMajorBefore(q, upTo))
    && (best.Some? ==>
          && SpawnCandidate(g, best.value) && RowMajorBefore(best.value, upTo)
          && bestD == Manhattan(best.value, t)
          && forall q :: SpawnCandidate(g, q) && RowMajorBefore(q, upTo) ==>
               Manhattan(q, t) <= bestD && (RowMajorBefore(q, best.value) ==> Manhattan(q, t) < bestD))
  }

  /** Looking at cell (r, c) extends the scan by one cell. */
  lemma ScanCell(g: Grid, t: Pos, best: Option<Pos>, bestD: int, r: int, c: int)
    requires BestSoFar(g, t, best, bestD, Pos(r, c))
    ensures var p := Pos(r, c);
            if SpawnCandidate(g, p) && Manhattan(p, t) > bestD
            then BestSoFar(g, t, Some(p), Manhattan(p, t), Pos(r, c + 1))
            else BestSoFar(g, t, best, bestD, Pos(r, c + 1))
  {
    var p := Pos(r, c);
    forall q | SpawnCandidate(g, q) && RowMajorBefore(q, Pos(r, c + 1))
      ensures q == p || RowMajorBefore(q, p)
    {
    }
  }

  /** A finished row hands over to the start of the next one: no cell lies past a row's end. */
  lemma ScanNextRow(g: Grid, t: Pos, best: Option<Pos>, bestD: int, r: int)
    requires 0 <= r < |g|
    requires BestSoFar(g, t, best, bestD, Pos(r, |g[r]|))
    ensures BestSoFar(g, t, best, bestD, Pos(r + 1, 0))
  {
    forall q | SpawnCandidate(g, q) && RowMajorBefore(q, Pos(r + 1, 0))
      ensures RowMajorBefore(q, Pos(r, |g[r]|))
    {
    }
  }

  /** The cell scan of `pickSpawnFarFrom` over grid `g` for target `t`. */
  method FarthestCandidate(g: Grid, t: Pos) returns (spawn: Pos)
    ensures (exists p :: SpawnCandidate(g, p)) ==> FarthestFirst(g, t, spawn)
    ensures (forall p :: !SpawnCandidate(g, p)) ==> spawn == FallbackSpawn
  {
    var best: Option<Pos> := None;
    var bestD := -1;
    var r := 0;
    while r < |g|
      invariant 0 <= r <= |g|
      invariant BestSoFar(g, t, best, bestD, Pos(r, 0))
    {
      best, bestD := ScanRowForSpawn(g, t, best, bestD, r);
      r := r + 1;
    }
    if best.Some? {
      spawn := best.value;
    } else {
      spawn := FallbackSpawn;
    }
  }

  /** One row of the scan: keeps the first candidate of greatest distance seen so far. */
  method ScanRowForSpawn(g: Grid, t: Pos, best: Option<Pos>, bestD: int, r: int) returns (best': Option<Pos>, bestD': int)
    requires 0 <= r < |g|
    requires BestSoFar(g, t, best, bestD, Pos(r, 0))
    ensures BestSoFar(g, t, best', bestD', Pos(r + 1, 0))
  {
    best', bestD' := best, bestD;
    var c := 0;
    while c < |g[r]|
      invariant 0 <= c <= |g[r]|
      invariant BestSoFar(g, t, best', bestD', Pos(r, c))
    {
      var p := Pos(r, c);
      ScanCell(g, t, best', bestD', r, c);
      if IsWalkable(g, r, c) && !IsExitTile(g, r, c) {
        var d := Manhattan(p, t);
        if d > bestD' {
          best', bestD' := Some(p), d;
        }
      }
      c := c + 1;
    }
    ScanNextRow(g, t, best', bestD', r);
  }

  // ---- The pursuer ----

  class Enemy {
    /** The level the pursuer walks on. */
    const level: Level
    /** Seconds between two steps. */
    const stepInterval: real
    var r: int
    var c: int
    var facing: Facing
    /** Seconds accumulated toward the next step. */
    var acc: real
    var walkTimer: real
    var paused: bool

    /** A pursuer at (0, 0), facing South (rotation 0), with no time accumulated and not paused; steps every 0.45 s unless told otherwise. */
    constructor (level: Level, stepInterval: real := DefaultStepInterval)
      ensures this.level == level && this.stepInterval == stepInterval
      ensures r == 0 && c == 0 && facing == South && acc == 0.0 && walkTimer == 0.0 && !paused
    {
      this.level := level;
      this.stepInterval := stepInterval;
      r, c := 0, 0;
      facing := South;
      acc := 0.0;
      walkTimer := 0.0;
      paused := false;
    }

    /** `setGridPos`: the grid position becomes exactly (r, c). */
    method SetGridPos(r: int, c: int)
      modifies this`r, this`c
      ensures this.r == r && this.c == c
    {
      this.r := r;
      this.c := c;
    }

    /**
     * `pickSpawnFarFrom`: the first walkable, non-exit cell of greatest
     * Manhattan distance from (tr, tc), or (1, 1) when there is none.
     */
    method PickSpawnFarFrom(tr: int, tc: int) returns (spawn: Pos)
      ensures (exists p :: SpawnCandidate(level.grid, p)) ==> FarthestFirst(level.grid, Pos(tr, tc), spawn)
      ensures (forall p :: !SpawnCandidate(level.grid, p)) ==> spawn == FallbackSpawn
    {
      spawn := FarthestCandidate(level.grid, Pos(tr, tc));
    }

    /**
     * `_nextStepToward`: breadth-first search from the pursuer's cell. None
     * exactly when the target cannot be reached; otherwise the next cell of a
     * shortest walk (the pursuer's own cell when it already stands on the target).
     */
    method NextStepToward(tr: int, tc: int) returns (next: Option<Pos>)
      requires 0 <= r < |level.grid|
      ensures next.None? <==> !Reachable(level.grid, Pos(r, c), Pos(tr, tc))
      ensures next.Some? ==> IsNextStep(level.grid, Pos(r, c), Pos(tr, tc), next.value)
    {
      var g := level.grid;
      var s := Pos(r, c);
      var t := Pos(tr, tc);
      var q := [s];
      var parent := map[s := s];
      ghost var dist := map[s := 0];
      while q != []
        invariant BfsInv(g, s, t, q, parent, dist)
        decreases |Box(g) - parent.Keys|, |q|
      {
        var cur := q[0];
        if cur == t {
          DequeuedIsShortest(g, s, t, q, parent, dist);
          var n := Backtrack(g, s, t, parent, dist);
          NextStepMeansReachable(g, s, t, n);
          return Some(n);
        }
        ghost var keys0 := parent.Keys;
        q, parent, dist := ExpandNeighbors(g, s, t, cur, q, q[1..], parent, dist);
        if keys0 < parent.Keys {
          DiscoveredInBox(g, s, parent, dist);
          DiscoveryShrinks(Box(g), s, keys0, parent.Keys);
        }
      }
      ExhaustedUnreachable(g, s, t, parent, dist);
      return None;
    }

    /**
     * The backtrack from the target along the parent links to the cell whose
     * parent is the start: the step to take.
     */
    static method Backtrack(g: Grid, s: Pos, t: Pos, parent: map<Pos, Pos>, ghost dist: map<Pos, nat>) returns (next: Pos)
      requires parent.Keys == dist.Keys && s in parent && parent[s] == s && dist[s] == 0
      requires TreeInv(g, s, parent, dist)
      requires t in parent
      requires forall p :: IsPath(g, p, s, t) ==> dist[t] + 1 <= |p|
      ensures next in parent && parent[next] == s
      ensures IsNextStep(g, s, t, next)
    {
      var cur := t;
      var prev := parent[cur];
      ghost var chain := [t];
      assert IsPath(g, chain, cur, t);
      while prev != s
        invariant cur in parent && prev == parent[cur]
        invariant cur == t || cur != s
        invariant IsPath(g, chain, cur, t) && |chain| == dist[t] - dist[cur] + 1
        decreases dist[cur]
      {
        PrependStep(g, prev, cur, chain, t);
        chain := [prev] + chain;
        cur := prev;
        prev := parent[cur];
      }
      if cur != s {
        NextStepFromChain(g, s, t, cur, chain, dist[t]);
      }
      next := cur;
    }

    /** `_faceToward`: turn toward (nr, nc) when it is one cell away, otherwise keep facing. */
    method FaceToward(nr: int, nc: int)
      modifies this`facing
      ensures IsUnitDelta(nr - r, nc - c) ==> Delta(facing) == (nr - r, nc - c)
      ensures !IsUnitDelta(nr - r, nc - c) ==> facing == old(facing)
    {
      facing := FacingFor(nr - r, nc - c, facing);
    }

    /**
     * `step`: when the target is reachable, turn toward and move into the
     * next cell of a shortest walk and start a walk burst; otherwise stay put.
     */
    method Step(tr: int, tc: int)
      requires 0 <= r < |level.grid|
      modifies this`r, this`c, this`facing, this`walkTimer
      ensures var s, t := Pos(old(r), old(c)), Pos(tr, tc);
              if Reachable(level.grid, s, t) then
                && IsNextStep(level.grid, s, t, Pos(r, c))
                && facing == FacingFor(r - old(r), c - old(c), old(facing))
                && walkTimer == StepWalkBurst
              else
                r == old(r) && c == old(c) && facing == old(facing) && walkTimer == old(walkTimer)
    {
      var next := NextStepToward(tr, tc);
      if next.None? {
        return;
      }
      FaceToward(next.value.r, next.value.c);
      SetGridPos(next.value.r, next.value.c);
      walkTimer := StepWalkBurst;
    }

    /** `setPaused`. */
    method SetPaused(p: bool)
      modifies this`paused
      ensures paused == p
    {
      paused := p;
    }

    /**
     * `timeStep`: a paused pursuer does nothing. Otherwise `dt` is added to
     * the accumulator; once it reaches the step interval it is reset and one
     * step is taken. The walk burst then runs down by `dt`.
     */
    method TimeStep(dt: real, tr: int, tc: int)
      requires !paused && acc + dt >= stepInterval ==> 0 <= r < |level.grid|
      modifies this`r, this`c, this`facing, this`walkTimer, this`acc
      ensures old(paused) ==> r == old(r) && c == old(c) && facing == old(facing)
                              && walkTimer == old(walkTimer) && acc == old(acc)
      ensures !old(paused) && old(acc) + dt < stepInterval ==>
                acc == old(acc) + dt && r == old(r) && c == old(c) && facing == old(facing)
                && walkTimer == (if old(walkTimer) > 0.0 then old(walkTimer) - dt else old(walkTimer))
      ensures !old(paused) && old(acc) + dt >= stepInterval ==>
                acc == 0.0 && Manhattan(Pos(old(r), old(c)), Pos(r, c)) <= 1
                && (Reachable(level.grid, Pos(old(r), old(c)), Pos(tr, tc))
                    <==> IsNextStep(level.grid, Pos(old(r), old(c)), Pos(tr, tc), Pos(r, c)))
      ensures !old(paused) && old(acc) + dt >= stepInterval ==>
                if Reachable(level.grid, Pos(old(r), old(c)), Pos(tr, tc)) then
                  && facing == FacingFor(r - old(r), c - old(c), old(facing))
                  && walkTimer == StepWalkBurst - dt
                else
                  && r == old(r) && c == old(c) && facing == old(facing)
                  && walkTimer == (if old(walkTimer) > 0.0 then old(walkTimer) - dt else old(walkTimer))
      ensures !old(paused) && stepInterval > 0.0 ==> acc < stepInterval
    {
      if paused {
        return;
      }
      acc := acc + dt;
      if acc >= stepInterval {
        acc := 0.0;
        ghost var s := Pos(r, c);
        Step(tr, tc);
        if Reachable(level.grid, s, Pos(tr, tc)) {
          NextStepIsLocal(level.grid, s, Pos(tr, tc), Pos(r, c));
        }
        NextStepMeansReachable(level.grid, s, Pos(tr, tc), Pos(r, c));
      }
      if walkTimer > 0.0 {
        walkTimer := walkTimer - dt;
      }
    }
  }
}
