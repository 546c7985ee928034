/**
 * The game session of src/game.js: the level template and its spawn mark,
 * the reset that rebuilds level and player from the template, and the move
 * handler that collects coins, unlocks the exit and detects the win.
 */
module Session {
  import opened Geometry
  import opened Maze
  import opened Movement

  /** The character marking the player's spawn in a template. */
  const SpawnMark: char := 'P'

  /** Points awarded for each collected coin. */
  const CoinPoints: int := 10

  /** The level template: 9 rows of 21 cells, spawn at (1, 1), exit at (1, 19). */
  const MazeTemplate: seq<string> := [BorderRow, SpawnRow, Row2, Row3, Row4, Row5, Row6, Row7, BorderRow]

  // The rows of the template, top to bottom; the first and the last are the same border.
  const BorderRow: string := "#####################"
  const SpawnRow: string := "#P.................E#"
  const Row2: string := "#.#####.#######.#####"
  const Row3: string := "#.....#.....#.......#"
  const Row4: string := "###.#.#####.#.#####.#"
  const Row5: string := "#...#.......#.....#.#"
  const Row6: string := "#.#########.#####.#.#"
  const Row7: string := "#.................#.#"

  /** The row holds no spawn mark. */
  ghost predicate NoSpawnIn(row: string)
  {
    forall j :: 0 <= j < |row| ==> row[j] != SpawnMark
  }

  /** Only the spawn row holds a spawn mark, and only at column 1. */
  lemma TemplateRows()
    ensures NoSpawnIn(BorderRow) && NoSpawnIn(Row2) && NoSpawnIn(Row3) && NoSpawnIn(Row4)
    ensures NoSpawnIn(Row5) && NoSpawnIn(Row6) && NoSpawnIn(Row7)
    ensures forall j :: 0 <= j < |SpawnRow| && j != 1 ==> SpawnRow[j] != SpawnMark
  {
  }

  // ---- The spawn scan ----

  ghost predicate IsSpawnCell(t: Grid, p: Pos)
  {
    0 <= p.r < |t| && 0 <= p.c < |t[p.r]| && t[p.r][p.c] == SpawnMark
  }

  /** `p` is the spawn mark that comes last in row-major order. */
  ghost predicate IsLastSpawn(t: Grid, p: Pos)
  {
    IsSpawnCell(t, p) && forall q :: IsSpawnCell(t, q) ==> !RowMajorBefore(p, q)
  }

  /** At most one spawn mark is the last one. */
  lemma LastSpawnUnique(t: Grid, p1: Pos, p2: Pos)
    requires IsLastSpawn(t, p1) && IsLastSpawn(t, p2)
    ensures p1 == p2
  {
    assert !RowMajorBefore(p1, p2) && !RowMajorBefore(p2, p1);
  }

  /** The template with every spawn mark turned into floor. */
  function SpawnFree(t: Grid): (g: Grid)
    ensures |g| == |t| && forall i :: 0 <= i < |t| ==> |g[i]| == |t[i]|
    ensures forall i, j :: 0 <= i < |t| && 0 <= j < |t[i]| ==>
              g[i][j] == (if t[i][j] == SpawnMark then Floor else t[i][j])
  {
    seq(|t|, i requires 0 <= i < |t| =>
      seq(|t[i]|, j requires 0 <= j < |t[i]| => if t[i][j] == SpawnMark then Floor else t[i][j]))
  }

  /** Freeing the spawn keeps every wall, coin and exit where it was and leaves no spawn mark. */
  lemma SpawnFreeKeepsTerrain(t: Grid)
    ensures forall i, j :: IsWalkable(SpawnFree(t), i, j) == IsWalkable(t, i, j)
    ensures forall i, j :: IsExitTile(SpawnFree(t), i, j) == IsExitTile(t, i, j)
    ensures CoinCells(SpawnFree(t)) == CoinCells(t)
    ensures forall p :: !IsSpawnCell(SpawnFree(t), p)
  {
    var g := SpawnFree(t);
    assert |g| == |t|;
    if |t| > 0 {
      assert |g[0]| == |t[0]|;
    }
    forall i, j ensures IsWalkable(g, i, j) == IsWalkable(t, i, j) {
      assert InBounds(g, i, j) == InBounds(t, i, j);
    }
  }

  /** The grid after the scan has passed every cell before `upTo`. */
  ghost predicate ClearedUpTo(t: Grid, g: Grid, upTo: Pos)
  {
    && |g| == |t| && (forall i :: 0 <= i < |t| ==> |g[i]| == |t[i]|)
    && forall i, j :: 0 <= i < |t| && 0 <= j < |t[i]| ==>
         g[i][j] == (if RowMajorBefore(Pos(i, j), upTo) && t[i][j] == SpawnMark then Floor else t[i][j])
  }

  /** The spawn found by the scan so far: the last mark before `upTo`, or (0, 0) when there is none. */
  ghost predicate LastSpawnBefore(t: Grid, p: Pos, upTo: Pos)
  {
    || (p == Pos(0, 0) && forall q :: IsSpawnCell(t, q) ==> !RowMajorBefore(q, upTo))
    || (&& IsSpawnCell(t, p) && RowMajorBefore(p, upTo)
        && forall q :: IsSpawnCell(t, q) && RowMajorBefore(q, upTo) ==> !RowMajorBefore(p, q))
  }

  lemma ClearCellStep(t: Grid, g: Grid, p: Pos, r: int, c: int)
    requires 0 <= r < |t| && 0 <= c < |t[r]|
    requires ClearedUpTo(t, g, Pos(r, c)) && LastSpawnBefore(t, p, Pos(r, c))
    ensures g[r][c] == t[r][c]
    ensures t[r][c] == SpawnMark ==>
              ClearedUpTo(t, g[r := g[r][c := Floor]], Pos(r, c + 1)) && LastSpawnBefore(t, Pos(r, c), Pos(r, c + 1))
    ensures t[r][c] != SpawnMark ==>
              ClearedUpTo(t, g, Pos(r, c + 1)) && LastSpawnBefore(t, p, Pos(r, c + 1))
  {
    assert !RowMajorBefore(Pos(r, c), Pos(r, c));
    forall q | RowMajorBefore(q, Pos(r, c + 1)) ensures q == Pos(r, c) || RowMajorBefore(q, Pos(r, c)) {
    }
  }

  lemma ClearRowStep(t: Grid, g: Grid, p: Pos, r: int)
    requires 0 <= r < |t|
    requires ClearedUpTo(t, g, Pos(r, |t[r]|)) && LastSpawnBefore(t, p, Pos(r, |t[r]|))
    ensures ClearedUpTo(t, g, Pos(r + 1, 0)) && LastSpawnBefore(t, p, Pos(r + 1, 0))
  {
    forall i, j | 0 <= i < |t| && 0 <= j < |t[i]|
      ensures RowMajorBefore(Pos(i, j), Pos(r + 1, 0)) == RowMajorBefore(Pos(i, j), Pos(r, |t[r]|))
    {
    }
  }

  lemma ClearDone(t: Grid, g: Grid, p: Pos)
    requires ClearedUpTo(t, g, Pos(|t|, 0)) && LastSpawnBefore(t, p, Pos(|t|, 0))
    ensures g == SpawnFree(t)
    ensures (exists q :: IsSpawnCell(t, q)) ==> IsLastSpawn(t, p)
    ensures (forall q :: !IsSpawnCell(t, q)) ==> p == Pos(0, 0)
  {
    var f := SpawnFree(t);
    forall i | 0 <= i < |t| ensures g[i] == f[i] {
      assert forall j :: 0 <= j < |t[i]| ==> RowMajorBefore(Pos(i, j), Pos(|t|, 0));
    }
    if exists q :: IsSpawnCell(t, q) {
      var q :| IsSpawnCell(t, q);
      assert RowMajorBefore(q, Pos(|t|, 0));
    }
  }

  /** The template has one spawn mark, at (1, 1). */
  lemma TemplateSpawn()
    ensures IsLastSpawn(MazeTemplate, Pos(1, 1))
  {
    TemplateRows();
    forall q | IsSpawnCell(MazeTemplate, q) ensures q == Pos(1, 1) {
      assert MazeTemplate[q.r][q.c] == SpawnMark;
    }
  }

  /** The freed template is a 9 by 21 rectangle in which the spawn cell is walkable floor. */
  lemma TemplateShape()
    ensures Rectangular(SpawnFree(MazeTemplate)) && |SpawnFree(MazeTemplate)| == 9 && Width(SpawnFree(MazeTemplate)) == 21
    ensures IsWalkable(SpawnFree(MazeTemplate), 1, 1) && !IsExitTile(SpawnFree(MazeTemplate), 1, 1)
    ensures SpawnFree(MazeTemplate)[1][1] == Floor
    ensures HasExit(SpawnFree(MazeTemplate))
  {
    var g := SpawnFree(MazeTemplate);
    assert forall i :: 0 <= i < 9 ==> |MazeTemplate[i]| == 21;
    assert g[1][1] == Floor;
    assert g[1][19] == Exit && IsExitTile(g, 1, 19);
  }

  /** A template whose only spawn mark is at (1, 1), on a cell that is walkable once freed. */
  ghost predicate ProperTemplate(t: Grid)
  {
    IsLastSpawn(t, Pos(1, 1)) && IsWalkable(SpawnFree(t), 1, 1)
  }

  lemma MazeTemplateIsProper()
    ensures ProperTemplate(MazeTemplate)
  {
    TemplateSpawn();
    TemplateShape();
  }

  /** The spawn a scan of a proper template finds is (1, 1). */
  lemma ProperTemplateSpawn(t: Grid, r: int, c: int)
    requires ProperTemplate(t)
    requires (exists q :: IsSpawnCell(t, q)) ==> IsLastSpawn(t, Pos(r, c))
    ensures r == 1 && c == 1 && IsWalkable(SpawnFree(t), r, c)
  {
    LastSpawnUnique(t, Pos(r, c), Pos(1, 1));
  }

  /**
   * The template scan of `resetLevelStateFromTemplate`: the grid with every
   * spawn mark turned into floor, and the last spawn mark in row-major order,
   * or (0, 0) when there is none.
   */
  method FreeSpawn(t: Grid) returns (grid: Grid, spawn: Pos)
    ensures grid == SpawnFree(t)
    ensures (exists q :: IsSpawnCell(t, q)) ==> IsLastSpawn(t, spawn)
    ensures (forall q :: !IsSpawnCell(t, q)) ==> spawn == Pos(0, 0)
  {
    grid, spawn := t, Pos(0, 0);
    var r := 0;
    while r < |t|
      invariant 0 <= r <= |t|
      invariant ClearedUpTo(t, grid, Pos(r, 0)) && LastSpawnBefore(t, spawn, Pos(r, 0))
    {
      grid, spawn := FreeSpawnInRow(t, grid, spawn, r);
      r := r + 1;
    }
    ClearDone(t, grid, spawn);
  }

  /** One row of the template scan. */
  method FreeSpawnInRow(t: Grid, grid: Grid, spawn: Pos, r: int) returns (grid': Grid, spawn': Pos)
    requires 0 <= r < |t|
    requires ClearedUpTo(t, grid, Pos(r, 0)) && LastSpawnBefore(t, spawn, Pos(r, 0))
    ensures ClearedUpTo(t, grid', Pos(r + 1, 0)) && LastSpawnBefore(t, spawn', Pos(r + 1, 0))
  {
    grid', spawn' := grid, spawn;
    var c := 0;
    while c < |t[r]|
      invariant 0 <= c <= |t[r]|
      invariant ClearedUpTo(t, grid', Pos(r, c)) && LastSpawnBefore(t, spawn', Pos(r, c))
    {
      ClearCellStep(t, grid', spawn', r, c);
      if grid'[r][c] == SpawnMark {
        spawn' := Pos(r, c);
        grid' := grid'[r := grid'[r][c := Floor]];
      }
      c := c + 1;
    }
    ClearRowStep(t, grid', spawn', r);
  }

  /**
   * The session invariant. While a game runs, the registry holds exactly the
   * coin cells still on the grid, the score is ten points per collected coin,
   * the exit is open only once no coin is left, and the player stands on a
   * walkable cell; a won game has the player on the exit with every coin
   * collected.
   */
  ghost predicate Consistent(started: bool, won: bool, score: int, totalCoins: int,
                             grid: Grid, coins: set<Pos>, coinCount: int, exitUnlocked: bool, at: Pos)
  {
    started ==>
      && coins == CoinCells(grid)
      && score + CoinPoints * coinCount == CoinPoints * totalCoins
      && (exitUnlocked ==> coinCount == 0)
      && IsWalkable(grid, at.r, at.c)
      && (won ==> coinCount == 0 && IsExitTile(grid, at.r, at.c))
  }

  // ---- The session ----

  class Game {
    /** The template every reset starts from. */
    const levelTemplate: seq<string>
    var started: bool
    var won: bool
    var score: int
    var isFullMode: bool
    var level: Level
    var player: Player
    /** The coins the level held at the last reset. */
    ghost var totalCoins: int

    /** The player is bound to the level, and the session is consistent with both. */
    ghost predicate Valid()
      reads this, level, player
    {
      && ProperTemplate(levelTemplate)
      && player.level == level
      && level.Valid()
      && Consistent(started, won, score, totalCoins, level.grid, level.coins, level.coinCount, level.exitUnlocked,
                    Pos(player.r, player.c))
    }

    /**
     * `resetLevelStateFromTemplate`: a fresh grid copied from the template with
     * the spawn mark turned into floor, a fresh level over it and a fresh
     * player standing on the last spawn mark, or at (0, 0) if there is none.
     */
    static method LevelStateFromTemplate(t: Grid) returns (level: Level, player: Player)
      ensures fresh(level) && fresh(player) && player.level == level && level.Valid()
      ensures level.grid == SpawnFree(t) && level.coins == {} && level.coinCount == 0 && !level.exitUnlocked
      ensures (exists q :: IsSpawnCell(t, q)) ==> IsLastSpawn(t, Pos(player.r, player.c))
      ensures (forall q :: !IsSpawnCell(t, q)) ==> player.r == 0 && player.c == 0
      ensures player.facing == South && !player.isWalking && player.walkTimer == 0.0
    {
      var grid, spawn := FreeSpawn(t);
      level := new Level(grid);
      player := new Player(level);
      player.SetGridPos(spawn.r, spawn.c);
    }

    /** A session in the menu: not started, a level over the freed template with nothing registered yet. */
    constructor ()
      ensures fresh(level) && fresh(player)
      ensures Valid() && !started && !won && score == 0 && !isFullMode
      ensures levelTemplate == MazeTemplate && level.grid == SpawnFree(MazeTemplate)
      ensures level.coins == {} && level.coinCount == 0 && !level.exitUnlocked
      ensures player.r == 1 && player.c == 1
      ensures player.facing == South && !player.isWalking && player.walkTimer == 0.0
    {
      started := false;
      levelTemplate := MazeTemplate;
      MazeTemplateIsProper();
      var l, p := LevelStateFromTemplate(MazeTemplate);
      ProperTemplateSpawn(MazeTemplate, p.r, p.c);
      level, player := l, p;
      isFullMode := false;
      won := false;
      score := 0;
      totalCoins := 0;
    }

    /**
     * `movePlayer`: outside a running, unwon game nothing happens. Otherwise
     * the player tries the move; after a successful one a coin on the new cell
     * is collected for ten points, the exit opens once no coin is left, and
     * standing on the open exit wins the game.
     */
    method MovePlayer(dr: int, dc: int) returns (ok: bool)
      requires Valid()
      modifies this`score, this`won, level, player
      ensures Valid()
      ensures !old(started) || old(won) ==> !ok
      ensures ok == (old(started) && !old(won) && IsWalkable(old(level.grid), old(player.r) + dr, old(player.c) + dc))
      ensures ok ==> player.r == old(player.r) + dr && player.c == old(player.c) + dc
      ensures ok ==> player.facing == FacingFor(dr, dc, old(player.facing)) && player.isWalking && player.walkTimer == WalkBurst
      ensures !ok ==> score == old(score) && won == old(won) && unchanged(level) && unchanged(player)
      ensures level.grid == if ok && Pos(player.r, player.c) in old(level.coins)
                            then ClearCell(old(level.grid), player.r, player.c) else old(level.grid)
      ensures forall i, j :: IsWalkable(level.grid, i, j) == IsWalkable(old(level.grid), i, j)
      ensures ok ==> level.coins == old(level.coins) - {Pos(player.r, player.c)}
      ensures ok ==> score == old(score) + (if Pos(player.r, player.c) in old(level.coins) then CoinPoints else 0)
      ensures ok ==> level.exitUnlocked == (old(level.exitUnlocked) || level.coinCount == 0)
      ensures ok ==> won == (level.exitUnlocked && IsExitTile(level.grid, player.r, player.c))
      ensures score >= old(score) && (old(level.exitUnlocked) ==> level.exitUnlocked)
    {
      if !started {
        return false;
      }
      if won {
        return false;
      }
      var moved := StepPlayer(dr, dc);
      if !moved {
        return false;
      }
      SettleMove();
      return true;
    }

    /** The player's half of a move: `tryMove` keeps the player on a walkable cell. */
    method StepPlayer(dr: int, dc: int) returns (moved: bool)
      requires Valid() && started && !won
      modifies player`r, player`c, player`facing, player`isWalking, player`walkTimer
      ensures Valid()
      ensures moved == IsWalkable(level.grid, old(player.r) + dr, old(player.c) + dc)
      ensures moved ==> player.r == old(player.r) + dr && player.c == old(player.c) + dc
      ensures moved ==> player.facing == FacingFor(dr, dc, old(player.facing)) && player.isWalking && player.walkTimer == WalkBurst
      ensures !moved ==> unchanged(player)
    {
      moved := player.TryMove(dr, dc);
    }

    /** The rest of a successful move: coin pickup, exit unlock and win check. */
    method SettleMove()
      requires Valid() && started && !won
      modifies this`score, this`won, level
      ensures Valid()
      ensures level.coins == old(level.coins) - {Pos(player.r, player.c)}
      ensures level.grid == if Pos(player.r, player.c) in old(level.coins)
                            then ClearCell(old(level.grid), player.r, player.c) else old(level.grid)
      ensures forall i, j :: IsWalkable(level.grid, i, j) == IsWalkable(old(level.grid), i, j)
      ensures score == old(score) + (if Pos(player.r, player.c) in old(level.coins) then CoinPoints else 0)
      ensures level.exitUnlocked == (old(level.exitUnlocked) || level.coinCount == 0)
      ensures won == (level.exitUnlocked && IsExitTile(level.grid, player.r, player.c))
    {
      CollectUnderPlayer();
      UnlockAndCheckWin();
    }

    /** The coin pickup of a move: the coin under the player, if any, goes and scores. */
    method CollectUnderPlayer()
      requires Valid() && started && !won
      modifies this`score, level`coins, level`coinCount, level`grid
      ensures Valid()
      ensures level.coins == old(level.coins) - {Pos(player.r, player.c)}
      ensures level.grid == if Pos(player.r, player.c) in old(level.coins)
                            then ClearCell(old(level.grid), player.r, player.c) else old(level.grid)
      ensures forall i, j :: IsWalkable(level.grid, i, j) == IsWalkable(old(level.grid), i, j)
      ensures score == old(score) + (if Pos(player.r, player.c) in old(level.coins) then CoinPoints else 0)
    {
      var r, c := player.r, player.c;
      if level.exitUnlocked {
        // an open exit means every coin is gone, so nothing is collected
        assert level.coins == {};
      }
      var collected := level.CollectCoinAt(r, c);
      if collected {
        score := score + CoinPoints;
      }
    }

    /** The end of a move: the exit unlocks once no coin is left, and reaching it unlocked wins. */
    method UnlockAndCheckWin()
      requires Valid() && started && !won
      modifies this`won, level`exitUnlocked
      ensures Valid()
      ensures level.exitUnlocked == (old(level.exitUnlocked) || level.coinCount == 0)
      ensures won == (level.exitUnlocked && IsExitTile(level.grid, player.r, player.c))
    {
      if !level.exitUnlocked && level.coinCount == 0 {
        level.SetExitUnlocked(true);
      }
      if level.exitUnlocked && IsExitTile(level.grid, player.r, player.c) {
        won := true;
      }
    }

    /**
     * `resetGame`: no win, score 0, a fresh level and player from the
     * template, the level built in the chosen mode with every coin
     * registered, and the exit locked.
     */
    method ResetGame(isFull: bool)
      requires ProperTemplate(levelTemplate)
      modifies this`won, this`score, this`level, this`player, this`isFullMode, this`totalCoins
      ensures fresh(level) && fresh(player) && Valid()
      ensures !won && score == 0 && isFullMode == isFull
      ensures level.grid == SpawnFree(levelTemplate) && level.coins == CoinCells(level.grid)
      ensures level.coinCount == totalCoins == |CoinCells(level.grid)| && !level.exitUnlocked
      ensures player.r == 1 && player.c == 1
      ensures player.facing == South && !player.isWalking && player.walkTimer == 0.0
    {
      won := false;
      score := 0;
      var l, p := LevelStateFromTemplate(levelTemplate);
      ProperTemplateSpawn(levelTemplate, p.r, p.c);
      isFullMode := isFull;
      l.Rebuild(isFull);
      l.SetExitUnlocked(false);
      level, player := l, p;
      totalCoins := l.coinCount;
    }

    /** `startPrototype`: the camera is placed and the game reset. */
    method StartPrototype(isFull: bool)
      requires ProperTemplate(levelTemplate)
      modifies this`won, this`score, this`level, this`player, this`isFullMode, this`totalCoins
      ensures fresh(level) && fresh(player) && Valid()
      ensures !won && score == 0 && isFullMode == isFull
      ensures level.grid == SpawnFree(levelTemplate) && level.coins == CoinCells(level.grid)
      ensures level.coinCount == totalCoins == |CoinCells(level.grid)| && !level.exitUnlocked
      ensures player.r == 1 && player.c == 1
      ensures player.facing == South && !player.isWalking && player.walkTimer == 0.0
    {
      ResetGame(isFull);
    }

    /** The start button: the session runs and a fresh game begins. */
    method Start(isFull: bool)
      requires ProperTemplate(levelTemplate)
      modifies this`started, this`won, this`score, this`level, this`player, this`isFullMode, this`totalCoins
      ensures fresh(level) && fresh(player) && Valid() && started
      ensures !won && score == 0 && isFullMode == isFull
      ensures level.grid == SpawnFree(levelTemplate) && level.coins == CoinCells(level.grid)
      ensures level.coinCount == totalCoins == |CoinCells(level.grid)| && !level.exitUnlocked
      ensures player.r == 1 && player.c == 1
      ensures player.facing == South && !player.isWalking && player.walkTimer == 0.0
    {
      started := true;
      StartPrototype(isFull);
    }

    /** The back-to-menu button: the win is cleared and the session stops. */
    method BackToMenu()
      requires Valid()
      modifies this`won, this`started
      ensures Valid() && !won && !started
    {
      won := false;
      started := false;
    }

    /**
     * The mode toggle: the level is rebuilt in the chosen mode over its
     * current grid, re-registering the coins still on it, and the exit keeps
     * the lock state the rebuild left.
     */
    method ToggleMode(isFull: bool)
      requires Valid()
      modifies this`isFullMode, level
      ensures Valid() && isFullMode == isFull
      ensures level.grid == old(level.grid) && level.coins == CoinCells(level.grid)
      ensures started ==> level.coinCount == old(level.coinCount)
      ensures level.exitUnlocked == (old(level.exitUnlocked) && (isFull || !HasExit(level.grid)))
    {
      isFullMode := isFull;
      level.Rebuild(isFullMode);
      level.SetExitUnlocked(level.exitUnlocked);
    }
  }

  /** In a running game, a win means every coin was collected: the score is ten points per coin of the level. */
  lemma WinMeansFullScore(game: Game)
    requires game.Valid() && game.started && game.won
    ensures game.score == CoinPoints * game.totalCoins
    ensures game.level.coins == {}
  {
  }
}
