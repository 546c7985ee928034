/**
 * The maze model of src/level.js: a character grid ('#' wall, '.' coin,
 * ' ' floor, 'E' exit), its walkability and exit predicates, the coin
 * registry with its counter, and the exit lock.
 */
module Maze {
  import opened Geometry

  /** Rows of characters, as the game's array of split template strings. */
  type Grid = seq<seq<char>>

  const Wall: char := '#'
  const Coin: char := '.'
  const Floor: char := ' '
  const Exit: char := 'E'

  /** The column bound of `inBounds`: the length of row 0 (no rows, no columns). */
  function Width(g: Grid): nat
  {
    if |g| == 0 then 0 else |g[0]|
  }

  /** `inBounds`: rows against the row count, columns against the length of row 0. */
  predicate InBounds(g: Grid, r: int, c: int)
  {
    0 <= r < |g| && 0 <= c < Width(g)
  }

  /** `grid[r][c]`, which is `undefined` (here None) outside the actual row. */
  function CellAt(g: Grid, r: int, c: int): (cell: Option<char>)
    ensures cell.Some? <==> 0 <= r < |g| && 0 <= c < |g[r]|
  {
    if 0 <= r < |g| && 0 <= c < |g[r]| then Some(g[r][c]) else None
  }

  /** `isWalkable`: in bounds and not a wall. */
  predicate IsWalkable(g: Grid, r: int, c: int)
  {
    InBounds(g, r, c) && CellAt(g, r, c) != Some(Wall)
  }

  /** `isExitTile`: the cell holds 'E' (false wherever the cell does not exist). */
  predicate IsExitTile(g: Grid, r: int, c: int)
  {
    CellAt(g, r, c) == Some(Exit)
  }

  /** Every row as long as row 0, as the game's template is. */
  predicate Rectangular(g: Grid)
  {
    forall i :: 0 <= i < |g| ==> |g[i]| == Width(g)
  }

  /** On a rectangular grid a cell is walkable exactly when it exists and is not a wall. */
  lemma WalkableOnRectangle(g: Grid, r: int, c: int)
    requires Rectangular(g)
    ensures IsWalkable(g, r, c) <==> 0 <= r < |g| && 0 <= c < |g[r]| && g[r][c] != Wall
  {
  }

  /**
   * On a ragged grid a column past the end of a short row, but inside the
   * width of row 0, is walkable: the missing cell is not a wall.
   */
  lemma ShortRowGapIsWalkable(g: Grid, r: int, c: int)
    requires 0 <= r < |g| && |g[r]| <= c < Width(g)
    ensures IsWalkable(g, r, c) && CellAt(g, r, c) == None
  {
  }

  /** The exit tile is walkable whatever the lock state: locking gates winning, not movement. */
  lemma ExitTileIsWalkable(g: Grid, r: int, c: int)
    requires Rectangular(g)
    requires IsExitTile(g, r, c)
    ensures IsWalkable(g, r, c) && InBounds(g, r, c)
  {
  }

  /** The positions of the coin cells of a grid. */
  ghost function CoinCells(g: Grid): set<Pos>
  {
    set r, c | 0 <= r < |g| && 0 <= c < |g[r]| && g[r][c] == Coin :: Pos(r, c)
  }

  /** The coin cells met before cell (r, c) in a row-major scan. */
  ghost function CoinsBefore(g: Grid, r: int, c: int): set<Pos>
  {
    set i, j | 0 <= i < |g| && 0 <= j < |g[i]| && RowMajorBefore(Pos(i, j), Pos(r, c)) && g[i][j] == Coin :: Pos(i, j)
  }

  /** Some exit cell is met before cell (r, c) in a row-major scan. */
  ghost predicate ExitBefore(g: Grid, r: int, c: int)
  {
    exists i, j :: 0 <= i < |g| && 0 <= j < |g[i]| && RowMajorBefore(Pos(i, j), Pos(r, c)) && g[i][j] == Exit
  }

  /** The grid holds an exit cell. */
  ghost predicate HasExit(g: Grid)
  {
    exists i, j :: IsExitTile(g, i, j)
  }

  /** The grid after a coin at (r, c) is picked up: that cell becomes floor. */
  function ClearCell(g: Grid, r: int, c: int): (g': Grid)
    requires 0 <= r < |g| && 0 <= c < |g[r]|
    ensures |g'| == |g| && Width(g') == Width(g)
    ensures forall i :: 0 <= i < |g| ==> |g'[i]| == |g[i]|
    ensures CellAt(g', r, c) == Some(Floor)
    ensures forall i, j :: (i, j) != (r, c) ==> CellAt(g', i, j) == CellAt(g, i, j)
  {
    g[r := g[r][c := Floor]]
  }

  /** Clearing a coin removes exactly its position from the coin cells. */
  lemma ClearCellCoins(g: Grid, r: int, c: int)
    requires 0 <= r < |g| && 0 <= c < |g[r]| && g[r][c] == Coin
    ensures CoinCells(ClearCell(g, r, c)) == CoinCells(g) - {Pos(r, c)}
  {
    var g' := ClearCell(g, r, c);
    forall p | p in CoinCells(g')
      ensures p in CoinCells(g) - {Pos(r, c)}
    {
      assert CellAt(g', p.r, p.c) == Some(Coin);
    }
    forall p | p in CoinCells(g) - {Pos(r, c)}
      ensures p in CoinCells(g')
    {
      assert CellAt(g, p.r, p.c) == Some(Coin);
      assert CellAt(g', p.r, p.c) == Some(Coin);
    }
  }

  /** Clearing a coin changes neither walkability nor exit tiles anywhere: '.' only becomes ' '. */
  lemma ClearCellKeepsTerrain(g: Grid, r: int, c: int)
    requires 0 <= r < |g| && 0 <= c < |g[r]| && g[r][c] == Coin
    ensures forall i, j :: IsWalkable(ClearCell(g, r, c), i, j) == IsWalkable(g, i, j)
    ensures forall i, j :: IsExitTile(ClearCell(g, r, c), i, j) == IsExitTile(g, i, j)
  {
  }

  lemma CoinsBeforeStep(g: Grid, r: int, c: int)
    requires 0 <= r < |g| && 0 <= c < |g[r]|
    ensures g[r][c] == Coin ==> CoinsBefore(g, r, c + 1) == CoinsBefore(g, r, c) + {Pos(r, c)}
    ensures g[r][c] == Coin ==> |CoinsBefore(g, r, c + 1)| == |CoinsBefore(g, r, c)| + 1
    ensures g[r][c] != Coin ==> CoinsBefore(g, r, c + 1) == CoinsBefore(g, r, c)
    ensures ExitBefore(g, r, c + 1) == (ExitBefore(g, r, c) || g[r][c] == Exit)
  {
    assert Pos(r, c) !in CoinsBefore(g, r, c);
    if ExitBefore(g, r, c + 1) && g[r][c] != Exit {
      var i, j :| 0 <= i < |g| && 0 <= j < |g[i]| && RowMajorBefore(Pos(i, j), Pos(r, c + 1)) && g[i][j] == Exit;
      assert RowMajorBefore(Pos(i, j), Pos(r, c));
    }
    if g[r][c] == Exit {
      assert RowMajorBefore(Pos(r, c), Pos(r, c + 1));
    }
  }

  lemma CoinsBeforeNextRow(g: Grid, r: int)
    requires 0 <= r < |g|
    ensures CoinsBefore(g, r, |g[r]|) == CoinsBefore(g, r + 1, 0)
    ensures ExitBefore(g, r, |g[r]|) == ExitBefore(g, r + 1, 0)
  {
    if ExitBefore(g, r + 1, 0) {
      var i, j :| 0 <= i < |g| && 0 <= j < |g[i]| && RowMajorBefore(Pos(i, j), Pos(r + 1, 0)) && g[i][j] == Exit;
      assert RowMajorBefore(Pos(i, j), Pos(r, |g[r]|));
    }
  }

  lemma CoinsBeforeEnd(g: Grid)
    ensures CoinsBefore(g, |g|, 0) == CoinCells(g)
    ensures ExitBefore(g, |g|, 0) == HasExit(g)
  {
    if HasExit(g) {
      var i, j :| IsExitTile(g, i, j);
      assert RowMajorBefore(Pos(i, j), Pos(|g|, 0));
    }
    if ExitBefore(g, |g|, 0) {
      var i, j :| 0 <= i < |g| && 0 <= j < |g[i]| && RowMajorBefore(Pos(i, j), Pos(|g|, 0)) && g[i][j] == Exit;
      assert IsExitTile(g, i, j);
    }
  }

  class Level {
    var grid: Grid
    /** The keys of the `coinMeshes` map: positions of coins not yet collected. */
    var coins: set<Pos>
    var coinCount: int
    var exitUnlocked: bool

    /** The counter always equals the registry size, and only coin cells are registered. */
    ghost predicate Valid()
      reads this
    {
      coins <= CoinCells(grid) && coinCount == |coins|
    }

    /** A level over a grid: nothing registered yet, exit locked; `coinCount` is 0 until a build. */
    constructor (grid: Grid)
      ensures Valid()
      ensures this.grid == grid && coins == {} && coinCount == 0 && !exitUnlocked
    {
      this.grid := grid;
      coins := {};
      coinCount := 0;
      exitUnlocked := false;
    }

    /** The cell scan shared by both builds: registers every coin cell and reports an exit. */
    method RegisterCells() returns (hasExit: bool)
      modifies this`coins, this`coinCount
      ensures Valid() && coins == CoinCells(grid)
      ensures hasExit == HasExit(grid)
    {
      var g := grid;
      var found: set<Pos> := {};
      var count := 0;
      hasExit := false;
      var r := 0;
      while r < |g|
        invariant 0 <= r <= |g|
        invariant found == CoinsBefore(g, r, 0) && count == |found|
        invariant hasExit == ExitBefore(g, r, 0)
      {
        found, count, hasExit := ScanRow(g, r, found, count, hasExit);
        r := r + 1;
      }
      CoinsBeforeEnd(g);
      coins, coinCount := found, count;
    }

    /** One row of the cell scan: adds the row's coins and notes an exit in it. */
    static method ScanRow(g: Grid, r: nat, found: set<Pos>, count: int, hasExit: bool)
      returns (found': set<Pos>, count': int, hasExit': bool)
      requires r < |g|
      requires found == CoinsBefore(g, r, 0) && count == |found|
      requires hasExit == ExitBefore(g, r, 0)
      ensures found' == CoinsBefore(g, r + 1, 0) && count' == |found'|
      ensures hasExit' == ExitBefore(g, r + 1, 0)
    {
      found', count', hasExit' := found, count, hasExit;
      var c := 0;
      while c < |g[r]|
        invariant 0 <= c <= |g[r]|
        invariant found' == CoinsBefore(g, r, c) && count' == |found'|
        invariant hasExit' == ExitBefore(g, r, c)
      {
        CoinsBeforeStep(g, r, c);
        var cell := g[r][c];
        if cell == Coin {
          found' := found' + {Pos(r, c)};
          count' := count' + 1;
        } else if cell == Exit {
          hasExit' := true;
        }
        c := c + 1;
      }
      CoinsBeforeNextRow(g, r);
    }

    /** `buildPrototype`: registers the coins and locks the exit when the grid has one. */
    method BuildPrototype()
      modifies this`coins, this`coinCount, this`exitUnlocked
      ensures Valid() && coins == CoinCells(grid) && coinCount == |CoinCells(grid)|
      ensures exitUnlocked == (old(exitUnlocked) && !HasExit(grid))
    {
      var hasExit := RegisterCells();
      if hasExit {
        exitUnlocked := false;
      }
    }

    /** `buildFull`: registers the coins and keeps the lock state it found. */
    method BuildFull()
      modifies this`coins, this`coinCount, this`exitUnlocked
      ensures Valid() && coins == CoinCells(grid) && coinCount == |CoinCells(grid)|
      ensures exitUnlocked == old(exitUnlocked)
    {
      var wasUnlocked := exitUnlocked;
      var _ := RegisterCells();
      SetExitUnlocked(wasUnlocked);
    }

    /** `rebuild`: the full build or the prototype build. */
    method Rebuild(isFull: bool)
      modifies this`coins, this`coinCount, this`exitUnlocked
      ensures Valid() && coins == CoinCells(grid) && coinCount == |CoinCells(grid)|
      ensures exitUnlocked == (old(exitUnlocked) && (isFull || !HasExit(grid)))
    {
      if isFull {
        BuildFull();
      } else {
        BuildPrototype();
      }
    }

    /**
     * `collectCoinAt`: with no registered coin at (r, c) nothing changes;
     * otherwise the coin leaves the registry, the counter drops by one
     * (clamped at 0) and the cell becomes floor.
     */
    method CollectCoinAt(r: int, c: int) returns (collected: bool)
      requires Valid()
      modifies this`coins, this`coinCount, this`grid
      ensures Valid() && coinCount >= 0
      ensures collected == (Pos(r, c) in old(coins))
      ensures Pos(r, c) !in coins
      ensures !collected ==> coins == old(coins) && coinCount == old(coinCount) && grid == old(grid)
      ensures collected ==> 0 <= r < |old(grid)| && 0 <= c < |old(grid)[r]| && old(grid)[r][c] == Coin
      ensures collected ==> coins == old(coins) - {Pos(r, c)} && coinCount == old(coinCount) - 1
      ensures collected ==> grid == ClearCell(old(grid), r, c)
      ensures old(coins) == old(CoinCells(grid)) ==> coins == CoinCells(grid)
      ensures forall i, j :: IsWalkable(grid, i, j) == IsWalkable(old(grid), i, j)
      ensures forall i, j :: IsExitTile(grid, i, j) == IsExitTile(old(grid), i, j)
    {
      var key := Pos(r, c);
      if key !in coins {
        return false;
      }
      coins := coins - {key};
      coinCount := if coinCount - 1 < 0 then 0 else coinCount - 1;
      ClearCellCoins(grid, r, c);
      ClearCellKeepsTerrain(grid, r, c);
      grid := ClearCell(grid, r, c);
      return true;
    }

    /** `setExitUnlocked`: the lock state becomes exactly `unlocked`; nothing else changes. */
    method SetExitUnlocked(unlocked: bool)
      modifies this`exitUnlocked
      ensures exitUnlocked == unlocked
    {
      exitUnlocked := unlocked;
    }
  }
}
