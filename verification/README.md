# IslandHeights in Dafny

IslandHeights is a small pygame puzzle. Each level fetches a square map of
tile heights. A tile with a positive height is land, and 4-adjacent land
tiles form an island. The player clicks tiles to guess which island has the
highest average height. A right guess scores a point and starts a new level.
A wrong guess paints the whole island red and costs an attempt. When the
attempts run out the game is over until the player restarts it with R.

This project models the computational core of `IslandHeights/main.py` and
proves it correct against a path-based notion of 4-connectivity:

- `connectivity.dfy` (module `Connectivity`) defines tiles, adjacency,
  paths and the region `Reach(V, a)` reachable from `a` inside a tile set
  `V`. It also holds the flood-fill lemmas that describe what a recursive
  fill over four neighbours computes.
- `averages.dfy` (module `Averages`) represents the game's
  `total_height / total_tiles` (or `-1`) as an exact ratio. Ratios are
  compared by cross-multiplication.
- `islands.dfy` (module `Islands`) specifies land, islands, height sums,
  the average seen from each seed tile and the best average of a map.
- `layout.dfy` (module `Layout`) gives the column-major placement of the
  fetched list into the matrix and Python's `max`.
- `island_map.dfy` (module `IslandMap`) has the class `Map`. Its three
  `size x size` arrays hold the `height`, `checked` and `color` fields of the
  tiles. Its methods are `Map.__init__`, `Tile.check`, `Tile.set_color`,
  `check_island`, `uncheck_island` and `calculate_best_average`. Each
  recursive fill is proved against `Reach`: it checks exactly the reachable
  unchecked land (or unchecks exactly the reachable checked tiles) and
  returns their height sum (or their count).
- `game.dfy` (module `IslandGame`) has the class `Game`, with the score,
  the attempts, the level's best average and its map. Its methods are
  `Game.__init__` with the first `Game.new`, a click,
  `color_wrong_island`, the next level after a win, the restart after game
  over, and quitting. A `Phase` records whether the event loop is playing,
  showing the win message or waiting in the game-over loop.

The level invariant `Game.LevelValid` states four things:

- The checked tiles are whole islands, namely the wrong guesses so far.
- All of the checked tiles are red.
- None of them has the best average.
- `bestAverage` is the best seed average of the map.

The game invariant `Game.Valid` adds to it that `ATTEMPT_NUM` is positive,
that the attempts left lie between 0 and `ATTEMPT_NUM`, and that none are
left exactly in game over.

From the level invariant, `Game.Winnable` shows that some unchecked tile always
still has the best average.

The grid is square (`size` rows and columns). The source checks the first
index against `COLS` while the matrix has `ROWS` rows, and the two agree
only when the grid is square.

## Model

| member | source | states |
|---|---|---|
| `Layout.CellOfInGrid` | IslandHeights/main.py:59-63 | every list index below size*size is placed on a cell of the matrix, and the index can be recovered from the cell, so no two indices share a cell |
| `Layout.IndexOfInRange` | IslandHeights/main.py:59-61 | every cell of the matrix is the placement of exactly one list index, which lies in the list; with CellOfInGrid, the placement is a bijection |
| `Layout.MaxOf` | IslandHeights/main.py:58 | the maximum height is at least every element of the list and equal to one of them |
| `Averages.AverageShape` | IslandHeights/main.py:102 | the average has a positive denominator; a positive total over at least one tile lies above -1; a count of 0 gives the -1 sentinel |
| `Connectivity.FloodFour` | IslandHeights/main.py:74-77 | the seed plus the regions of the four recursive calls, each taken over what the previous calls left, are pairwise disjoint, make up exactly the seed's region, and leave the rest unvisited |
| `Connectivity.UnmarkedRegion` | IslandHeights/main.py:71 | when the checked tiles are whole regions and the seed is unchecked, the fill over unchecked land reaches the same region as a fill over all land |
| `Connectivity.MarkThenUnmark` | IslandHeights/main.py:159-160 | after checking the seed's region, unchecking from the seed clears exactly that region, restores the old flags, and the region is non-empty exactly when the seed is land |
| `Connectivity.SameRegion` | IslandHeights/main.py:98-101 | every tile of a region reaches the same region, so each tile of an island is a seed for the same island |
| `Connectivity.ReachMinimal` | IslandHeights/main.py:71-77 | a region is contained in every set that holds the seed and that no step to an adjacent allowed tile leaves |
| `Islands.RegionSumParts` | IslandHeights/main.py:70-77 | the height sum over the seed and four disjoint parts is the seed's height plus the four partial sums |
| `Islands.SeedAverageShape` | IslandHeights/main.py:100-102 | a seed has a non-empty island exactly when it is land; a land seed's average lies above -1, and every other seed gives -1 |
| `Islands.BestAverageSentinel` | IslandHeights/main.py:96-107 | the best average is -1 exactly when the map has no land tile |
| `Islands.IslandFromAnyTile` | IslandHeights/main.py:98-102 | seeding from any tile of an island gives the same island and the same average |
| `Islands.LoneTile` | IslandHeights/main.py:66-79 | a land tile without land neighbours is an island of its own whose average is its height |
| `Islands.WinOnlyOnLand` | IslandHeights/main.py:161-163 | on a map with land, only a land tile can have an average equal to the best one |
| `Islands.IslandShares` | IslandHeights/main.py:163-169 | when one tile's average is not the best, no tile of its island has the best average |
| `IslandMap.Map.constructor` | IslandHeights/main.py:53-63 | every list element i ends up as the height of cell (i % size, i / size); its colour is BLUE exactly when its normalised height is 0; no tile starts checked |
| `IslandMap.Map.Check` | IslandHeights/main.py:45-46 | the tile's checked flag flips and no other flag changes |
| `IslandMap.Map.SetColor` | IslandHeights/main.py:48-50 | the tile gets the colour and no other tile's colour changes |
| `IslandMap.Map.CheckIsland` | IslandHeights/main.py:66-79 | checks exactly the unchecked land tiles reachable from the seed, leaves every other flag alone, and returns their height sum; an off-map, checked or water seed returns 0 and changes nothing |
| `IslandMap.Map.UncheckIsland` | IslandHeights/main.py:81-94 | clears exactly the checked tiles reachable from the seed through checked tiles and returns how many it cleared; an off-map or unchecked seed returns 0 and changes nothing |
| `IslandMap.Map.MeasureIsland` | IslandHeights/main.py:158-161 | check_island then uncheck_island from a tile outside the checked islands restores every flag and yields that tile's seed average |
| `IslandMap.Map.CalculateBestAverage` | IslandHeights/main.py:96-107 | on an unchecked map, returns an average that is at least every seed's average and equal to one of them, and leaves every flag false |
| `IslandGame.RepaintParts` | IslandHeights/main.py:186-191 | painting the seed red and then the four recursive regions one after another paints exactly their union |
| `IslandGame.Game.ColorWrongIsland` | IslandHeights/main.py:181-191 | checks and paints red exactly the unchecked land tiles reachable from the seed, and never unchecks them; any other seed changes nothing |
| `IslandGame.Game.Click` | IslandHeights/main.py:148-175 | a red or blue tile is ignored; otherwise the tile turns red, and an average equal to the best adds one to the score and wins; a different average paints the island red, checks it, costs one attempt and ends the game at zero |
| `IslandGame.Game.Miss` | IslandHeights/main.py:168-175 | a wrong guess checks and paints the guessed island, keeps the game invariant, spends one attempt, and enters game over exactly when none remain |
| `IslandGame.Game.Winnable` | IslandHeights/main.py:163-166 | while a level is played, some unchecked tile still has the best average |
| `IslandGame.Game.constructor` | IslandHeights/main.py:116-139 | the game starts with the start score, running, on a fresh map laid out from the fetched data (element i is the height of cell (i % size, i / size), and the cell has its starting colour) with no checked tile, the map's best average, and every attempt |
| `IslandGame.Game.New` | IslandHeights/main.py:135-139 | a fresh unchecked map laid out from the fetched data, heights and starting colours, its best average and a full set of attempts; score and running are kept |
| `IslandGame.Game.NextLevel` | IslandHeights/main.py:217-229 | after a win the next level starts on a fresh unchecked map laid out from the fetched data, heights and starting colours, with every attempt, and the score is kept |
| `IslandGame.Game.Restart` | IslandHeights/main.py:212-215 | in game over, R resets the score to the start score and starts a fresh unchecked map laid out from the fetched data, heights and starting colours, with every attempt |
| `IslandGame.Game.Quit` | IslandHeights/main.py:145-146 | quitting stops the game loop |

## Left out

- The HTTP fetch of the heights (`requests.get`) is left out. Each level's
  heights arrive as the `data` parameter, already converted to integers.
- `LevelData` is required of `data`: a size x size list whose maximum
  differs from `MIN_HEIGHT`. With fewer elements some cells stay `None`,
  and with more the placement indexes outside the matrix. An equal maximum
  divides by zero in `height_to_color`. The source crashes in all three
  cases, and the model treats them as preconditions.
- `settings.py` is not part of this model. `size` (ROWS == COLS),
  `MIN_HEIGHT`, `ATTEMPT_NUM` and `START_SCORE` are constructor parameters,
  and `ATTEMPT_NUM` is taken to be positive.
- `height_to_color` (main.py lines 17-40) is modelled by
  `IslandMap.InitialColor` only as far as the game uses it: whether a tile
  starts BLUE, which holds exactly when `(height - MIN_HEIGHT) *
  (max_height - MIN_HEIGHT) <= 0`, the clamped normalised height being 0. Gradient colours are `Shade(height)`. They are assumed
  to differ from RED and BLUE, because the click test compares colours.
- Floating-point division, `==` and `>` on averages are replaced by exact
  rationals. Two different exact averages whose float quotients coincide
  are not modelled. For them the source's `==` (main.py line 163) and `>`
  (line 104) answer differently from `Same` and `Less`.
- Rendering, surfaces, fonts, sounds, music, `pygame.time.wait` and
  `display_map` are left out, as are the display_message, display_score,
  display_you_win and display_game_over functions. They change no game
  state except that `display_you_win` ends in `Game.new`, which is
  `NextLevel`.
- The event loop is left out. `run` and the blocking loop of `game_over`
  become separate entry points: `Click`, `NextLevel`, `Restart` and `Quit`.
  `Phase` says which of them applies.
- Events that arrive after a QUIT in the same batch are not modelled.
- The pixel-to-tile conversion via `mouse.get_pos()` and `TILESIZE` is
  left out. `Click` takes an in-grid `(col, row)`.
- `Game.NextLevel` takes the next level's data as a parameter. In the
  source, the win path calls `Game.new` inside the click.
- `IslandMap.Map.CalculateBestAverage` requires that no tile is checked on
  entry. The source only calls it on a fresh map, and its result is
  meaningless otherwise.
- Recursion depth is not modelled. Python's recursion limit could stop a
  fill on a very large island, but the model treats recursion as unbounded.
