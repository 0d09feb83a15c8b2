/**
 * The game: a level is a map and the best island average on it; a click on
 * a tile that is neither water (BLUE) nor already RED paints it RED and
 * compares the average of its island with the best one. A right guess
 * scores a point and starts a new level; a wrong guess paints the whole
 * island RED and costs an attempt, and the last attempt ends the game until
 * it is restarted.
 */
module IslandGame {
  import opened Connectivity
  import opened Averages
  import opened Islands
  import opened Layout
  import opened IslandMap

  /** Where the event loop is: playing a level, showing the win message
      (display_you_win, which goes on to the next level), or in the
      game_over loop waiting for R. */
  datatype Phase = Playing | Won | GameOver

  /** m with every tile of S painted RED. */
  ghost function Repaint(m: map<Pos, Color>, S: set<Pos>): (r: map<Pos, Color>)
    ensures r.Keys == m.Keys
    ensures forall p :: p in m ==> r[p] == if p in S then Red else m[p]
  {
    map p | p in m :: if p in S then Red else m[p]
  }

  /** Painting the seed and then the four parts one after the other paints
      their union. */
  lemma RepaintParts(m: map<Pos, Color>, s: Pos, R1: set<Pos>, R2: set<Pos>, R3: set<Pos>, R4: set<Pos>)
    requires s in m
    ensures Repaint(Repaint(Repaint(Repaint(m[s := Red], R1), R2), R3), R4)
         == Repaint(m, {s} + R1 + R2 + R3 + R4)
  {
  }

  class Game {
    const size: nat
    const minHeight: int
    const attemptNum: int
    const startScore: int

    var heightMap: Map
    var bestAverage: Ratio
    var attempts: int
    var score: int
    var running: bool
    var phase: Phase

    /** The level invariant: the map is well formed, the checked tiles are
        whole islands (the wrong guesses so far) and all of them are RED,
        and bestAverage is the best seed average of the map. */
    ghost predicate LevelValid()
      reads this`heightMap, this`bestAverage, heightMap, heightMap.height, heightMap.checked, heightMap.color
    {
      && heightMap.Valid() && heightMap.size == size
      && heightMap.marked <= Land(heightMap.heights)
      && Closed(Land(heightMap.heights), heightMap.marked)
      && (forall p :: p in heightMap.marked ==> p in heightMap.paint && heightMap.paint[p] == Red)
      && (forall p :: p in heightMap.marked ==> !Same(SeedAverage(heightMap.heights, p), bestAverage))
      && IsBestAverage(heightMap.heights, bestAverage)
    }

    ghost predicate Valid()
      reads this, heightMap, heightMap.height, heightMap.checked, heightMap.color
    {
      && LevelValid()
      && attemptNum > 0
      && 0 <= attempts <= attemptNum
      && (attempts == 0 <==> phase == GameOver)
    }

    /** Since only wrong guesses are checked, some unchecked tile of the
        level still has the best average. */
    lemma Winnable()
      requires LevelValid()
      ensures exists p :: p in heightMap.heights && p !in heightMap.marked
                          && Same(SeedAverage(heightMap.heights, p), bestAverage)
    {
      var w :| w in heightMap.heights && bestAverage == SeedAverage(heightMap.heights, w);
      assert Same(SeedAverage(heightMap.heights, w), bestAverage);
    }

    /** Tile p can still be guessed: it is neither water (BLUE) nor already
        painted RED. */
    ghost predicate Guessable(p: Pos)
      reads this, heightMap
    {
      p in heightMap.paint && heightMap.paint[p] != Red && heightMap.paint[p] != Blue
    }

    /** A mouse click on tile (col, row) while a level is being played (the
        body of the MOUSEBUTTONDOWN case of Game.run). A tile that cannot be
        guessed is ignored. Otherwise it is painted RED and the average of
        its island is compared with the best one: equal scores a point and
        wins the level; different paints the island RED, checks its tiles
        for good and costs an attempt, and the last attempt ends the game. */
    method Click(col: int, row: int)
      requires Valid() && phase == Playing && InGrid((col, row), size, size)
      modifies this`score, this`attempts, this`phase
      modifies heightMap`marked, heightMap`paint, heightMap.checked, heightMap.color
      ensures Valid() && heightMap == old(heightMap) && bestAverage == old(bestAverage)
      ensures !old(Guessable((col, row))) ==>
                && score == old(score) && attempts == old(attempts) && phase == old(phase)
                && heightMap.marked == old(heightMap.marked) && heightMap.paint == old(heightMap.paint)
      ensures old(Guessable((col, row))) && Same(SeedAverage(heightMap.heights, (col, row)), bestAverage) ==>
                && score == old(score) + 1 && attempts == old(attempts) && phase == Won
                && heightMap.marked == old(heightMap.marked)
                && heightMap.paint == old(heightMap.paint)[(col, row) := Red]
      ensures old(Guessable((col, row))) && !Same(SeedAverage(heightMap.heights, (col, row)), bestAverage) ==>
                && score == old(score) && attempts == old(attempts) - 1
                && phase == (if attempts == 0 then GameOver else Playing)
                && heightMap.marked == old(heightMap.marked) + Island(heightMap.heights, (col, row))
                && heightMap.paint == Repaint(old(heightMap.paint)[(col, row) := Red], Island(heightMap.heights, (col, row)))
    {
      hide Map.Valid, Consistent, Reach, Land, RegionSum, IsBestAverage, Closed, Repaint;
      var m := heightMap;
      m.TileView(col, row);
      if m.color[col, row] == Red || m.color[col, row] == Blue {
        assert Valid();
        return;
      }
      m.SetColor(col, row, Red);
      var average := m.MeasureIsland(col, row);
      if Same(average, bestAverage) {
        score := score + 1;
        phase := Won;
        assert LevelValid();
        assert Valid();
      } else {
        Miss(col, row);
      }
    }

    /** The wrong-guess branch of a click: the island of the guessed tile is
        checked and painted RED, one attempt is spent, and spending the last
        one ends the game. */
    method Miss(col: int, row: int)
      requires Valid() && phase == Playing && (col, row) !in heightMap.marked
      requires !Same(SeedAverage(heightMap.heights, (col, row)), bestAverage)
      modifies this`attempts, this`phase
      modifies heightMap`marked, heightMap`paint, heightMap.checked, heightMap.color
      ensures Valid() && attempts == old(attempts) - 1
      ensures phase == (if attempts == 0 then GameOver else Playing)
      ensures heightMap.marked == old(heightMap.marked) + Island(heightMap.heights, (col, row))
      ensures heightMap.paint == Repaint(old(heightMap.paint), Island(heightMap.heights, (col, row)))
    {
      hide Map.Valid, Consistent, Reach, Land, RegionSum, IsBestAverage, Closed, Repaint;
      var m := heightMap;
      ghost var s, C, V := (col, row), m.marked, Land(m.heights);
      m.TileView(col, row);
      UnmarkedRegion(V, C, s);
      MarkThenUnmark(V, C, s);
      ghost var P, I := m.paint, Island(m.heights, s);
      assert I == Reach(V, s);
      hide Island, SeedAverage;
      ColorWrongIsland(col, row);
      IslandShares(m.heights, s, bestAverage);
      assert m.marked == C + I;
      assert m.paint == Repaint(P, I);
      assert LevelValid();
      hide LevelValid;
      attempts := attempts - 1;
      if attempts == 0 {
        phase := GameOver;
      }
    }

    /** Game.__init__ followed by the first Game.new, with the fetched heights
        of the first level given as data. */
    constructor (size: nat, minHeight: int, attemptNum: int, startScore: int, data: seq<int>)
      requires LevelData(size, minHeight, data) && attemptNum > 0
      ensures Valid() && fresh(heightMap) && fresh(heightMap.checked) && fresh(heightMap.color)
      ensures this.size == size && this.minHeight == minHeight
      ensures this.attemptNum == attemptNum && this.startScore == startScore
      ensures score == startScore && running && phase == Playing && attempts == attemptNum
      ensures heightMap.marked == {} && heightMap.LaidOut(minHeight, data)
    {
      hide Consistent, IsBestAverage, Land, Reach;
      this.size := size;
      this.minHeight := minHeight;
      this.attemptNum := attemptNum;
      this.startScore := startScore;
      score := startScore;
      running := true;
      phase := Playing;
      heightMap := new Map(size, minHeight, data);
      new;
      bestAverage := heightMap.CalculateBestAverage();
      attempts := attemptNum;
    }

    /** Game.new: a fresh level from the fetched heights data, its best
        average, and a full set of attempts. */
    method New(data: seq<int>)
      requires LevelData(size, minHeight, data)
      modifies this
      ensures LevelValid() && fresh(heightMap) && fresh(heightMap.checked) && fresh(heightMap.color) && heightMap.marked == {}
      ensures heightMap.LaidOut(minHeight, data)
      ensures attempts == attemptNum
      ensures score == old(score) && running == old(running) && phase == old(phase)
    {
      hide Consistent, IsBestAverage, Land, Reach;
      heightMap := new Map(size, minHeight, data);
      bestAverage := heightMap.CalculateBestAverage();
      attempts := attemptNum;
    }

    /** The part of display_you_win that matters: after a right guess the
        next level starts. */
    method NextLevel(data: seq<int>)
      requires Valid() && phase == Won
      requires LevelData(size, minHeight, data)
      modifies this
      ensures Valid() && phase == Playing && fresh(heightMap) && fresh(heightMap.checked) && fresh(heightMap.color) && heightMap.marked == {}
      ensures heightMap.LaidOut(minHeight, data)
      ensures attempts == attemptNum && score == old(score) && running == old(running)
    {
      hide Consistent, IsBestAverage, Land, Reach, Closed;
      New(data);
      phase := Playing;
    }

    /** Game.game_over on the R key: the score starts over and so does the
        level. */
    method Restart(data: seq<int>)
      requires Valid() && phase == GameOver
      requires LevelData(size, minHeight, data)
      modifies this
      ensures Valid() && phase == Playing && fresh(heightMap) && fresh(heightMap.checked) && fresh(heightMap.color) && heightMap.marked == {}
      ensures heightMap.LaidOut(minHeight, data)
      ensures attempts == attemptNum && score == startScore && running == old(running)
    {
      hide Consistent, IsBestAverage, Land, Reach, Closed;
      score := startScore;
      New(data);
      phase := Playing;
    }

    /** The QUIT event, in the event loop or in the game_over loop. */
    method Quit()
      modifies this`running
      ensures !running
    {
      running := false;
    }

    /** Game.color_wrong_island: checks and paints RED every unchecked land
        tile 4-connected to (x, y) through unchecked land. */
    method ColorWrongIsland(x: int, y: int)
      requires heightMap.Valid()
      modifies heightMap`marked, heightMap`paint, heightMap.checked, heightMap.color
      ensures heightMap.Valid()
      ensures heightMap.marked == old(heightMap.marked) + Reach(old(heightMap.Eligible()), (x, y))
      ensures heightMap.Eligible() == old(heightMap.Eligible()) - Reach(old(heightMap.Eligible()), (x, y))
      ensures heightMap.paint == Repaint(old(heightMap.paint), Reach(old(heightMap.Eligible()), (x, y)))
      decreases heightMap.Eligible()
    {
      hide *;
      var m := heightMap;
      m.TileView(x, y);
      if x >= m.size || x < 0 || y >= m.size || y < 0 {
        ReachOutside(m.Eligible(), (x, y));
        assert m.Eligible() - {} == m.Eligible();
        return;
      }
      if !m.checked[x, y] && m.height[x, y] > 0 {
        ghost var K, E, P := m.marked, m.Eligible(), m.paint;
        m.Check(x, y);
        m.SetColor(x, y, Red);
        m.TileView(x, y);
        ghost var W1 := m.Eligible();
        assert W1 == E - {(x, y)};
        ColorWrongIsland(x + 1, y);
        ghost var W2 := m.Eligible();
        ColorWrongIsland(x, y + 1);
        ghost var W3 := m.Eligible();
        ColorWrongIsland(x - 1, y);
        ghost var W4 := m.Eligible();
        ColorWrongIsland(x, y - 1);
        FloodFour(E, x, y, W1, W2, W3, W4);
        ghost var R1, R2, R3, R4 := Reach(W1, (x + 1, y)), Reach(W2, (x, y + 1)),
                                    Reach(W3, (x - 1, y)), Reach(W4, (x, y - 1));
        AddParts(K, (x, y), R1, R2, R3, R4, Reach(E, (x, y)));
        RepaintParts(P, (x, y), R1, R2, R3, R4);
      } else {
        ReachOutside(m.Eligible(), (x, y));
        assert m.Eligible() - {} == m.Eligible();
      }
    }
  }
}
