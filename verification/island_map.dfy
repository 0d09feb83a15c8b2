/**
 * The game's Map: a size x size matrix of tiles, each with a height, a
 * checked flag and a colour. The tiles' fields are kept as three parallel
 * matrices indexed like map_matrix; the ghost fields give their abstract
 * view (heights never change once the map is built; `marked` is the set of
 * checked tiles; `paint` the colour of each tile).
 */
module IslandMap {
  import opened Connectivity
  import opened Averages
  import opened Islands
  import opened Layout

  /** What the game logic sees of a tile's colour: BLUE, RED, or one of the
      gradient colours of land (assumed to differ from BLUE and RED). */
  datatype Color = Blue | Red | Shade(height: int)

  /** Tile.height_to_color up to the gradient: BLUE exactly when the height,
      normalised against MIN_HEIGHT and the map's maximum and clamped to
      [0, 1], is 0. */
  function InitialColor(height: int, maxHeight: int, minHeight: int): Color
    requires maxHeight != minHeight
  {
    if (height - minHeight) * (maxHeight - minHeight) <= 0 then Blue else Shade(height)
  }

  /** The fetched heights fill a size x size map, and their maximum differs
      from the minimum height the colours are normalised by. */
  predicate LevelData(size: int, minHeight: int, data: seq<int>) {
    size > 0 && |data| == size * size && MaxOf(data) != minHeight
  }

  /** The contents of a matrix as a map from cells to elements. */
  ghost function Cells<T>(a: array2<T>): (r: map<Pos, T>)
    reads a
    ensures forall p :: p in r <==> InGrid(p, a.Length0, a.Length1)
    ensures forall i, j {:trigger a[i, j]} :: 0 <= i < a.Length0 && 0 <= j < a.Length1 ==> (i, j) in r && r[(i, j)] == a[i, j]
  {
    map p | p in Grid(a.Length0, a.Length1) :: a[p.0, p.1]
  }

  /** The matrices of a size x size map agree with its abstract view:
      heights and paint are defined exactly on the cells, give each cell's
      height and colour, and marked is the set of cells whose flag is set. */
  ghost predicate Consistent(size: int, height: array2<int>, checked: array2<bool>, color: array2<Color>,
                             heights: map<Pos, int>, marked: set<Pos>, paint: map<Pos, Color>)
    reads height, checked, color
  {
    && size > 0
    && height.Length0 == size && height.Length1 == size
    && checked.Length0 == size && checked.Length1 == size
    && color.Length0 == size && color.Length1 == size
    && (forall p :: p in heights <==> InGrid(p, size, size))
    && (forall p :: p in paint <==> InGrid(p, size, size))
    && marked <= heights.Keys
    && (forall i, j {:trigger height[i, j]} :: 0 <= i < size && 0 <= j < size ==> heights[(i, j)] == height[i, j])
    && (forall i, j {:trigger color[i, j]} :: 0 <= i < size && 0 <= j < size ==> paint[(i, j)] == color[i, j])
    && (forall i, j {:trigger checked[i, j]} :: 0 <= i < size && 0 <= j < size ==> (checked[i, j] <==> (i, j) in marked))
  }

  class Map {
    /** ROWS == COLS: the matrix is square. */
    const size: nat
    const height: array2<int>
    const checked: array2<bool>
    const color: array2<Color>

    ghost const heights: map<Pos, int>
    ghost var marked: set<Pos>
    ghost var paint: map<Pos, Color>

    ghost predicate Valid()
      reads this, height, checked, color
    {
      Consistent(size, height, checked, color, heights, marked, paint)
    }

    /** The map is the layout of the fetched data: element i is the height
        of cell (i % size, i / size), and that cell has the colour
        height_to_color gives it. */
    ghost predicate LaidOut(minHeight: int, data: seq<int>)
      reads this
    {
      && LevelData(size, minHeight, data)
      && forall i :: 0 <= i < |data| ==>
           && CellOf(i, size) in heights && heights[CellOf(i, size)] == data[i]
           && CellOf(i, size) in paint && paint[CellOf(i, size)] == InitialColor(data[i], MaxOf(data), minHeight)
    }

    /** The tiles check_island may still visit: unchecked land. */
    ghost function Eligible(): set<Pos>
      reads this
    {
      Land(heights) - marked
    }

    /** What the flood fills read of a valid map at tile (x, y), for proofs
        that keep the definitions hidden. */
    lemma TileView(x: int, y: int)
      requires Valid()
      ensures height.Length0 == size && height.Length1 == size
      ensures checked.Length0 == size && checked.Length1 == size
      ensures color.Length0 == size && color.Length1 == size
      ensures paint.Keys == heights.Keys
      ensures Eligible() == Land(heights) - marked
      ensures (x, y) in marked ==> (x, y) in heights
      ensures (x, y) in Land(heights) <==> (x, y) in heights && heights[(x, y)] > 0
      ensures (x, y) in heights <==> 0 <= x < size && 0 <= y < size
      ensures (x, y) in paint <==> 0 <= x < size && 0 <= y < size
      ensures 0 <= x < size && 0 <= y < size ==>
                heights[(x, y)] == height[x, y] && (checked[x, y] <==> (x, y) in marked)
                && paint[(x, y)] == color[x, y]
    {
    }

    /** Map.__init__ with the fetched heights given as `data`: element i goes
        to cell (i % size, i / size); every flag starts unchecked. */
    constructor (size: nat, minHeight: int, data: seq<int>)
      requires LevelData(size, minHeight, data)
      ensures Valid() && fresh(height) && fresh(checked) && fresh(color)
      ensures this.size == size && marked == {}
      ensures forall i :: 0 <= i < |data| ==>
                CellOf(i, size) in heights && heights[CellOf(i, size)] == data[i]
      ensures forall i :: 0 <= i < |data| ==>
                CellOf(i, size) in paint && paint[CellOf(i, size)] == InitialColor(data[i], MaxOf(data), minHeight)
    {
      hide IndexOf, MaxOf, InitialColor, Cells;
      var maxHeight := MaxOf(data);
      var h := new int[size, size]((i, j) => 0);
      var c := new Color[size, size]((i, j) => Blue);
      var i := 0;
      while i < |data|
        invariant 0 <= i <= |data|
        invariant forall k :: 0 <= k < i ==>
                    InGrid(CellOf(k, size), size, size) && IndexOf(CellOf(k, size), size) == k
        invariant forall k :: 0 <= k < i ==> h[CellOf(k, size).0, CellOf(k, size).1] == data[k]
        invariant forall k :: 0 <= k < i ==>
                    c[CellOf(k, size).0, CellOf(k, size).1] == InitialColor(data[k], maxHeight, minHeight)
      {
        var x := i % size;
        var y := i / size;  // the next column once x wraps
        CellOfInGrid(i, size, size);
        h[x, y] := data[i];
        c[x, y] := InitialColor(data[i], maxHeight, minHeight);
        i := i + 1;
      }
      var f := new bool[size, size]((i, j) => false);
      ghost var hm, pm := Cells(h), Cells(c);
      assert Consistent(size, h, f, c, hm, {}, pm);
      this.size := size;
      height := h;
      checked := f;
      color := c;
      heights := hm;
      paint := pm;
      marked := {};
    }

    /** Tile.check: flip the checked flag of tile (x, y). */
    method Check(x: int, y: int)
      requires Valid() && InGrid((x, y), size, size)
      modifies this`marked, checked
      ensures Valid()
      ensures marked == if (x, y) in old(marked) then old(marked) - {(x, y)} else old(marked) + {(x, y)}
    {
      checked[x, y] := !checked[x, y];
      marked := if (x, y) in marked then marked - {(x, y)} else marked + {(x, y)};
    }

    /** Tile.set_color on tile (x, y). */
    method SetColor(x: int, y: int, c: Color)
      requires Valid() && InGrid((x, y), size, size)
      modifies this`paint, color
      ensures Valid()
      ensures paint == old(paint)[(x, y) := c]
    {
      color[x, y] := c;
      paint := paint[(x, y) := c];
    }

    /** Map.check_island: checks every unchecked land tile 4-connected to
        (mx, my) through unchecked land, and returns the sum of their
        heights. Off the map, on a checked tile or on water it checks nothing
        and returns 0. */
    method CheckIsland(mx: int, my: int) returns (sum: int)
      requires Valid()
      modifies this`marked, checked
      ensures Valid()
      ensures marked == old(marked) + Reach(old(Eligible()), (mx, my))
      ensures Eligible() == old(Eligible()) - Reach(old(Eligible()), (mx, my))
      ensures sum == RegionSum(heights, Reach(old(Eligible()), (mx, my)))
      ensures (mx, my) !in old(Eligible()) ==> sum == 0 && marked == old(marked)
      decreases Eligible()
    {
      hide *;
      TileView(mx, my);
      if mx >= size || mx < 0 || my >= size || my < 0 {
        ReachOutside(Eligible(), (mx, my));
        assert Eligible() - {} == Eligible();
        return 0;
      }
      sum := 0;
      if !checked[mx, my] && height[mx, my] > 0 {
        ghost var K, E := marked, Eligible();
        sum := sum + height[mx, my];
        Check(mx, my);
        TileView(mx, my);
        ghost var W1 := Eligible();
        assert W1 == E - {(mx, my)};
        var part := CheckIsland(mx + 1, my);
        sum := sum + part;
        ghost var W2 := Eligible();
        part := CheckIsland(mx, my + 1);
        sum := sum + part;
        ghost var W3 := Eligible();
        part := CheckIsland(mx - 1, my);
        sum := sum + part;
        ghost var W4 := Eligible();
        part := CheckIsland(mx, my - 1);
        sum := sum + part;
        FloodFour(E, mx, my, W1, W2, W3, W4);
        ghost var R1, R2, R3, R4 := Reach(W1, (mx + 1, my)), Reach(W2, (mx, my + 1)),
                                    Reach(W3, (mx - 1, my)), Reach(W4, (mx, my - 1));
        AddParts(K, (mx, my), R1, R2, R3, R4, Reach(E, (mx, my)));
        RegionSumParts(heights, (mx, my), R1, R2, R3, R4);
      } else {
        ReachOutside(Eligible(), (mx, my));
        assert Eligible() - {} == Eligible();
      }
    }

    /** Map.uncheck_island: unchecks every checked tile 4-connected to (x, y)
        through checked tiles, and returns how many it unchecked. Off the map
        or on an unchecked tile it changes nothing and returns 0. */
    method UncheckIsland(x: int, y: int) returns (num: int)
      requires Valid()
      modifies this`marked, checked
      ensures Valid()
      ensures marked == old(marked) - Reach(old(marked), (x, y))
      ensures num == |Reach(old(marked), (x, y))|
      ensures (x, y) !in old(marked) ==> num == 0 && marked == old(marked)
      decreases marked
    {
      hide *;
      TileView(x, y);
      if x >= size || x < 0 || y >= size || y < 0 {
        ReachOutside(marked, (x, y));
        assert marked - {} == marked;
        return 0;
      }
      num := 0;
      if checked[x, y] {
        ghost var C := marked;
        num := num + 1;
        Check(x, y);
        ghost var W1 := marked;
        var part := UncheckIsland(x + 1, y);
        num := num + part;
        ghost var W2 := marked;
        part := UncheckIsland(x, y + 1);
        num := num + part;
        ghost var W3 := marked;
        part := UncheckIsland(x - 1, y);
        num := num + part;
        ghost var W4 := marked;
        part := UncheckIsland(x, y - 1);
        num := num + part;
        FloodFour(C, x, y, W1, W2, W3, W4);
        PartsCount((x, y), Reach(W1, (x + 1, y)), Reach(W2, (x, y + 1)), Reach(W3, (x - 1, y)), Reach(W4, (x, y - 1)));
      } else {
        ReachOutside(marked, (x, y));
        assert marked - {} == marked;
      }
    }

    /** check_island followed by uncheck_island from the same tile, as a
        click does. When the checked tiles are whole islands and (x, y) is not
        one of them, the flags come back as they were and the height sum and
        tile count give the seed average of (x, y). */
    method MeasureIsland(x: int, y: int) returns (average: Ratio)
      requires Valid() && marked <= Land(heights) && Closed(Land(heights), marked) && (x, y) !in marked
      modifies this`marked, checked
      ensures Valid() && marked == old(marked)
      ensures average == SeedAverage(heights, (x, y))
    {
      hide Valid, Consistent, Reach, Land, RegionSum, Closed;
      ghost var C, V := marked, Land(heights);
      TileView(x, y);
      UnmarkedRegion(V, C, (x, y));
      MarkThenUnmark(V, C, (x, y));
      var totalHeight := CheckIsland(x, y);
      var totalTiles := UncheckIsland(x, y);
      average := Average(totalHeight, totalTiles);
    }

    /** Map.calculate_best_average on a map with no checked tile: for every
        tile in matrix order it checks the tile's island, unchecks it again,
        and keeps the largest average seen, starting from -1. The result is
        the best seed average of the map, and the map is left unchecked. */
    method CalculateBestAverage() returns (maks: Ratio)
      requires Valid() && marked == {}
      modifies this`marked, checked
      ensures Valid() && marked == {}
      ensures IsBestAverage(heights, maks)
    {
      hide Reach, RegionSum, Land, Valid, Island, SeedAverage, Average;
      SeedSearch(0, 0);
      maks := NoIsland;
      var x := 0;
      while x < size
        invariant 0 <= x <= size
        invariant Valid() && marked == {} && maks.den > 0
        invariant forall p :: p in heights && p.0 < x ==> AtMost(SeedAverage(heights, p), maks)
        invariant maks == NoIsland || exists p :: p in heights && maks == SeedAverage(heights, p)
      {
        var y := 0;
        while y < size
          invariant 0 <= y <= size
          invariant Valid() && marked == {} && maks.den > 0
          invariant forall p :: p in heights && (p.0 < x || (p.0 == x && p.1 < y)) ==>
                      AtMost(SeedAverage(heights, p), maks)
          invariant maks == NoIsland || exists p :: p in heights && maks == SeedAverage(heights, p)
        {
          SeedSearch(x, y);
          var totalHeight := CheckIsland(x, y);
          var totalTiles := UncheckIsland(x, y);
          var average := Average(totalHeight, totalTiles);
          SeedAverageShape(heights, (x, y));
          if Less(maks, average) {
            forall p | p in heights && (p.0 < x || (p.0 == x && p.1 < y))
              ensures AtMost(SeedAverage(heights, p), average)
            {
              SeedAverageShape(heights, p);
              AtMostLessTrans(SeedAverage(heights, p), maks, average);
            }
            maks := average;
          }
          y := y + 1;
        }
        x := x + 1;
      }
      SeedAverageShape(heights, (0, 0));
      if maks == NoIsland {
        assert SeedAverage(heights, (0, 0)) == NoIsland;
      }
    }

    /** What calculate_best_average relies on at tile (x, y) of a map with
        nothing checked: every land tile is eligible, the uncheck flood over
        the checked island finds that island again and leaves nothing
        checked, and the seed's average is the island's sum over its size. */
    lemma SeedSearch(x: int, y: int)
      requires Valid() && marked == {}
      ensures size > 0
      ensures (x, y) in heights <==> InGrid((x, y), size, size)
      ensures forall p :: p in heights ==> InGrid(p, size, size)
      ensures Eligible() == Land(heights)
      ensures Reach({} + Reach(Eligible(), (x, y)), (x, y)) == Reach(Eligible(), (x, y))
      ensures {} + Reach(Eligible(), (x, y)) - Reach(Eligible(), (x, y)) == {}
      ensures SeedAverage(heights, (x, y))
           == Average(RegionSum(heights, Reach(Eligible(), (x, y))), |Reach(Eligible(), (x, y))|)
    {
      MarkThenUnmark(Land(heights), {}, (x, y));
      assert Land(heights) - {} == Land(heights);
    }
  }
}
