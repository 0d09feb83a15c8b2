/**
 * How Map.__init__ lays the fetched heights out: element i of the flat list
 * goes to matrix cell (i % ROWS, i // ROWS), filling the matrix column by
 * column; and the maximum height used to normalise the tile colours.
 */
module Layout {
  import opened Connectivity

  /** The matrix cell that element i of the flat height list goes to. */
  function CellOf(i: int, rows: int): Pos
    requires rows > 0
  {
    (i % rows, i / rows)
  }

  /** The position in the flat list of the element placed at cell p. */
  function IndexOf(p: Pos, rows: int): int {
    p.1 * rows + p.0
  }

  /** p is a cell of a rows x cols matrix. */
  predicate InGrid(p: Pos, rows: int, cols: int) {
    0 <= p.0 < rows && 0 <= p.1 < cols
  }

  lemma MulAwayFromZero(d: int, r: int)
    requires r > 0
    ensures d >= 1 ==> d * r >= r
    ensures d <= -1 ==> d * r <= -r
  {
    if d >= 1 {
      assert (d - 1) * r >= 0;
    } else if d <= -1 {
      assert (-d - 1) * r >= 0;
    }
  }

  /** Euclidean division is determined by its quotient-remainder equation. */
  lemma DivModUnique(a: int, r: int, q: int, m: int)
    requires r > 0 && 0 <= m < r && a == q * r + m
    ensures a / r == q && a % r == m
  {
    var q', m' := a / r, a % r;
    assert a == q' * r + m';
    assert (q - q') * r == m' - m;
    MulAwayFromZero(q - q', r);
  }

  /** Every index of the list lands on a cell of the matrix, and the cell
      gives the index back: no two indices share a cell. */
  lemma CellOfInGrid(i: int, rows: int, cols: int)
    requires rows > 0 && 0 <= i < rows * cols
    ensures InGrid(CellOf(i, rows), rows, cols)
    ensures IndexOf(CellOf(i, rows), rows) == i
  {
    var q, m := i / rows, i % rows;
    assert i == q * rows + m;
    MulAwayFromZero(q - cols + 1, rows);
    assert (q - cols) * rows < 0;
  }

  /** Every cell of the matrix receives the list element at its index, which
      lies inside the list: the layout hits every cell exactly once. */
  lemma IndexOfInRange(p: Pos, rows: int, cols: int)
    requires rows > 0 && InGrid(p, rows, cols)
    ensures 0 <= IndexOf(p, rows) < rows * cols
    ensures CellOf(IndexOf(p, rows), rows) == p
  {
    DivModUnique(IndexOf(p, rows), rows, p.1, p.0);
    MulMonotone(0, p.1, rows);
    MulMonotone(p.1 + 1, cols, rows);
    assert (p.1 + 1) * rows == p.1 * rows + rows;
  }

  lemma MulMonotone(a: int, b: int, r: int)
    requires r > 0 && a <= b
    ensures a * r <= b * r
  {
  }

  /** The cells of a rows x cols matrix. */
  ghost function Grid(rows: int, cols: int): (r: set<Pos>)
    ensures forall p :: p in r <==> InGrid(p, rows, cols)
  {
    var r := set x, y | 0 <= x < rows && 0 <= y < cols :: (x, y);
    assert forall p | InGrid(p, rows, cols) :: (p.0, p.1) in r;
    r
  }

  /** Python's max over the heights. */
  function MaxOf(s: seq<int>): (r: int)
    requires |s| > 0
    ensures forall k :: 0 <= k < |s| ==> s[k] <= r
    ensures exists k :: 0 <= k < |s| && s[k] == r
  {
    if |s| == 1 then s[0]
    else
      var rest := MaxOf(s[1..]);
      assert s[1..][0] == s[1];
      if s[0] >= rest then s[0] else rest
  }
}
