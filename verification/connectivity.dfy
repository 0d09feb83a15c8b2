/**
 * 4-connected reachability over tile positions: the specification that the
 * recursive flood fills of the game (check_island, uncheck_island,
 * color_wrong_island) are proved against.
 */
module Connectivity {

  /** A tile position: (first matrix index, second matrix index). */
  type Pos = (int, int)

  /** q is one of the four tiles a flood fill steps to from p. */
  predicate Adjacent(p: Pos, q: Pos) {
    q == (p.0 + 1, p.1) || q == (p.0, p.1 + 1) || q == (p.0 - 1, p.1) || q == (p.0, p.1 - 1)
  }

  /** A non-empty walk of 4-adjacent steps that never leaves V. */
  ghost predicate IsPath(V: set<Pos>, path: seq<Pos>) {
    && |path| > 0
    && (forall i :: 0 <= i < |path| ==> path[i] in V)
    && (forall i :: 0 <= i < |path| - 1 ==> Adjacent(path[i], path[i + 1]))
  }

  /** b can be reached from a by 4-adjacent steps inside V. */
  ghost predicate Connected(V: set<Pos>, a: Pos, b: Pos) {
    exists path :: IsPath(V, path) && path[0] == a && path[|path| - 1] == b
  }

  /** The tiles of V reachable from the seed a (empty when a is not in V). */
  ghost function Reach(V: set<Pos>, a: Pos): (r: set<Pos>)
    ensures r <= V
  {
    set b | b in V && Connected(V, a, b)
  }

  /** No 4-adjacent step leads from a tile of S to a tile of V outside S. */
  ghost predicate Closed(V: set<Pos>, S: set<Pos>) {
    forall x, y :: x in S && y in V && Adjacent(x, y) ==> y in S
  }

  /** Flood-fill progress: the only steps out of M into V still to be taken
      start at the seed s and go to one of the pending neighbours. */
  ghost predicate ClosedExcept(V: set<Pos>, M: set<Pos>, s: Pos, pending: set<Pos>) {
    forall x, y :: x in M && y in V && Adjacent(x, y) && y !in M ==> x == s && y in pending
  }

  lemma AdjacentSymmetric(p: Pos, q: Pos)
    ensures Adjacent(p, q) <==> Adjacent(q, p)
  {
  }

  lemma ConnectedStartsInside(V: set<Pos>, a: Pos, b: Pos)
    ensures Connected(V, a, b) ==> a in V
  {
    if Connected(V, a, b) {
      var path :| IsPath(V, path) && path[0] == a && path[|path| - 1] == b;
      assert path[0] in V;
    }
  }

  /** A seed inside V reaches itself. */
  lemma ReachSeed(V: set<Pos>, a: Pos)
    requires a in V
    ensures a in Reach(V, a)
  {
    assert IsPath(V, [a]);
    assert Connected(V, a, a);
  }

  /** A seed outside V reaches nothing. */
  lemma ReachOutside(V: set<Pos>, a: Pos)
    requires a !in V
    ensures Reach(V, a) == {}
  {
    forall b | b in V
      ensures !Connected(V, a, b)
    {
      ConnectedStartsInside(V, a, b);
    }
  }

  /** The reached region is closed: one more step inside V stays in it. */
  lemma {:induction false} ReachClosed(V: set<Pos>, a: Pos)
    ensures Closed(V, Reach(V, a))
  {
    forall x, y | x in Reach(V, a) && y in V && Adjacent(x, y)
      ensures y in Reach(V, a)
    {
      var path :| IsPath(V, path) && path[0] == a && path[|path| - 1] == x;
      var longer := path + [y];
      assert longer[|longer| - 2] == x;
      assert IsPath(V, longer);
      assert Connected(V, a, y);
    }
  }

  /** Every tile of a path that starts in a closed set S stays in S. */
  lemma {:induction false} PathStaysIn(V: set<Pos>, S: set<Pos>, path: seq<Pos>)
    requires IsPath(V, path) && path[0] in S && Closed(V, S)
    ensures forall i :: 0 <= i < |path| ==> path[i] in S
  {
    var k := 0;
    while k < |path| - 1
      invariant 0 <= k < |path|
      invariant forall i :: 0 <= i <= k ==> path[i] in S
    {
      assert Adjacent(path[k], path[k + 1]) && path[k + 1] in V;
      k := k + 1;
    }
  }

  /** The reached region is the least closed set holding the seed. */
  lemma ReachMinimal(V: set<Pos>, a: Pos, S: set<Pos>)
    requires a in S && Closed(V, S)
    ensures Reach(V, a) <= S
  {
    forall b | b in Reach(V, a)
      ensures b in S
    {
      var path :| IsPath(V, path) && path[0] == a && path[|path| - 1] == b;
      PathStaysIn(V, S, path);
    }
  }

  /** Enlarging the allowed set can only enlarge the reached region. */
  lemma ReachMonotone(V: set<Pos>, W: set<Pos>, a: Pos)
    requires V <= W
    ensures Reach(V, a) <= Reach(W, a)
  {
    forall b | b in Reach(V, a)
      ensures b in Reach(W, a)
    {
      var path :| IsPath(V, path) && path[0] == a && path[|path| - 1] == b;
      assert IsPath(W, path);
    }
  }

  /** Whatever a neighbour of a reaches, a reaches too. */
  lemma ReachFromNeighbour(V: set<Pos>, a: Pos, n: Pos)
    requires a in V && Adjacent(a, n)
    ensures Reach(V, n) <= Reach(V, a)
  {
    if n in V {
      ReachSeed(V, a);
      ReachClosed(V, a);
      ReachMinimal(V, n, Reach(V, a));
    } else {
      ReachOutside(V, n);
    }
  }

  /** A flood fill that has marked only the seed s can leave M only through
      the four neighbours of s. */
  lemma FloodStart(V: set<Pos>, s: Pos)
    requires s in V
    ensures {s} <= Reach(V, s)
    ensures ClosedExcept(V, {s}, s, {(s.0 + 1, s.1), (s.0, s.1 + 1), (s.0 - 1, s.1), (s.0, s.1 - 1)})
  {
    ReachSeed(V, s);
  }

  /** One recursive call of a flood fill from the neighbour n of the seed s:
      what it reaches in the still unvisited part of V extends the visited
      set M inside the seed's region, and the step towards n is taken. */
  lemma FloodStep(V: set<Pos>, s: Pos, M: set<Pos>, n: Pos, pending: set<Pos>)
    requires s in M && M <= Reach(V, s)
    requires Adjacent(s, n)
    requires ClosedExcept(V, M, s, pending + {n})
    ensures M !! Reach(V - M, n)
    ensures M + Reach(V - M, n) <= Reach(V, s)
    ensures ClosedExcept(V, M + Reach(V - M, n), s, pending)
  {
    var R := Reach(V - M, n);
    ReachSeed(V, s);
    ReachMonotone(V - M, V, n);
    ReachFromNeighbour(V, s, n);
    ReachClosed(V - M, n);
    if n in V - M {
      ReachSeed(V - M, n);
    }
    // a step out of R that avoids M stays in R
    forall x, y | x in R && y in V && Adjacent(x, y) && y !in M
      ensures y in R
    {
      assert y in V - M;
    }
  }

  /** A flood fill with no step left to take has visited exactly the region. */
  lemma FloodDone(V: set<Pos>, s: Pos, M: set<Pos>)
    requires s in M && M <= Reach(V, s)
    requires ClosedExcept(V, M, s, {})
    ensures M == Reach(V, s)
  {
    ReachMinimal(V, s, M);
  }

  /** Five pairwise disjoint sets. */
  predicate Disjoint5(A: set<Pos>, B: set<Pos>, C: set<Pos>, D: set<Pos>, F: set<Pos>) {
    && A !! B && A !! C && A !! D && A !! F
    && B !! C && B !! D && B !! F && C !! D && C !! F && D !! F
  }

  /** A flood fill from s over E: it takes s, then recurses into the four
      neighbours in turn, (+1, 0), (0, +1), (-1, 0), (0, -1), each recursive
      call reaching what is still unvisited (W1 before the first, W2 before
      the second, ...). Together the seed and the four parts make up s's
      region of E, no tile is visited twice, and what is left unvisited
      afterwards is E without that region. */
  lemma FloodFour(E: set<Pos>, x: int, y: int, W1: set<Pos>, W2: set<Pos>, W3: set<Pos>, W4: set<Pos>)
    requires (x, y) in E && W1 == E - {(x, y)}
    requires W2 == W1 - Reach(W1, (x + 1, y))
    requires W3 == W2 - Reach(W2, (x, y + 1))
    requires W4 == W3 - Reach(W3, (x - 1, y))
    ensures {(x, y)} + Reach(W1, (x + 1, y)) + Reach(W2, (x, y + 1)) + Reach(W3, (x - 1, y))
              + Reach(W4, (x, y - 1)) == Reach(E, (x, y))
    ensures Disjoint5({(x, y)}, Reach(W1, (x + 1, y)), Reach(W2, (x, y + 1)),
                      Reach(W3, (x - 1, y)), Reach(W4, (x, y - 1)))
    ensures W4 - Reach(W4, (x, y - 1)) == E - Reach(E, (x, y))
  {
    var s := (x, y);
    var R1, R2, R3, R4 := Reach(W1, (x + 1, y)), Reach(W2, (x, y + 1)), Reach(W3, (x - 1, y)), Reach(W4, (x, y - 1));
    FloodStart(E, s);
    var M := {s};
    FloodStep(E, s, M, (x + 1, y), {(x, y + 1), (x - 1, y), (x, y - 1)});
    M := M + R1;
    assert E - M == W2;
    FloodStep(E, s, M, (x, y + 1), {(x - 1, y), (x, y - 1)});
    M := M + R2;
    assert E - M == W3;
    FloodStep(E, s, M, (x - 1, y), {(x, y - 1)});
    M := M + R3;
    assert E - M == W4;
    FloodStep(E, s, M, (x, y - 1), {});
    M := M + R4;
    FloodDone(E, s, M);
  }

  /** Adding the seed and the four parts to K one after the other adds their
      union. */
  lemma AddParts(K: set<Pos>, s: Pos, R1: set<Pos>, R2: set<Pos>, R3: set<Pos>, R4: set<Pos>, R: set<Pos>)
    requires {s} + R1 + R2 + R3 + R4 == R
    ensures K + {s} + R1 + R2 + R3 + R4 == K + R
  {
  }

  /** The size of the seed and four disjoint parts is one plus the sizes of
      the parts. */
  lemma PartsCount(s: Pos, R1: set<Pos>, R2: set<Pos>, R3: set<Pos>, R4: set<Pos>)
    requires Disjoint5({s}, R1, R2, R3, R4)
    ensures |{s} + R1 + R2 + R3 + R4| == 1 + |R1| + |R2| + |R3| + |R4|
  {
  }

  /** If the marked set C is a union of whole regions of V and does not hold
      the seed, the flood over the unmarked part of V finds the seed's whole
      region. */
  lemma UnmarkedRegion(V: set<Pos>, C: set<Pos>, s: Pos)
    requires C <= V && Closed(V, C) && s !in C
    ensures Reach(V - C, s) == Reach(V, s)
  {
    ReachMonotone(V - C, V, s);
    if s in V {
      var S := Reach(V - C, s);
      ReachSeed(V - C, s);
      ReachClosed(V - C, s);
      forall x, y | x in S && y in V && Adjacent(x, y)
        ensures y in S
      {
        AdjacentSymmetric(x, y);
        assert x !in C;
        assert y !in C;
      }
      ReachMinimal(V, s, S);
    } else {
      ReachOutside(V, s);
      ReachOutside(V - C, s);
    }
  }

  /** Marking the seed's region R on top of a union C of whole regions, and
      then flooding over the marked tiles from the same seed, finds exactly R
      again: unmarking it restores C. The marked set C + R is again a union
      of whole regions. */
  lemma MarkThenUnmark(V: set<Pos>, C: set<Pos>, s: Pos)
    requires C <= V && Closed(V, C) && s !in C
    ensures Reach(C + Reach(V - C, s), s) == Reach(V - C, s)
    ensures C !! Reach(V - C, s)
    ensures (C + Reach(V - C, s)) - Reach(V - C, s) == C
    ensures Closed(V, C + Reach(V - C, s))
    ensures (|Reach(V - C, s)| > 0) <==> s in V
  {
    UnmarkedRegion(V, C, s);
    var R := Reach(V, s);
    ReachClosed(V, s);
    if s in V {
      ReachSeed(V, s);
      // R is closed inside C + R, so the flood over C + R cannot leave it
      ReachMinimal(C + R, s, R);
      // and the flood over C + R is closed in V, so it covers R
      var S := Reach(C + R, s);
      ReachSeed(C + R, s);
      ReachClosed(C + R, s);
      forall x, y | x in S && y in V && Adjacent(x, y)
        ensures y in S
      {
        assert y in C + R;
      }
      ReachMinimal(V, s, S);
    } else {
      ReachOutside(V, s);
      ReachOutside(C, s);
    }
  }

  /** Reversing a path gives a path. */
  lemma {:induction false} ConnectedSymmetric(V: set<Pos>, a: Pos, b: Pos)
    requires Connected(V, a, b)
    ensures Connected(V, b, a)
  {
    var path :| IsPath(V, path) && path[0] == a && path[|path| - 1] == b;
    var n := |path|;
    var back := seq(n, i requires 0 <= i < n => path[n - 1 - i]);
    forall i | 0 <= i < n - 1
      ensures Adjacent(back[i], back[i + 1])
    {
      assert Adjacent(path[n - 2 - i], path[n - 1 - i]);
      AdjacentSymmetric(path[n - 2 - i], path[n - 1 - i]);
    }
    assert IsPath(V, back);
  }

  /** Every tile of a region reaches the same region: the seed does not
      matter. */
  lemma SameRegion(V: set<Pos>, a: Pos, b: Pos)
    requires b in Reach(V, a)
    ensures Reach(V, b) == Reach(V, a)
  {
    ReachClosed(V, a);
    ReachMinimal(V, b, Reach(V, a));
    ConnectedSymmetric(V, a, b);
    ReachClosed(V, b);
    ConnectedStartsInside(V, a, b);
    ReachSeed(V, a);
    ReachSeed(V, b);
    assert a in Reach(V, b);
    ReachMinimal(V, a, Reach(V, b));
  }
}
