/**
 * Islands of a height map: the land tiles (height > 0), the island a seed
 * tile belongs to, its height sum and tile count, its average, and what it
 * means for an average to be the best one of a level.
 */
module Islands {
  import opened Connectivity
  import opened Averages

  /** The land tiles: the tiles whose height is positive. */
  ghost function Land(h: map<Pos, int>): (r: set<Pos>)
    ensures r <= h.Keys
  {
    set p | p in h && h[p] > 0
  }

  /** Membership in Land, for proofs that keep its definition hidden. */
  lemma LandMember(h: map<Pos, int>, p: Pos)
    ensures p in Land(h) <==> p in h && h[p] > 0
  {
  }

  /** The island of p: the land tiles 4-connected to p through land
      (empty when p is water or off the map). */
  ghost function Island(h: map<Pos, int>, p: Pos): (r: set<Pos>)
    ensures r <= Land(h)
  {
    Reach(Land(h), p)
  }

  ghost function Pick(S: set<Pos>): Pos
    requires S != {}
  {
    var p :| p in S; p
  }

  /** The sum of the heights of the tiles of S. */
  ghost function RegionSum(h: map<Pos, int>, S: set<Pos>): (r: int)
    requires S <= h.Keys
    ensures S == {} ==> r == 0
    decreases S
  {
    if S == {} then 0 else var p := Pick(S); h[p] + RegionSum(h, S - {p})
  }

  /** The average height of p's island, or the -1 sentinel for a seed with
      no island. */
  ghost function SeedAverage(h: map<Pos, int>, p: Pos): Ratio {
    Average(RegionSum(h, Island(h, p)), |Island(h, p)|)
  }

  /** best is the largest seed average of the map, and some seed has it. */
  ghost predicate IsBestAverage(h: map<Pos, int>, best: Ratio) {
    && (forall p :: p in h ==> AtMost(SeedAverage(h, p), best))
    && (exists p :: p in h && best == SeedAverage(h, p))
  }

  /** The sum does not depend on the order the tiles are taken in. */
  lemma {:induction false} RegionSumRemove(h: map<Pos, int>, S: set<Pos>, p: Pos)
    requires S <= h.Keys && p in S
    ensures RegionSum(h, S) == h[p] + RegionSum(h, S - {p})
    decreases S
  {
    var q := Pick(S);
    if p != q {
      calc {
        RegionSum(h, S);
        h[q] + RegionSum(h, S - {q});
        { RegionSumRemove(h, S - {q}, p); }
        h[q] + h[p] + RegionSum(h, S - {q} - {p});
        { assert S - {q} - {p} == S - {p} - {q}; }
        h[p] + h[q] + RegionSum(h, S - {p} - {q});
        { RegionSumRemove(h, S - {p}, q); }
        h[p] + RegionSum(h, S - {p});
      }
    }
  }

  /** The sum over two disjoint sets is the sum of the sums. */
  lemma {:induction false} RegionSumUnion(h: map<Pos, int>, A: set<Pos>, B: set<Pos>)
    requires A + B <= h.Keys && A !! B
    ensures RegionSum(h, A + B) == RegionSum(h, A) + RegionSum(h, B)
    decreases A
  {
    if A == {} {
      assert A + B == B;
    } else {
      var p := Pick(A);
      RegionSumRemove(h, A + B, p);
      assert (A + B) - {p} == (A - {p}) + B;
      RegionSumUnion(h, A - {p}, B);
    }
  }

  /** The sum over one tile is its height. */
  lemma RegionSumSingle(h: map<Pos, int>, p: Pos)
    requires p in h
    ensures RegionSum(h, {p}) == h[p]
  {
    RegionSumRemove(h, {p}, p);
    assert {p} - {p} == {};
  }

  /** The sum over a seed and four disjoint parts, as a flood fill adds it up. */
  lemma RegionSumParts(h: map<Pos, int>, s: Pos, R1: set<Pos>, R2: set<Pos>, R3: set<Pos>, R4: set<Pos>)
    requires {s} + R1 + R2 + R3 + R4 <= h.Keys
    requires Disjoint5({s}, R1, R2, R3, R4)
    ensures RegionSum(h, {s} + R1 + R2 + R3 + R4)
         == h[s] + RegionSum(h, R1) + RegionSum(h, R2) + RegionSum(h, R3) + RegionSum(h, R4)
  {
    RegionSumSingle(h, s);
    RegionSumUnion(h, {s}, R1);
    RegionSumUnion(h, {s} + R1, R2);
    RegionSumUnion(h, {s} + R1 + R2, R3);
    RegionSumUnion(h, {s} + R1 + R2 + R3, R4);
  }

  /** Every land tile adds at least 1 to the sum. */
  lemma {:induction false} RegionSumAtLeastCount(h: map<Pos, int>, S: set<Pos>)
    requires S <= Land(h)
    ensures RegionSum(h, S) >= |S|
    decreases S
  {
    if S != {} {
      var p := Pick(S);
      RegionSumAtLeastCount(h, S - {p});
    }
  }

  /** A land seed has an island of at least one tile and an average above
      the sentinel; any other seed has the sentinel. */
  lemma SeedAverageShape(h: map<Pos, int>, p: Pos)
    ensures SeedAverage(h, p).den > 0
    ensures p in Land(h) <==> |Island(h, p)| > 0
    ensures p in Land(h) ==> Less(NoIsland, SeedAverage(h, p))
    ensures p !in Land(h) ==> SeedAverage(h, p) == NoIsland
  {
    AverageShape(RegionSum(h, Island(h, p)), |Island(h, p)|);
    if p in Land(h) {
      ReachSeed(Land(h), p);
      RegionSumAtLeastCount(h, Island(h, p));
      AverageShape(RegionSum(h, Island(h, p)), |Island(h, p)|);
    } else {
      ReachOutside(Land(h), p);
    }
  }

  /** The best average is the -1 sentinel exactly when the map has no land. */
  lemma BestAverageSentinel(h: map<Pos, int>, best: Ratio)
    requires IsBestAverage(h, best)
    ensures best == NoIsland <==> Land(h) == {}
  {
    var q :| q in h && best == SeedAverage(h, q);
    if Land(h) == {} {
      SeedAverageShape(h, q);
    } else {
      var p :| p in Land(h);
      SeedAverageShape(h, p);
      assert AtMost(SeedAverage(h, p), best);
      assert !AtMost(SeedAverage(h, p), NoIsland);
    }
  }

  /** Reseeding from any tile of an island gives the same island, so the same
      sum, count and average. */
  lemma IslandFromAnyTile(h: map<Pos, int>, p: Pos, q: Pos)
    requires q in Island(h, p)
    ensures Island(h, q) == Island(h, p)
    ensures SeedAverage(h, q) == SeedAverage(h, p)
  {
    SameRegion(Land(h), p, q);
  }

  /** A land tile with no land neighbour is an island of its own, whose
      average is its height. */
  lemma LoneTile(h: map<Pos, int>, p: Pos)
    requires p in Land(h)
    requires forall q :: Adjacent(p, q) ==> q !in Land(h)
    ensures Island(h, p) == {p}
    ensures Same(SeedAverage(h, p), Ratio(h[p], 1))
  {
    ReachSeed(Land(h), p);
    ReachMinimal(Land(h), p, {p});
    RegionSumSingle(h, p);
  }

  /** On a map with land the best average lies above the sentinel, so only
      a land tile can match it. */
  lemma WinOnlyOnLand(h: map<Pos, int>, best: Ratio, p: Pos)
    requires IsBestAverage(h, best) && Land(h) != {}
    requires Same(SeedAverage(h, p), best)
    ensures p in Land(h)
  {
    var q :| q in Land(h);
    var w :| w in h && best == SeedAverage(h, w);
    SeedAverageShape(h, q);
    SeedAverageShape(h, p);
    SeedAverageShape(h, w);
    if p !in Land(h) {
      LessAtMostTrans(NoIsland, SeedAverage(h, q), best);
    }
  }

  /** All tiles of an island share its average, so an island whose average
      differs from best has no tile whose average equals it. */
  lemma IslandShares(h: map<Pos, int>, s: Pos, best: Ratio)
    requires !Same(SeedAverage(h, s), best)
    ensures forall p :: p in Island(h, s) ==> !Same(SeedAverage(h, p), best)
  {
    forall p | p in Island(h, s)
      ensures !Same(SeedAverage(h, p), best)
    {
      IslandFromAnyTile(h, s, p);
    }
  }
}
