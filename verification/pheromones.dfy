/**
 * The pheromone matrix of the colony solver: one trail weight per directed
 * edge between waypoints, created uniform, reinforced along every ant's path
 * and evaporated once per iteration.
 */
module Pheromones {
  import opened Models

  /** A k-by-k matrix. */
  predicate Square(M: seq<seq<real>>, k: nat)
  {
    |M| == k && forall i :: 0 <= i < k ==> |M[i]| == k
  }

  /** Every entry is strictly positive. */
  predicate Positive(M: seq<seq<real>>)
  {
    forall i, j :: 0 <= i < |M| && 0 <= j < |M[i]| ==> M[i][j] > 0.0
  }

  /** The initial matrix: every one of the k*k entries equals t0. */
  function Uniform(k: nat, t0: real): (M: seq<seq<real>>)
    ensures Square(M, k)
    ensures forall i, j :: 0 <= i < k && 0 <= j < k ==> M[i][j] == t0
    ensures t0 > 0.0 ==> Positive(M)
  {
    seq(k, _ => seq(k, _ => t0))
  }

  /** How often the directed edge i -> j occurs between consecutive entries of the path. */
  function EdgeCount(path: seq<nat>, i: nat, j: nat): nat
    decreases |path|
  {
    if |path| < 2 then 0
    else (if path[0] == i && path[1] == j then 1 else 0) + EdgeCount(path[1..], i, j)
  }

  /** The directed edge i -> j is used by the path. */
  predicate IsEdge(path: seq<nat>, i: nat, j: nat)
  {
    exists e :: 0 <= e < |path| - 1 && path[e] == i && path[e + 1] == j
  }

  /** Every waypoint of the path is a row and column of a k-by-k matrix. */
  predicate InRange(path: seq<nat>, k: nat)
  {
    forall e :: 0 <= e < |path| ==> path[e] < k
  }

  /** Adds d to the single entry (i, j). */
  function AddEdge(M: seq<seq<real>>, i: nat, j: nat, d: real): (r: seq<seq<real>>)
    requires i < |M| && j < |M[i]|
    ensures |r| == |M| && forall x :: 0 <= x < |M| ==> |r[x]| == |M[x]|
    ensures r[i][j] == M[i][j] + d
    ensures forall x, y :: 0 <= x < |M| && 0 <= y < |M[x]| && (x != i || y != j) ==> r[x][y] == M[x][y]
  {
    M[i := M[i][j := M[i][j] + d]]
  }

  /**
   * One ant's reinforcement: d is added to the entry of every consecutive
   * pair of its path, first edge first. Each entry grows by d once per
   * occurrence of its edge and no other entry changes.
   */
  function Reinforce(M: seq<seq<real>>, path: seq<nat>, d: real): (r: seq<seq<real>>)
    requires Square(M, |M|) && InRange(path, |M|)
    ensures Square(r, |M|)
    ensures forall i, j :: 0 <= i < |M| && 0 <= j < |M| ==>
      r[i][j] == M[i][j] + Repeat(d, EdgeCount(path, i, j))
    decreases |path|
  {
    if |path| < 2 then M
    else
      var M' := AddEdge(M, path[0], path[1], d);
      assert InRange(path[1..], |M'|);
      var r := Reinforce(M', path[1..], d);
      ReinforceStep(M, M', r, path, d);
      r
  }

  /** c additions of d: the total an entry gains from an edge used c times. */
  function Repeat(d: real, c: nat): real
  {
    if c == 0 then 0.0 else d + Repeat(d, c - 1)
  }

  lemma {:induction false} RepeatNonNegative(d: real, c: nat)
    requires d >= 0.0
    ensures Repeat(d, c) >= 0.0
  {
    if c > 0 {
      RepeatNonNegative(d, c - 1);
    }
  }

  /** The first edge's addition and the rest of the path's additions make up the whole path's. */
  lemma {:induction false} ReinforceStep(M: seq<seq<real>>, M': seq<seq<real>>, r: seq<seq<real>>, path: seq<nat>, d: real)
    requires |path| >= 2 && Square(M, |M|) && path[0] < |M| && path[1] < |M|
    requires M' == AddEdge(M, path[0], path[1], d)
    requires Square(r, |M|)
    requires forall i, j :: 0 <= i < |M| && 0 <= j < |M| ==>
      r[i][j] == M'[i][j] + Repeat(d, EdgeCount(path[1..], i, j))
    ensures forall i, j :: 0 <= i < |M| && 0 <= j < |M| ==>
      r[i][j] == M[i][j] + Repeat(d, EdgeCount(path, i, j))
  {
    forall i, j | 0 <= i < |M| && 0 <= j < |M|
      ensures r[i][j] == M[i][j] + Repeat(d, EdgeCount(path, i, j))
    {
      var first := if path[0] == i && path[1] == j then 1 else 0;
      var rest := EdgeCount(path[1..], i, j);
      assert EdgeCount(path, i, j) == first + rest;
      assert M'[i][j] == M[i][j] + Repeat(d, first);
    }
  }

  /** A path without repeated waypoints uses each directed edge at most once. */
  lemma {:induction false} EdgeCountDistinct(path: seq<nat>, i: nat, j: nat)
    requires Distinct(path)
    ensures EdgeCount(path, i, j) == (if IsEdge(path, i, j) then 1 else 0)
    decreases |path|
  {
    if |path| >= 2 {
      var tail := path[1..];
      assert Distinct(tail) by {
        forall a, b | 0 <= a < b < |tail| ensures tail[a] != tail[b] {
          assert tail[a] == path[a + 1] && tail[b] == path[b + 1];
        }
      }
      EdgeCountDistinct(tail, i, j);
      if path[0] == i && path[1] == j {
        assert IsEdge(path, i, j) by { assert path[0] == i && path[1] == j; }
        forall e | 0 <= e < |tail| - 1 ensures !(tail[e] == i && tail[e + 1] == j) {
          assert tail[e] == path[e + 1];
        }
      } else {
        if IsEdge(path, i, j) {
          var e :| 0 <= e < |path| - 1 && path[e] == i && path[e + 1] == j;
          assert e > 0;
          assert tail[e - 1] == i && tail[e] == j;
        }
        if IsEdge(tail, i, j) {
          var e :| 0 <= e < |tail| - 1 && tail[e] == i && tail[e + 1] == j;
          assert path[e + 1] == i && path[e + 2] == j;
        }
      }
    }
  }

  /**
   * For a path without repeats, reinforcement adds d to exactly the entries
   * of the edges the path uses and leaves every other entry unchanged.
   */
  lemma ReinforceDistinct(M: seq<seq<real>>, path: seq<nat>, d: real, i: nat, j: nat)
    requires Square(M, |M|) && InRange(path, |M|) && Distinct(path)
    requires i < |M| && j < |M|
    ensures IsEdge(path, i, j) ==> Reinforce(M, path, d)[i][j] == M[i][j] + d
    ensures !IsEdge(path, i, j) ==> Reinforce(M, path, d)[i][j] == M[i][j]
  {
    EdgeCountDistinct(path, i, j);
    assert Repeat(d, 1) == d + Repeat(d, 0);
  }

  /** Reinforcement by a non-negative amount keeps every entry positive. */
  lemma ReinforcePositive(M: seq<seq<real>>, path: seq<nat>, d: real)
    requires Square(M, |M|) && InRange(path, |M|) && Positive(M) && d >= 0.0
    ensures Positive(Reinforce(M, path, d))
  {
    var r := Reinforce(M, path, d);
    forall i, j | 0 <= i < |r| && 0 <= j < |r[i]| ensures r[i][j] > 0.0 {
      RepeatNonNegative(d, EdgeCount(path, i, j));
    }
  }

  /** Reinforcing a simple path keeps the matrix square and positive and adds d exactly on the path's edges. */
  lemma ReinforceTrails(M: seq<seq<real>>, path: seq<nat>, d: real)
    requires Square(M, |M|) && InRange(path, |M|) && Distinct(path) && Positive(M) && d >= 0.0
    ensures Square(Reinforce(M, path, d), |M|) && Positive(Reinforce(M, path, d))
    ensures forall i, j :: 0 <= i < |M| && 0 <= j < |M| ==>
      Reinforce(M, path, d)[i][j] == M[i][j] + (if IsEdge(path, i, j) then d else 0.0)
  {
    ReinforcePositive(M, path, d);
    forall i, j | 0 <= i < |M| && 0 <= j < |M|
      ensures Reinforce(M, path, d)[i][j] == M[i][j] + (if IsEdge(path, i, j) then d else 0.0)
    {
      ReinforceDistinct(M, path, d, i, j);
    }
  }

  /** Evaporation: every entry multiplied by (1 - p), once. */
  function Evaporate(M: seq<seq<real>>, p: real): (r: seq<seq<real>>)
    ensures |r| == |M| && forall i :: 0 <= i < |M| ==> |r[i]| == |M[i]|
    ensures forall i, j :: 0 <= i < |M| && 0 <= j < |M[i]| ==> r[i][j] == M[i][j] * (1.0 - p)
  {
    seq(|M|, i requires 0 <= i < |M| => seq(|M[i]|, j requires 0 <= j < |M[i]| => M[i][j] * (1.0 - p)))
  }

  /** What is left of an entry after k evaporations at rate p: (1 - p) to the k-th power. */
  function Retained(p: real, k: nat): real
  {
    if k == 0 then 1.0 else (1.0 - p) * Retained(p, k - 1)
  }

  /** Every entry of M' is the matching entry of M times f. */
  predicate ScaledBy(M: seq<seq<real>>, M': seq<seq<real>>, n: nat, f: real)
    requires Square(M, n) && Square(M', n)
  {
    forall i, j :: 0 <= i < n && 0 <= j < n ==> M'[i][j] == M[i][j] * f
  }

  /**
   * One evaporation (from count a to b = a + 1) followed by the ones from b
   * to d is the d - a evaporations from a to d.
   */
  lemma RetainedCompose(M: seq<seq<real>>, M1: seq<seq<real>>, M2: seq<seq<real>>, n: nat, p: real, a: nat, b: nat, d: nat)
    requires Square(M, n) && Square(M1, n) && Square(M2, n) && b == a + 1 && b <= d
    requires ScaledBy(M, M1, n, 1.0 - p) && ScaledBy(M1, M2, n, Retained(p, d - b))
    ensures ScaledBy(M, M2, n, Retained(p, d - a))
  {
    var f := Retained(p, d - b);
    assert Retained(p, d - a) == (1.0 - p) * f;
    forall i, j | 0 <= i < n && 0 <= j < n ensures M2[i][j] == M[i][j] * ((1.0 - p) * f) {
      assert M2[i][j] == (M[i][j] * (1.0 - p)) * f;
    }
  }

  /** One evaporation scales a square matrix by 1 - p. */
  lemma EvaporateScaled(M: seq<seq<real>>, p: real, n: nat)
    requires Square(M, n)
    ensures Square(Evaporate(M, p), n) && ScaledBy(M, Evaporate(M, p), n, 1.0 - p)
  {
  }

  /** With p < 1 evaporation never drives an entry to zero or below. */
  lemma EvaporatePositive(M: seq<seq<real>>, p: real)
    requires Positive(M) && p < 1.0
    ensures Positive(Evaporate(M, p))
  {
    var r := Evaporate(M, p);
    forall i, j | 0 <= i < |r| && 0 <= j < |r[i]| ensures r[i][j] > 0.0 {
      assert M[i][j] > 0.0 && 1.0 - p > 0.0;
      assert M[i][j] * (1.0 - p) > 0.0;
    }
  }
}
