/**
 * The colony solver's solve loop: up to max_iter iterations of m ants each,
 * with the running best tour, the per-ant stagnation counter, per-ant
 * pheromone reinforcement and per-iteration evaporation; and the
 * reconfiguration of the iteration cap.
 */
module AntAlgorithm {
  import opened Wrappers
  import opened Models
  import Pheromones
  import opened AntColony
  import opened AntTour

  /**
   * The running best: its path, its objects in visiting order, its time
   * (None for the initial infinite time) and its legs.
   */
  datatype Best = Best(path: seq<nat>, S: seq<nat>, time: Option<real>, distances: seq<real>, flightTimes: seq<real>)

  /** The best before any ant: the path [A], no objects, infinite time, no legs. */
  function NoBest(): Best
  {
    Best([0], [], None, [], [])
  }

  /** A tour recorded as the new best. */
  function Record(t: Tour): Best
  {
    Best(t.path, t.picks, Some(t.time), t.distances, t.flightTimes)
  }

  /** A recorded best seen as the tour it came from. */
  function AsTour(b: Best): Tour
    requires b.time.Some?
  {
    Tour(b.path, b.S, b.time.value, b.distances, b.flightTimes)
  }

  /** The running best is either the initial record or a closed tour. */
  predicate BestValid(c: Colony, b: Best)
    requires Sized(c)
  {
    (b.time.None? ==> b == NoBest()) && (b.time.Some? ==> Closed(c, AsTour(b)))
  }

  /**
   * The replacement rule: the tour has more objects than the best, or as
   * many and strictly less time (every time is less than infinity).
   */
  predicate Improves(t: Tour, b: Best)
  {
    |t.picks| > |b.S| || (|t.picks| == |b.S| && (b.time.None? || t.time < b.time.value))
  }

  /** nb is the same record as ob or ranks strictly above it: more objects, or as many in less time. */
  predicate NoWorse(nb: Best, ob: Best)
  {
    nb == ob || |nb.S| > |ob.S| || (|nb.S| == |ob.S| && nb.time.Some? && (ob.time.None? || nb.time.value < ob.time.value))
  }

  lemma NoWorseTransitive(a: Best, b: Best, c: Best)
    requires NoWorse(a, b) && NoWorse(b, c)
    ensures NoWorse(a, c)
  {
  }

  /**
   * The best after one ant's tour: never worse than before, never beaten by
   * that tour, and either the old record or the tour itself.
   */
  function UpdateBest(b: Best, t: Tour): (r: Best)
    ensures NoWorse(r, b)
    ensures !Improves(t, r)
    ensures r == b || r == Record(t)
    ensures b == NoBest() ==> r == Record(t)
  {
    if Improves(t, b) then Record(t) else b
  }

  /** The state threaded through a solve: the colony with its evolving trails, the best, the counters and the draw cursor. */
  datatype Run = Run(colony: Colony, best: Best, stag: nat, cursor: nat, iterations: nat)

  /** The colony only changes its trails during a solve. */
  predicate SameInstance(c: Colony, d: Colony)
  {
    c.task == d.task && c.params == d.params && c.G == d.G && c.w == d.w
  }

  /** What every step of a solve keeps. */
  predicate RunValid(run: Run)
  {
    Valid(run.colony) && CostsPositive(run.colony) && BestValid(run.colony, run.best)
  }

  /** A closed tour's path stays inside the matrix and never repeats a waypoint. */
  lemma {:induction false} ClosedPath(c: Colony, t: Tour)
    requires Sized(c) && Closed(c, t)
    ensures Pheromones.InRange(t.path, |c.G|)
    ensures Distinct(t.path)
  {
    var B := |c.G| - 1;
    forall e | 0 <= e < |t.path| ensures t.path[e] < |c.G| {
      if 0 < e < |t.path| - 1 { assert t.path[e] == t.picks[e - 1]; }
    }
    forall a, b | 0 <= a < b < |t.path| ensures t.path[a] != t.path[b] {
      if 0 < a && b < |t.path| - 1 {
        assert t.path[a] == t.picks[a - 1] && t.path[b] == t.picks[b - 1];
      } else if 0 < a {
        assert t.path[a] == t.picks[a - 1];
      } else if b < |t.path| - 1 {
        assert t.path[b] == t.picks[b - 1];
      }
    }
  }

  /**
   * Folds one ant's closed tour into the run. The stagnation counter is
   * compared against the best BEFORE the update: it grows by one when the
   * tour's objects equal the best's as an ordered list and drops to 0
   * otherwise. The trail of every directed edge of the tour grows by
   * |picks| / n and every other trail is unchanged.
   */
  function Absorb(run: Run, t: Tour, cursor: nat): (r: Run)
    requires RunValid(run) && Closed(run.colony, t)
    ensures RunValid(r) && SameInstance(r.colony, run.colony)
    ensures r.best == UpdateBest(run.best, t)
    ensures t.picks == run.best.S ==> r.stag == run.stag + 1
    ensures t.picks != run.best.S ==> r.stag == 0
    ensures forall i, j :: 0 <= i < |run.colony.G| && 0 <= j < |run.colony.G| ==>
      r.colony.pheromones[i][j] == run.colony.pheromones[i][j]
        + (if Pheromones.IsEdge(t.path, i, j) then (|t.picks| as real) / (run.colony.params.n as real) else 0.0)
    ensures r.cursor == cursor && r.iterations == run.iterations
  {
    var c := run.colony;
    var stag := if run.best.S == t.picks then run.stag + 1 else 0;
    var d := (|t.picks| as real) / (c.params.n as real);
    ClosedPath(c, t);
    Share(|t.picks|, c.params.n);
    var c' := c.(pheromones := Pheromones.Reinforce(c.pheromones, t.path, d));
    var r := Run(c', UpdateBest(run.best, t), stag, cursor, run.iterations);
    ReinforceRun(run, t, d, r);
    r
  }

  /** A tour's deposit |picks| / n is never negative. */
  lemma Share(k: nat, n: int)
    requires n > 0
    ensures (k as real) / (n as real) >= 0.0
  {
  }

  /** The reinforced trails stay valid and grow exactly on the tour's edges. */
  lemma {:induction false} ReinforceRun(run: Run, t: Tour, d: real, r: Run)
    requires RunValid(run) && Closed(run.colony, t) && d >= 0.0
    requires Pheromones.InRange(t.path, |run.colony.pheromones|)
    requires r.colony == run.colony.(pheromones := Pheromones.Reinforce(run.colony.pheromones, t.path, d))
    requires r.best == UpdateBest(run.best, t)
    ensures RunValid(r) && SameInstance(r.colony, run.colony)
    ensures forall i, j :: 0 <= i < |run.colony.G| && 0 <= j < |run.colony.G| ==>
      r.colony.pheromones[i][j] == run.colony.pheromones[i][j] + (if Pheromones.IsEdge(t.path, i, j) then d else 0.0)
  {
    var c, c' := run.colony, r.colony;
    ClosedPath(c, t);
    Pheromones.ReinforceTrails(c.pheromones, t.path, d);
    UpdateBestValid(c, run.best, t);
    NewTrails(c, c', r.best);
  }

  /** The updated best is valid when the old one was and the tour is closed. */
  lemma {:induction false} UpdateBestValid(c: Colony, b: Best, t: Tour)
    requires Sized(c) && BestValid(c, b) && Closed(c, t)
    ensures BestValid(c, UpdateBest(b, t))
  {
    if Improves(t, b) {
      assert AsTour(Record(t)) == t;
    }
  }

  /** New trails of the right shape that stay positive keep the instance, and every best, valid. */
  lemma {:induction false} NewTrails(c: Colony, c': Colony, b: Best)
    requires Valid(c) && CostsPositive(c) && BestValid(c, b) && SameInstance(c', c)
    requires Pheromones.Square(c'.pheromones, |c.G|) && Pheromones.Positive(c'.pheromones)
    ensures Valid(c') && CostsPositive(c') && BestValid(c', b)
  {
    if b.time.Some? {
      ClosedSame(c, c', AsTour(b));
    }
  }

  /**
   * One ant: builds its tour from the current trails and folds it into the
   * run. A tour is recorded from then on, the best never gets worse, and
   * whenever the counter grows the best's object list is the one it was.
   */
  function AntStep(run: Run, desire: (real, real) -> real, draws: nat -> real): (r: Run)
    requires RunValid(run) && PositiveDesire(desire) && DrawsInRange(draws)
    ensures RunValid(r) && SameInstance(r.colony, run.colony)
    ensures r.best.time.Some?
    ensures NoWorse(r.best, run.best)
    ensures r.stag == 0 || (r.stag == run.stag + 1 && r.best.S == run.best.S)
    ensures r.cursor >= run.cursor && r.iterations == run.iterations
  {
    var (t, cursor) := RunAnt(run.colony, desire, draws, run.cursor);
    Absorb(run, t, cursor)
  }

  /** The m ants of one iteration, one after another, each seeing the trails the previous ones left. */
  function Ants(run: Run, desire: (real, real) -> real, draws: nat -> real, count: int): (r: Run)
    requires RunValid(run) && PositiveDesire(desire) && DrawsInRange(draws)
    ensures RunValid(r) && SameInstance(r.colony, run.colony)
    ensures count <= 0 ==> r == run
    ensures r.iterations == run.iterations
    decreases count
  {
    if count <= 0 then run
    else Ants(AntStep(run, desire, draws), desire, draws, count - 1)
  }

  /** Over the ants of an iteration the best never gets worse, and after at least one ant a tour is recorded. */
  lemma {:induction false} AntsImprove(run: Run, desire: (real, real) -> real, draws: nat -> real, count: int)
    requires RunValid(run) && PositiveDesire(desire) && DrawsInRange(draws)
    ensures NoWorse(Ants(run, desire, draws, count).best, run.best)
    ensures count > 0 ==> Ants(run, desire, draws, count).best.time.Some?
    decreases count
  {
    if count > 0 {
      var next := AntStep(run, desire, draws);
      AntsImprove(next, desire, draws, count - 1);
      NoWorseTransitive(Ants(next, desire, draws, count - 1).best, next.best, run.best);
    }
  }

  /** Evaporation at the end of an iteration: every trail times (1 - p), and one more iteration done. */
  function EndIteration(run: Run): (r: Run)
    requires RunValid(run)
    ensures RunValid(r) && SameInstance(r.colony, run.colony)
    ensures r.best == run.best && r.stag == run.stag && r.iterations == run.iterations + 1
    ensures forall i, j :: 0 <= i < |run.colony.G| && 0 <= j < |run.colony.G| ==>
      r.colony.pheromones[i][j] == run.colony.pheromones[i][j] * (1.0 - run.colony.params.p)
  {
    var c := run.colony;
    Pheromones.EvaporatePositive(c.pheromones, c.params.p);
    var c' := c.(pheromones := Pheromones.Evaporate(c.pheromones, c.params.p));
    NewTrails(c, c', run.best);
    run.(colony := c', iterations := run.iterations + 1)
  }

  /**
   * The outer loop with `remaining` iterations left. Each iteration first
   * checks the stagnation counter and stops once it reaches the cap; so at
   * most `remaining` iterations run, fewer only when the counter reached
   * the cap, and the best never gets worse.
   */
  function Iterate(run: Run, desire: (real, real) -> real, draws: nat -> real, remaining: int): (r: Run)
    requires RunValid(run) && PositiveDesire(desire) && DrawsInRange(draws)
    ensures RunValid(r) && SameInstance(r.colony, run.colony)
    ensures NoWorse(r.best, run.best)
    ensures run.iterations <= r.iterations
    ensures remaining >= 0 ==> r.iterations <= run.iterations + remaining
    ensures remaining <= 0 ==> r.iterations == run.iterations
    ensures r.iterations < run.iterations + remaining ==> r.stag as int >= run.colony.params.stagnation
    ensures remaining <= 0 || run.stag as int >= run.colony.params.stagnation ==> r == run
    ensures remaining > 0 && run.stag as int < run.colony.params.stagnation && run.colony.params.m > 0 ==> r.best.time.Some?
    ensures run.best.time.Some? ==> r.best.time.Some?
    ensures run.colony.params.m <= 0 ==> r.best == run.best
    decreases remaining
  {
    if remaining <= 0 || run.stag as int >= run.colony.params.stagnation then run
    else
      var afterAnts := Ants(run, desire, draws, run.colony.params.m);
      AntsImprove(run, desire, draws, run.colony.params.m);
      var next := EndIteration(afterAnts);
      var r := Iterate(next, desire, draws, remaining - 1);
      NoWorseTransitive(r.best, next.best, run.best);
      assert next.best.time.Some? ==> r.best.time.Some?;
      r
  }

  /**
   * The outer loop when no ant runs: the same stopping rule as Iterate, and
   * each iteration only evaporates the trails.
   */
  function NoAntIterate(run: Run, remaining: int): (r: Run)
    decreases remaining
  {
    if remaining <= 0 || run.stag as int >= run.colony.params.stagnation then run
    else
      var c := run.colony;
      NoAntIterate(run.(colony := c.(pheromones := Pheromones.Evaporate(c.pheromones, c.params.p)), iterations := run.iterations + 1),
                   remaining - 1)
  }

  /** With m <= 0 ants per iteration the loop is the evaporation-only loop. */
  lemma {:induction false} IterateNoAnts(run: Run, desire: (real, real) -> real, draws: nat -> real, remaining: int)
    requires RunValid(run) && PositiveDesire(desire) && DrawsInRange(draws) && run.colony.params.m <= 0
    ensures Iterate(run, desire, draws, remaining) == NoAntIterate(run, remaining)
    decreases remaining
  {
    if remaining > 0 && (run.stag as int) < run.colony.params.stagnation {
      assert Ants(run, desire, draws, run.colony.params.m) == run;
      IterateNoAnts(EndIteration(run), desire, draws, remaining - 1);
    }
  }

  /**
   * What the evaporation-only loop does: the stagnation counter never moves,
   * so all `remaining` iterations run unless the counter already sits at the
   * cap, and every trail is scaled by (1 - p) once per iteration run.
   */
  lemma {:induction false} NoAntTrails(run: Run, remaining: int)
    requires Pheromones.Square(run.colony.pheromones, |run.colony.G|)
    ensures NoAntIterate(run, remaining).stag == run.stag && NoAntIterate(run, remaining).colony.G == run.colony.G
    ensures NoAntIterate(run, remaining).colony.params == run.colony.params
    ensures NoAntIterate(run, remaining).iterations
            == run.iterations + (if remaining > 0 && (run.stag as int) < run.colony.params.stagnation then remaining else 0)
    ensures Pheromones.Square(NoAntIterate(run, remaining).colony.pheromones, |run.colony.G|)
    ensures Pheromones.ScaledBy(run.colony.pheromones, NoAntIterate(run, remaining).colony.pheromones, |run.colony.G|,
                                Pheromones.Retained(run.colony.params.p, NoAntIterate(run, remaining).iterations - run.iterations))
    decreases remaining
  {
    if remaining > 0 && (run.stag as int) < run.colony.params.stagnation {
      var c := run.colony;
      var next := run.(colony := c.(pheromones := Pheromones.Evaporate(c.pheromones, c.params.p)), iterations := run.iterations + 1);
      Pheromones.EvaporateScaled(c.pheromones, c.params.p, |c.G|);
      NoAntTrails(next, remaining - 1);
      var r := NoAntIterate(next, remaining - 1);
      Pheromones.RetainedCompose(c.pheromones, next.colony.pheromones, r.colony.pheromones, |c.G|, c.params.p,
                                 run.iterations, next.iterations, r.iterations);
    } else {
      forall i, j | 0 <= i < |run.colony.G| && 0 <= j < |run.colony.G|
        ensures run.colony.pheromones[i][j] == run.colony.pheromones[i][j] * Pheromones.Retained(run.colony.params.p, 0)
      {
      }
    }
  }

  /** A whole solve from the instance's current trails: the final run. */
  function Solve(c: Colony, desire: (real, real) -> real, draws: nat -> real): (r: Run)
    requires Valid(c) && CostsPositive(c) && PositiveDesire(desire) && DrawsInRange(draws)
    ensures RunValid(r) && SameInstance(r.colony, c)
    ensures c.params.maxIter >= 0 ==> r.iterations <= c.params.maxIter
    ensures c.params.maxIter <= 0 ==> r.iterations == 0
    ensures r.iterations < c.params.maxIter ==> r.stag as int >= c.params.stagnation
    ensures r.best.time.Some? <==> c.params.maxIter > 0 && c.params.m > 0 && c.params.stagnation > 0
  {
    var start := Run(c, NoBest(), 0, 0, 0);
    var r := Iterate(start, desire, draws, c.params.maxIter);
    r
  }

  /**
   * What a solve that ran at least one ant returns: a route from A to B
   * whose interior locations are exactly the inspected ones, all of them
   * object locations; one flight time and one distance (flight time times
   * speed) per leg; a finite time, within the budget when anything is
   * inspected, and the direct A -> B time (possibly over budget) with the
   * route [A, B] when nothing is.
   */
  predicate RouteShape(c: Colony, sol: Solution)
    requires Sized(c)
  {
    |sol.route| >= 2 && sol.route[0] == c.task.A && sol.route[|sol.route| - 1] == c.task.B
    && sol.inspected <= ObjectLocations(c.task)
    && sol.inspected == InteriorOf(sol.route)
    && |sol.distances| == |sol.route| - 1 && |sol.flightTimes| == |sol.route| - 1
    && (forall e :: 0 <= e < |sol.distances| ==> sol.distances[e] == sol.flightTimes[e] * c.task.v)
    && sol.totalTime.Some?
    && (sol.inspected != {} ==> sol.totalTime.value <= c.task.T)
    && (sol.inspected == {} ==> sol.totalTime.value == c.w[0][|c.G| - 1] && |sol.route| == 2)
  }

  /** The locations strictly between the two ends of a route. */
  function InteriorOf(route: seq<Point>): set<Point>
  {
    set e | 0 < e < |route| - 1 :: route[e]
  }

  /** Whether a result is well formed depends only on the task, the waypoints and the travel times, not on the trails. */
  lemma RouteShapeSame(c: Colony, d: Colony, sol: Solution)
    requires Sized(c) && Sized(d) && SameInstance(c, d)
    ensures RouteShape(c, sol) <==> RouteShape(d, sol)
  {
  }

  /** The route of a best record: the location of each waypoint of its path. */
  function RouteOf(c: Colony, path: seq<nat>): (route: seq<Point>)
    requires Pheromones.InRange(path, |c.G|)
    ensures |route| == |path|
    ensures forall e :: 0 <= e < |path| ==> route[e] == Location(c.G[path[e]])
  {
    seq(|path|, e requires 0 <= e < |path| => Location(c.G[path[e]]))
  }

  /** The inspected set of a best record: the locations of its objects. */
  function InspectedOf(c: Colony, S: seq<nat>): (inspected: set<Point>)
    ensures forall x :: x in inspected <==> exists e :: e in S && e < |c.G| && x == Location(c.G[e])
  {
    set e | e in S && e < |c.G| :: Location(c.G[e])
  }

  /**
   * sol is the closed tour t in the result form: its route is the
   * locations along t's path, its inspected set the locations of t's
   * objects, its time t's time, and its legs t's legs.
   */
  predicate ResultOf(c: Colony, t: Tour, sol: Solution)
    requires Sized(c)
  {
    Closed(c, t) && Pheromones.InRange(t.path, |c.G|)
    && sol == Solution(RouteOf(c, t.path), InspectedOf(c, t.picks), Some(t.time), t.distances, t.flightTimes)
  }

  /** Whether a result is a closed tour's depends only on the task, the waypoints and the travel times. */
  lemma ResultOfSame(c: Colony, d: Colony, t: Tour, sol: Solution)
    requires Sized(c) && Sized(d) && SameInstance(c, d) && ResultOf(c, t, sol)
    ensures ResultOf(d, t, sol)
  {
  }

  /** The best record in the source's result form (coordinates instead of waypoints). */
  function ToSolution(c: Colony, b: Best): (sol: Solution)
    requires Sized(c) && BestValid(c, b)
    ensures sol.totalTime == b.time
    ensures b.time.None? ==> sol == Solution([c.task.A], {}, None, [], [])
    ensures b.time.Some? ==> ResultOf(c, AsTour(b), sol) && RouteShape(c, sol) && |sol.route| == |b.S| + 2
  {
    assert Pheromones.InRange(b.path, |c.G|) by {
      if b.time.Some? { ClosedPath(c, AsTour(b)); }
    }
    var sol := Solution(RouteOf(c, b.path), InspectedOf(c, b.S), b.time, b.distances, b.flightTimes);
    assert b.time.None? ==> sol == Solution([c.task.A], {}, None, [], []) by {
      if b.time.None? {
        assert RouteOf(c, b.path) == [c.task.A];
        assert InspectedOf(c, b.S) == {};
      }
    }
    assert b.time.Some? ==> ResultOf(c, AsTour(b), sol) && RouteShape(c, sol) by {
      if b.time.Some? { RecordShape(c, AsTour(b), sol); }
    }
    sol
  }

  /** The inspected locations of a closed tour are object locations. */
  lemma {:induction false} InspectedAreObjects(c: Colony, t: Tour)
    requires Sized(c) && Closed(c, t)
    ensures InspectedOf(c, t.picks) <= ObjectLocations(c.task)
  {
    forall x | x in InspectedOf(c, t.picks) ensures x in ObjectLocations(c.task) {
      var e :| e in t.picks && e < |c.G| && x == Location(c.G[e]);
      var q :| 0 <= q < |t.picks| && t.picks[q] == e;
      assert 0 < e < |c.G| - 1;
      var i := e - 1;
      assert c.G[i + 1] == Waypoint(c.task.J[i].x, c.task.J[i].y, c.task.J[i].delay);
      assert x == Coord(c.task.J[i]);
    }
  }

  /** Every inspected location of a path [A] ++ picks ++ [B] lies on its interior. */
  lemma {:induction false} InspectedInInterior(c: Colony, path: seq<nat>, picks: seq<nat>)
    requires Pheromones.InRange(path, |c.G|) && |c.G| > 0 && path == [0] + picks + [|c.G| - 1]
    ensures InspectedOf(c, picks) <= InteriorOf(RouteOf(c, path))
  {
    var route := RouteOf(c, path);
    forall x | x in InspectedOf(c, picks) ensures x in InteriorOf(route) {
      var e :| e in picks && e < |c.G| && x == Location(c.G[e]);
      var q :| 0 <= q < |picks| && picks[q] == e;
      assert path[q + 1] == e;
      assert route[q + 1] == x;
    }
  }

  /** Every interior location of a path [A] ++ picks ++ [B] is inspected. */
  lemma {:induction false} InteriorInInspected(c: Colony, path: seq<nat>, picks: seq<nat>)
    requires Pheromones.InRange(path, |c.G|) && |c.G| > 0 && path == [0] + picks + [|c.G| - 1]
    ensures InteriorOf(RouteOf(c, path)) <= InspectedOf(c, picks)
  {
    var route := RouteOf(c, path);
    forall x | x in InteriorOf(route) ensures x in InspectedOf(c, picks) {
      var e :| 0 < e < |path| - 1 && x == route[e];
      assert path[e] == picks[e - 1];
      assert picks[e - 1] in picks;
    }
  }

  /** The inspected locations of a closed tour are the interior of its route. */
  lemma {:induction false} InspectedIsInterior(c: Colony, t: Tour)
    requires Sized(c) && Closed(c, t) && Pheromones.InRange(t.path, |c.G|)
    ensures InspectedOf(c, t.picks) == InteriorOf(RouteOf(c, t.path))
  {
    InspectedInInterior(c, t.path, t.picks);
    InteriorInInspected(c, t.path, t.picks);
  }

  /** The route of a path [A] ++ picks ++ [B] starts at the task's A and ends at its B. */
  lemma {:induction false} RouteEnds(c: Colony, path: seq<nat>, picks: seq<nat>)
    requires c.G == Waypoints(c.task) && Pheromones.InRange(path, |c.G|) && path == [0] + picks + [|c.G| - 1]
    ensures |RouteOf(c, path)| >= 2
    ensures RouteOf(c, path)[0] == c.task.A && RouteOf(c, path)[|path| - 1] == c.task.B
  {
    assert RouteOf(c, path)[0] == Location(c.G[0]);
    assert RouteOf(c, path)[|path| - 1] == Location(c.G[|c.G| - 1]);
  }

  /** Every leg's distance is its flight time times the speed. */
  lemma {:induction false} DistancesAreScaled(c: Colony, path: seq<nat>, distances: seq<real>, flightTimes: seq<real>)
    requires Sized(c) && Pheromones.InRange(path, |c.G|) && Legs(c, path, distances, flightTimes)
    ensures forall e :: 0 <= e < |distances| ==> distances[e] == flightTimes[e] * c.task.v
  {
    forall e | 0 <= e < |distances| ensures distances[e] == flightTimes[e] * c.task.v {
      assert distances[e] == Distance(c, flightTimes[e]);
    }
  }

  /**
   * A closed tour inspects something exactly when it picked something: then
   * it is within the budget; otherwise its route is [A, B] with the direct
   * A -> B time.
   */
  lemma {:induction false} EmptyOrWithinBudget(c: Colony, t: Tour)
    requires Sized(c) && Closed(c, t)
    ensures |t.picks| > 0 ==> InspectedOf(c, t.picks) != {} && t.time <= c.task.T
    ensures |t.picks| == 0 ==> InspectedOf(c, t.picks) == {} && |t.path| == 2 && t.time == c.w[0][|c.G| - 1]
  {
    if |t.picks| > 0 {
      assert Location(c.G[t.picks[0]]) in InspectedOf(c, t.picks);
    }
  }

  /** The result built from a closed tour has the shape RouteShape describes. */
  lemma {:induction false} RecordShape(c: Colony, t: Tour, sol: Solution)
    requires Sized(c) && ResultOf(c, t, sol)
    ensures RouteShape(c, sol)
  {
    InspectedAreObjects(c, t);
    InspectedIsInterior(c, t);
    RouteEnds(c, t.path, t.picks);
    DistancesAreScaled(c, t.path, t.distances, t.flightTimes);
    EmptyOrWithinBudget(c, t);
  }

  /**
   * SolveRoute: the result and the instance afterwards, whose trails are the
   * evolved ones, so a second solve continues from them. If no ant ever
   * runs (max_iter, m or the stagnation cap not positive) the result is the
   * route [A] with infinite time; otherwise it is a closed tour of the
   * instance in the result form, with the shape RouteShape describes.
   */
  function SolveRoute(c: Colony, desire: (real, real) -> real, draws: nat -> real): (r: (Solution, Colony))
    requires Valid(c) && CostsPositive(c) && PositiveDesire(desire) && DrawsInRange(draws)
    ensures SameInstance(r.1, c) && Valid(r.1) && CostsPositive(r.1)
    ensures r.0.totalTime.Some? <==> c.params.maxIter > 0 && c.params.m > 0 && c.params.stagnation > 0
    ensures r.0.totalTime.None? ==> r.0 == Solution([c.task.A], {}, None, [], [])
    ensures r.0.totalTime.Some? ==> RouteShape(c, r.0)
    ensures r.0.totalTime.Some? ==> exists t :: ResultOf(c, t, r.0)
    ensures r.0.totalTime.Some? ==> Solve(c, desire, draws).best.time.Some?
                                    && ResultOf(c, AsTour(Solve(c, desire, draws).best), r.0)
    ensures r.1 == Solve(c, desire, draws).colony
  {
    var run := Solve(c, desire, draws);
    var sol := ToSolution(run.colony, run.best);
    RouteShapeSame(run.colony, c, sol);
    if sol.totalTime.Some? then
      ResultOfSame(run.colony, c, AsTour(run.best), sol);
      (sol, run.colony)
    else
      (sol, run.colony)
  }

  /**
   * The instance a solve without ants hands back: no route, and every trail
   * evaporated once per iteration, max_iter times when the stagnation cap is
   * positive and not at all otherwise.
   */
  lemma SolveNoAnts(c: Colony, desire: (real, real) -> real, draws: nat -> real)
    requires Valid(c) && CostsPositive(c) && PositiveDesire(desire) && DrawsInRange(draws) && c.params.m <= 0
    ensures SolveRoute(c, desire, draws).0 == Solution([c.task.A], {}, None, [], [])
    ensures Pheromones.ScaledBy(c.pheromones, SolveRoute(c, desire, draws).1.pheromones, |c.G|,
      Pheromones.Retained(c.params.p, if c.params.stagnation > 0 && c.params.maxIter > 0 then c.params.maxIter else 0))
  {
    var start := Run(c, NoBest(), 0, 0, 0);
    IterateNoAnts(start, desire, draws, c.params.maxIter);
    NoAntTrails(start, c.params.maxIter);
  }

  /** Reconfigures the iteration cap; nothing else about the instance changes. */
  function ChangeMaxIteration(c: Colony, newValue: int): (r: Colony)
    ensures r.params.maxIter == newValue
    ensures r.params.(maxIter := c.params.maxIter) == c.params
    ensures r.task == c.task && r.G == c.G && r.w == c.w && r.pheromones == c.pheromones
    ensures Valid(c) ==> Valid(r)
  {
    c.(params := c.params.(maxIter := newValue))
  }
}
