/**
 * The colony solver's instance state and its candidate step: the waypoint
 * list [A, J..., B], the travel-time matrix w (given, already rounded), the
 * pheromone matrix, and the choice of the next waypoint of an ant.
 *
 * Waypoints are indices 0..k-1 into the waypoint list: 0 is the start A and
 * k-1 the end B. The source compares waypoint objects by identity, so an
 * index comparison is exact even when two waypoints share coordinates.
 */
module AntColony {
  import opened Wrappers
  import opened Models
  import Roulette
  import Pheromones

  /**
   * Pheromone exponent a, heuristic exponent b, evaporation rate p, ants per
   * iteration m, normalisation n, initial trail t0, iteration cap and
   * stagnation cap.
   */
  datatype Params = Params(a: real, b: real, p: real, m: int, n: int, t0: real, maxIter: int, stagnation: int)

  /** The parameter set used when the caller passes none. */
  function DefaultParams(task: Task): Params
  {
    Params(0.05, 2.5, 0.01, 10, |task.J| + 2, 0.01, 100, 10)
  }

  /** The solver instance: task, parameters, waypoints, travel times and the evolving pheromone matrix. */
  datatype Colony = Colony(task: Task, params: Params, G: seq<Waypoint>, w: seq<seq<real>>, pheromones: seq<seq<real>>)

  /**
   * The waypoint list: A with zero delay, then the objects of J in input
   * order with their dwell times, then B with zero delay.
   */
  function Waypoints(task: Task): (G: seq<Waypoint>)
    ensures |G| == |task.J| + 2
    ensures G[0] == Waypoint(task.A.x, task.A.y, 0.0)
    ensures G[|G| - 1] == Waypoint(task.B.x, task.B.y, 0.0)
    ensures forall i :: 0 <= i < |task.J| ==> G[i + 1] == Waypoint(task.J[i].x, task.J[i].y, task.J[i].delay)
  {
    var objects := seq(|task.J|, i requires 0 <= i < |task.J| => Waypoint(task.J[i].x, task.J[i].y, task.J[i].delay));
    [Waypoint(task.A.x, task.A.y, 0.0)] + objects + [Waypoint(task.B.x, task.B.y, 0.0)]
  }

  /**
   * The constructor: the default parameters when none are given, the
   * waypoint list, the given travel-time matrix, and a pheromone matrix of
   * t0 in every entry. This is the only place the matrix is initialised.
   */
  function Init(task: Task, params: Option<Params>, w: seq<seq<real>>): (c: Colony)
    ensures c.task == task && c.w == w && c.G == Waypoints(task)
    ensures params.Some? ==> c.params == params.value
    ensures params.None? ==> c.params == DefaultParams(task)
    ensures Pheromones.Square(c.pheromones, |task.J| + 2)
    ensures forall i, j :: 0 <= i < |c.G| && 0 <= j < |c.G| ==> c.pheromones[i][j] == c.params.t0
    ensures c.params.t0 > 0.0 ==> Pheromones.Positive(c.pheromones)
  {
    var p := params.GetOr(DefaultParams(task));
    var G := Waypoints(task);
    Colony(task, p, G, w, Pheromones.Uniform(|G|, p.t0))
  }

  /** The dimensions every operation relies on. */
  predicate Sized(c: Colony)
  {
    c.G == Waypoints(c.task) && Pheromones.Square(c.w, |c.G|) && Pheromones.Square(c.pheromones, |c.G|)
  }

  /**
   * What a solve needs of the instance: consistent dimensions, positive
   * trails (so every desirability is positive), a positive normalisation
   * (the reinforcement divides by it) and p < 1 (so evaporation keeps
   * trails positive).
   */
  predicate Valid(c: Colony)
  {
    Sized(c) && Pheromones.Positive(c.pheromones) && c.params.n > 0 && c.params.p < 1.0
  }

  /**
   * The heuristic divides by travel time plus dwell time, so for every
   * object j reached from another waypoint i this sum must be positive.
   */
  predicate CostsPositive(c: Colony)
    requires Sized(c)
  {
    forall i, j :: 0 <= i < |c.G| && 0 < j < |c.G| - 1 && i != j ==> c.w[i][j] + c.G[j].delay > 0.0
  }

  /** tau^a * (1/cost)^b is positive for positive tau and cost. */
  ghost predicate PositiveDesire(desire: (real, real) -> real)
  {
    forall tau, cost :: tau > 0.0 && cost > 0.0 ==> desire(tau, cost) > 0.0
  }

  /** Every draw of the random stream lies in [0, 1). */
  ghost predicate DrawsInRange(draws: nat -> real)
  {
    forall i: nat :: 0.0 <= draws(i) < 1.0
  }

  /**
   * Index j may be the next waypoint: it was not visited, it is not B, and
   * after travelling to it and inspecting it there is still time to reach B.
   */
  predicate Qualifies(c: Colony, visited: seq<nat>, time: real, cur: nat, j: nat)
    requires Sized(c) && cur < |c.G| && j < |c.G|
  {
    var B := |c.G| - 1;
    j !in visited && time + c.G[j].delay + c.w[cur][j] + c.w[j][B] <= c.task.T && j != B
  }

  /** No waypoint qualifies: the ant at `cur` has nowhere left to go but B. */
  predicate NoneQualifies(c: Colony, visited: seq<nat>, time: real, cur: nat)
    requires Sized(c) && cur < |c.G|
  {
    forall j :: 0 <= j < |c.G| ==> !Qualifies(c, visited, time, cur, j)
  }

  /** The qualifying indices from j on, in increasing order. */
  function CandidatesFrom(c: Colony, visited: seq<nat>, time: real, cur: nat, j: nat): (r: seq<nat>)
    requires Sized(c) && cur < |c.G| && j <= |c.G|
    ensures forall e :: 0 <= e < |r| ==> j <= r[e] < |c.G| && Qualifies(c, visited, time, cur, r[e])
    ensures forall x :: j <= x < |c.G| && Qualifies(c, visited, time, cur, x) ==> x in r
    ensures forall e, f :: 0 <= e < f < |r| ==> r[e] < r[f]
    decreases |c.G| - j
  {
    if j == |c.G| then []
    else
      var rest := CandidatesFrom(c, visited, time, cur, j + 1);
      if Qualifies(c, visited, time, cur, j) then
        assert forall e :: 0 < e < |rest| + 1 ==> ([j] + rest)[e] == rest[e - 1];
        [j] + rest
      else rest
  }

  /** The candidate list of one step, in waypoint order. */
  function Candidates(c: Colony, visited: seq<nat>, time: real, cur: nat): (r: seq<nat>)
    requires Sized(c) && cur < |c.G|
    ensures forall e :: 0 <= e < |r| ==> r[e] < |c.G| && Qualifies(c, visited, time, cur, r[e])
    ensures forall x :: 0 <= x < |c.G| && Qualifies(c, visited, time, cur, x) ==> x in r
    ensures forall e, f :: 0 <= e < f < |r| ==> r[e] < r[f]
  {
    CandidatesFrom(c, visited, time, cur, 0)
  }

  /** The physical length of a leg flown in the given time at the task's speed. */
  function Distance(c: Colony, flightTime: real): real
  {
    flightTime * c.task.v
  }

  /** Travel time to waypoint j plus its dwell time. */
  function Cost(c: Colony, cur: nat, j: nat): real
    requires Sized(c) && cur < |c.G| && j < |c.G|
  {
    c.w[cur][j] + c.G[j].delay
  }

  /** The desirability of each candidate, as the roulette wheel weighs them. */
  function Weights(c: Colony, desire: (real, real) -> real, cur: nat, cands: seq<nat>): (ws: seq<real>)
    requires Sized(c) && cur < |c.G| && forall e :: 0 <= e < |cands| ==> cands[e] < |c.G|
    ensures |ws| == |cands|
  {
    seq(|cands|, e requires 0 <= e < |cands| => desire(c.pheromones[cur][cands[e]], Cost(c, cur, cands[e])))
  }

  /**
   * The candidates' desirabilities weigh the trail from the current waypoint
   * to the candidate against the candidate's travel-plus-dwell cost, and are
   * all positive, so the wheel's total is never zero.
   */
  lemma WeightsPositive(c: Colony, desire: (real, real) -> real, visited: seq<nat>, time: real, cur: nat)
    requires Valid(c) && CostsPositive(c) && PositiveDesire(desire)
    requires cur < |c.G| && cur in visited && 0 in visited
    ensures var cands := Candidates(c, visited, time, cur);
      var ws := Weights(c, desire, cur, cands);
      Roulette.AllPositive(ws)
      && forall e :: 0 <= e < |ws| ==> ws[e] == desire(c.pheromones[cur][cands[e]], c.w[cur][cands[e]] + c.G[cands[e]].delay)
  {
    var cands := Candidates(c, visited, time, cur);
    var ws := Weights(c, desire, cur, cands);
    forall e | 0 <= e < |ws| ensures ws[e] > 0.0 {
      var j := cands[e];
      assert Qualifies(c, visited, time, cur, j);
      assert j != cur && j != 0 && j < |c.G| - 1;
      assert Cost(c, cur, j) > 0.0;
      assert c.pheromones[cur][j] > 0.0;
    }
    forall e | 0 <= e < |ws| ensures ws[e] == desire(c.pheromones[cur][cands[e]], c.w[cur][cands[e]] + c.G[cands[e]].delay) {
      assert ws[e] == desire(c.pheromones[cur][cands[e]], Cost(c, cur, cands[e]));
    }
  }

  /**
   * One candidate step of an ant standing at `cur` after `visited`: None
   * exactly when no index qualifies; otherwise one draw on the roulette
   * wheel picks the first candidate, in waypoint order, whose running sum
   * of desirabilities reaches the draw's share of their total.
   */
  function GetCandidate(c: Colony, desire: (real, real) -> real, visited: seq<nat>, time: real, cur: nat, draw: real): (r: Option<nat>)
    requires Valid(c) && CostsPositive(c) && PositiveDesire(desire)
    requires cur < |c.G| && cur in visited && 0 in visited && draw < 1.0
    ensures r.None? <==> NoneQualifies(c, visited, time, cur)
    ensures r.Some? ==> r.value < |c.G| && Qualifies(c, visited, time, cur, r.value)
    ensures r.Some? ==> Roulette.Chooses(Candidates(c, visited, time, cur), Weights(c, desire, cur, Candidates(c, visited, time, cur)), draw, r.value)
  {
    var cands := Candidates(c, visited, time, cur);
    if |cands| == 0 then None
    else
      var ws := Weights(c, desire, cur, cands);
      WeightsPositive(c, desire, visited, time, cur);
      var k := Roulette.Spin(ws, draw);
      Some(cands[k])
  }
}
