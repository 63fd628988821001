/**
 * One ant's tour: starting at A it repeats the candidate step, each pick
 * consuming one draw of the random stream, and when no candidate is left
 * it closes the tour to B.
 */
module AntTour {
  import opened Wrappers
  import opened Models
  import Roulette
  import Pheromones
  import opened AntColony

  /**
   * An ant in the middle of its tour: current waypoint, elapsed time, the
   * waypoints visited so far (start first), the objects picked, the leg
   * distances and flight times recorded so far, and the position of the
   * next unused draw.
   */
  datatype AntState = AntState(
    cur: nat,
    time: real,
    path: seq<nat>,
    picks: seq<nat>,
    distances: seq<real>,
    flightTimes: seq<real>,
    cursor: nat)

  /** A finished tour: [A] ++ picks ++ [B] with its time and legs. */
  datatype Tour = Tour(path: seq<nat>, picks: seq<nat>, time: real, distances: seq<real>, flightTimes: seq<real>)

  /** The state of a fresh ant at A. */
  function Start(cursor: nat): AntState
  {
    AntState(0, 0.0, [0], [], [], [], cursor)
  }

  /** Every pick is an object index, i.e. neither A nor B. */
  predicate ObjectIndices(c: Colony, picks: seq<nat>)
  {
    forall e :: 0 <= e < |picks| ==> 0 < picks[e] < |c.G| - 1
  }

  /** Sum of the dwell times of the picked objects, folded from the left. */
  function DelaySum(G: seq<Waypoint>, picks: seq<nat>): real
    requires forall e :: 0 <= e < |picks| ==> picks[e] < |G|
  {
    if |picks| == 0 then 0.0
    else DelaySum(G, picks[..|picks| - 1]) + G[picks[|picks| - 1]].delay
  }

  /**
   * The legs of a path: flightTimes[e] is the travel time of the e-th edge
   * of the path and distances[e] is that time multiplied by the speed.
   */
  predicate Legs(c: Colony, path: seq<nat>, distances: seq<real>, flightTimes: seq<real>)
    requires Sized(c) && Pheromones.InRange(path, |c.G|)
  {
    |flightTimes| == |path| - 1 && |distances| == |path| - 1
    && (forall e :: 0 <= e < |flightTimes| ==> flightTimes[e] == c.w[path[e]][path[e + 1]])
    && (forall e :: 0 <= e < |distances| ==> distances[e] == Distance(c, flightTimes[e]))
  }

  /**
   * The invariant of an ant between two candidate steps: its path is A
   * followed by distinct object indices, it stands at the last of them, its
   * legs follow the matrix, its elapsed time is the flight time plus the
   * dwell times so far, and once it has picked an object it can still reach
   * B within the budget.
   */
  predicate Partial(c: Colony, s: AntState)
    requires Sized(c)
  {
    var B := |c.G| - 1;
    ObjectIndices(c, s.picks) && Distinct(s.picks)
    && s.path == [0] + s.picks && s.cur == s.path[|s.path| - 1]
    && Legs(c, s.path, s.distances, s.flightTimes)
    && s.time == Roulette.Sum(s.flightTimes) + DelaySum(c.G, s.picks)
    && (|s.picks| > 0 ==> s.time + c.w[s.cur][B] <= c.task.T)
  }

  /**
   * A closed tour: [A] ++ picks ++ [B] with distinct object picks, legs
   * following the matrix, time equal to flight time plus dwell times, within
   * the budget when it inspects anything, and equal to the direct A -> B
   * time when it inspects nothing (which may exceed the budget).
   */
  predicate Closed(c: Colony, t: Tour)
    requires Sized(c)
  {
    var B := |c.G| - 1;
    ObjectIndices(c, t.picks) && Distinct(t.picks)
    && t.path == [0] + t.picks + [B]
    && Legs(c, t.path, t.distances, t.flightTimes)
    && t.time == Roulette.Sum(t.flightTimes) + DelaySum(c.G, t.picks)
    && (|t.picks| > 0 ==> t.time <= c.task.T)
    && (|t.picks| == 0 ==> t.time == c.w[0][B])
  }

  /**
   * The ant closed its tour only because nothing was left to pick: standing
   * at the last waypoint before B, with the time it had there, it finds no
   * qualifying waypoint.
   */
  predicate Stuck(c: Colony, t: Tour)
    requires Sized(c) && Closed(c, t)
  {
    var B := |c.G| - 1;
    var path := t.path[..|t.path| - 1];
    var cur := path[|path| - 1];
    assert cur < |c.G| by {
      assert |t.picks| > 0 ==> cur == t.picks[|t.picks| - 1];
    }
    NoneQualifies(c, path, t.time - c.w[cur][B], cur)
  }

  /** The travel time along a path: the matrix entries of its edges, summed from the left. */
  function PathTime(c: Colony, path: seq<nat>): real
    requires Sized(c) && Pheromones.InRange(path, |c.G|)
  {
    if |path| <= 1 then 0.0 else PathTime(c, path[..|path| - 1]) + c.w[path[|path| - 2]][path[|path| - 1]]
  }

  /** The time an ant has spent after the picks in `prefix`: travel from A along them plus their dwell times. */
  function Elapsed(c: Colony, prefix: seq<nat>): real
    requires Sized(c) && ObjectIndices(c, prefix)
  {
    var visited := [0] + prefix;
    assert Pheromones.InRange(visited, |c.G|) by {
      forall e | 0 < e < |visited| ensures visited[e] < |c.G| { assert visited[e] == prefix[e - 1]; }
    }
    PathTime(c, visited) + DelaySum(c.G, prefix)
  }

  /**
   * Pick e is the candidate step's choice: what GetCandidate returns for an
   * ant that has visited A and the first e picks, stands at the last of
   * them, has spent their elapsed time, and spins the wheel with the draw at
   * position `at`.
   */
  predicate ChosenAt(c: Colony, desire: (real, real) -> real, draws: nat -> real, picks: seq<nat>, e: nat, at: nat)
    requires Valid(c) && CostsPositive(c) && PositiveDesire(desire) && DrawsInRange(draws)
    requires ObjectIndices(c, picks) && e < |picks|
  {
    var prefix := picks[..e];
    assert ObjectIndices(c, prefix) by {
      forall k | 0 <= k < |prefix| ensures 0 < prefix[k] < |c.G| - 1 { assert prefix[k] == picks[k]; }
    }
    var visited := [0] + prefix;
    GetCandidate(c, desire, visited, Elapsed(c, prefix), visited[|visited| - 1], draws(at)) == Some(picks[e])
  }

  /** The position of the draw for pick e of an ant whose first draw is at base. */
  function DrawAt(base: nat, e: nat): nat
  {
    base + e
  }

  /** Every pick from position `from` on is the candidate step's choice, one draw per pick from draw base on. */
  predicate Drawn(c: Colony, desire: (real, real) -> real, draws: nat -> real, base: nat, picks: seq<nat>, from: nat)
    requires Valid(c) && CostsPositive(c) && PositiveDesire(desire) && DrawsInRange(draws)
    requires ObjectIndices(c, picks)
  {
    forall e :: from <= e < |picks| ==> ChosenAt(c, desire, draws, picks, e, DrawAt(base, e))
  }

  /** Whether a tour is closed depends only on the task, the waypoints and the travel times, not on the trails. */
  lemma ClosedSame(c: Colony, d: Colony, t: Tour)
    requires Sized(c) && Sized(d) && c.task == d.task && c.G == d.G && c.w == d.w
    ensures Closed(c, t) <==> Closed(d, t)
  {
  }

  /** The waypoints not yet visited; the measure that bounds a tour. */
  function Unvisited(c: Colony, path: seq<nat>): set<nat>
  {
    set j | 0 <= j < |c.G| && j !in path
  }

  /** Moving to the picked waypoint j: time, legs, path and the draw cursor advance. */
  function Advance(c: Colony, s: AntState, j: nat): AntState
    requires Sized(c) && s.cur < |c.G| && j < |c.G|
  {
    var leg := c.w[s.cur][j];
    AntState(j, s.time + leg + c.G[j].delay, s.path + [j], s.picks + [j],
             s.distances + [Distance(c, leg)], s.flightTimes + [leg], s.cursor + 1)
  }

  lemma {:induction false} SumAppend(f: seq<real>, x: real)
    ensures Roulette.Sum(f + [x]) == Roulette.Sum(f) + x
  {
    assert (f + [x])[..|f|] == f;
  }

  lemma {:induction false} DelaySumAppend(c: Colony, picks: seq<nat>, j: nat)
    requires ObjectIndices(c, picks) && 0 < j < |c.G| - 1
    ensures ObjectIndices(c, picks + [j])
    ensures DelaySum(c.G, picks + [j]) == DelaySum(c.G, picks) + c.G[j].delay
  {
    assert (picks + [j])[..|picks|] == picks;
  }

  /** One more leg, to waypoint j, read from the matrix. */
  lemma {:induction false} LegsAppend(c: Colony, path: seq<nat>, distances: seq<real>, flightTimes: seq<real>, j: nat,
                                      path': seq<nat>, distances': seq<real>, flightTimes': seq<real>)
    requires Sized(c) && Pheromones.InRange(path, |c.G|) && |path| > 0 && j < |c.G|
    requires Legs(c, path, distances, flightTimes)
    requires path' == path + [j]
    requires flightTimes' == flightTimes + [c.w[path[|path| - 1]][j]]
    requires distances' == distances + [Distance(c, c.w[path[|path| - 1]][j])]
    ensures Pheromones.InRange(path', |c.G|)
    ensures Legs(c, path', distances', flightTimes')
  {
    forall e | 0 <= e < |flightTimes'| ensures flightTimes'[e] == c.w[path'[e]][path'[e + 1]] {
      if e < |flightTimes| {
        assert flightTimes'[e] == flightTimes[e] && path'[e] == path[e] && path'[e + 1] == path[e + 1];
      }
    }
    forall e | 0 <= e < |distances'| ensures distances'[e] == Distance(c, flightTimes'[e]) {
      if e < |distances| {
        assert distances'[e] == distances[e] && flightTimes'[e] == flightTimes[e];
      }
    }
  }

  /** The path and picks facts of a step to a fresh object j, and the shrinking of the unvisited set. */
  lemma {:induction false} AppendPick(c: Colony, path: seq<nat>, picks: seq<nat>, j: nat, path': seq<nat>, picks': seq<nat>)
    requires ObjectIndices(c, picks) && Distinct(picks) && path == [0] + picks
    requires 0 < j < |c.G| - 1 && j !in path
    requires path' == path + [j] && picks' == picks + [j]
    ensures ObjectIndices(c, picks') && Distinct(picks')
    ensures path' == [0] + picks'
    ensures Unvisited(c, path') < Unvisited(c, path)
  {
    assert j !in picks by { assert forall e :: 0 <= e < |picks| ==> path[e + 1] == picks[e]; }
    forall a, b | 0 <= a < b < |picks'| ensures picks'[a] != picks'[b] {
      assert picks'[a] == picks[a];
      if b < |picks| { assert picks'[b] == picks[b]; }
    }
    assert j in Unvisited(c, path) && j !in Unvisited(c, path');
  }

  /** The elapsed time of a step to object j: the leg and j's dwell time are added to the sums. */
  lemma {:induction false} TimeAppend(c: Colony, flightTimes: seq<real>, picks: seq<nat>, time: real, j: nat, leg: real,
                                      flightTimes': seq<real>, picks': seq<nat>, time': real)
    requires ObjectIndices(c, picks) && 0 < j < |c.G| - 1
    requires time == Roulette.Sum(flightTimes) + DelaySum(c.G, picks)
    requires flightTimes' == flightTimes + [leg] && picks' == picks + [j] && time' == time + leg + c.G[j].delay
    ensures ObjectIndices(c, picks')
    ensures time' == Roulette.Sum(flightTimes') + DelaySum(c.G, picks')
  {
    DelaySumAppend(c, picks, j);
    SumAppend(flightTimes, leg);
  }

  /** Every waypoint of an ant's path is a row of the matrix. */
  lemma {:induction false} PathInRange(c: Colony, path: seq<nat>, picks: seq<nat>)
    requires ObjectIndices(c, picks) && path == [0] + picks && |c.G| > 0
    ensures Pheromones.InRange(path, |c.G|)
  {
    forall e | 0 <= e < |path| ensures path[e] < |c.G| {
      if e > 0 { assert path[e] == picks[e - 1]; }
    }
  }

  lemma {:induction false} AdvancePartial(c: Colony, s: AntState, j: nat)
    requires Sized(c) && Partial(c, s) && j < |c.G|
    requires Qualifies(c, s.path, s.time, s.cur, j)
    ensures Partial(c, Advance(c, s, j))
    ensures Unvisited(c, Advance(c, s, j).path) < Unvisited(c, s.path)
  {
    var r := Advance(c, s, j);
    assert j != 0 by { assert s.path[0] == 0; }
    AppendPick(c, s.path, s.picks, j, r.path, r.picks);
    TimeAppend(c, s.flightTimes, s.picks, s.time, j, c.w[s.cur][j], r.flightTimes, r.picks, r.time);
    PathInRange(c, s.path, s.picks);
    LegsAppend(c, s.path, s.distances, s.flightTimes, j, r.path, r.distances, r.flightTimes);
    PartialIntro(c, r);
  }

  /** The invariant from its parts. */
  lemma {:induction false} PartialIntro(c: Colony, s: AntState)
    requires Sized(c) && ObjectIndices(c, s.picks) && Distinct(s.picks)
    requires s.path == [0] + s.picks && s.cur == s.path[|s.path| - 1]
    requires Pheromones.InRange(s.path, |c.G|) && Legs(c, s.path, s.distances, s.flightTimes)
    requires s.time == Roulette.Sum(s.flightTimes) + DelaySum(c.G, s.picks)
    requires |s.picks| > 0 ==> s.time + c.w[s.cur][|c.G| - 1] <= c.task.T
    ensures Partial(c, s)
  {
  }

  /** The prefix and cursor facts of one more step of Extend carry over from the rest of the tour. */
  lemma {:induction false} ExtendStep(c: Colony, s: AntState, next: AntState, r: AntState, j: nat)
    requires next.picks == s.picks + [j] && next.cursor == s.cursor + 1
    requires |r.picks| >= |next.picks| && r.picks[..|next.picks|] == next.picks
    requires r.cursor == next.cursor + (|r.picks| - |next.picks|)
    ensures |r.picks| >= |s.picks| && r.picks[..|s.picks|] == s.picks
    ensures r.cursor == s.cursor + (|r.picks| - |s.picks|)
  {
    assert r.picks[..|s.picks|] == r.picks[..|next.picks|][..|s.picks|];
  }

  /** What the candidate step needs of an ant: it stands on a waypoint, and its path holds A and that waypoint. */
  predicate OnPath(c: Colony, s: AntState)
  {
    s.cur < |c.G| && s.cur in s.path && 0 in s.path
  }

  /**
   * Repeats the candidate step until no candidate is left; each step uses
   * the next draw and moves the ant to the waypoint it picks.
   */
  function Extend(c: Colony, desire: (real, real) -> real, draws: nat -> real, s: AntState): (r: AntState)
    requires Valid(c) && CostsPositive(c) && PositiveDesire(desire) && DrawsInRange(draws)
    requires OnPath(c, s)
    ensures OnPath(c, r)
    ensures NoneQualifies(c, r.path, r.time, r.cur)
    decreases Unvisited(c, s.path)
  {
    match GetCandidate(c, desire, s.path, s.time, s.cur, draws(s.cursor))
    case None => s
    case Some(j) =>
      var next := Advance(c, s, j);
      assert j in Unvisited(c, s.path) && j !in Unvisited(c, next.path);
      Extend(c, desire, draws, next)
  }

  /**
   * The tour Extend builds: the invariant holds throughout, the picks only
   * grow, and one draw is used per pick.
   */
  lemma {:induction false} ExtendPartial(c: Colony, desire: (real, real) -> real, draws: nat -> real, s: AntState)
    requires Valid(c) && CostsPositive(c) && PositiveDesire(desire) && DrawsInRange(draws)
    requires OnPath(c, s) && Partial(c, s)
    ensures Partial(c, Extend(c, desire, draws, s))
    ensures |Extend(c, desire, draws, s).picks| >= |s.picks|
    ensures Extend(c, desire, draws, s).picks[..|s.picks|] == s.picks
    ensures Extend(c, desire, draws, s).cursor == s.cursor + (|Extend(c, desire, draws, s).picks| - |s.picks|)
    decreases Unvisited(c, s.path)
  {
    match GetCandidate(c, desire, s.path, s.time, s.cur, draws(s.cursor))
    case None =>
    case Some(j) =>
      AdvancePartial(c, s, j);
      var next := Advance(c, s, j);
      ExtendPartial(c, desire, draws, next);
      ExtendStep(c, s, next, Extend(c, desire, draws, next), j);
  }

  /** The recorded flight times of a path sum to the travel time along it. */
  lemma {:induction false} LegsTime(c: Colony, path: seq<nat>, f: seq<real>)
    requires Sized(c) && Pheromones.InRange(path, |c.G|) && |path| >= 1 && |f| == |path| - 1
    requires forall k :: 0 <= k < |f| ==> f[k] == c.w[path[k]][path[k + 1]]
    ensures Roulette.Sum(f) == PathTime(c, path)
    decreases |path|
  {
    if |path| > 1 {
      var n := |path|;
      var path', f' := path[..n - 1], f[..n - 2];
      forall k | 0 <= k < |f'| ensures f'[k] == c.w[path'[k]][path'[k + 1]] {
        assert f'[k] == f[k] && path'[k] == path[k] && path'[k + 1] == path[k + 1];
      }
      LegsTime(c, path', f');
      assert f[..|f| - 1] == f';
    }
  }

  /** A consistent state's clock is the elapsed time of its picks. */
  lemma PartialElapsed(c: Colony, s: AntState)
    requires Sized(c) && Partial(c, s)
    ensures s.time == Elapsed(c, s.picks)
  {
    PathInRange(c, s.path, s.picks);
    LegsTime(c, s.path, s.flightTimes);
  }

  /** Later picks that start with prefix + [j] have prefix before position |prefix| and j at it. */
  lemma ExtendsBy(picks: seq<nat>, prefix: seq<nat>, j: nat, next: seq<nat>)
    requires next == prefix + [j] && |next| <= |picks| && picks[..|next|] == next
    ensures |prefix| < |picks| && picks[..|prefix|] == prefix && picks[|prefix|] == j
  {
    assert picks[..|prefix|] == next[..|prefix|];
    assert picks[|prefix|] == next[|prefix|];
  }

  /**
   * The candidate step taken after the picks in `prefix` with the draw at
   * `at` is ChosenAt for any later picks that extend prefix with it.
   */
  lemma {:induction false} StepChosen(c: Colony, desire: (real, real) -> real, draws: nat -> real, at: nat,
                                      picks: seq<nat>, prefix: seq<nat>, j: nat, next: seq<nat>,
                                      visited: seq<nat>, time: real, cur: nat)
    requires Valid(c) && CostsPositive(c) && PositiveDesire(desire) && DrawsInRange(draws)
    requires ObjectIndices(c, picks) && ObjectIndices(c, prefix)
    requires next == prefix + [j] && |next| <= |picks| && picks[..|next|] == next
    requires visited == [0] + prefix && time == Elapsed(c, prefix) && cur == visited[|visited| - 1] && cur < |c.G|
    requires GetCandidate(c, desire, visited, time, cur, draws(at)) == Some(j)
    ensures ChosenAt(c, desire, draws, picks, |prefix|, at)
  {
    ExtendsBy(picks, prefix, j, next);
  }

  /** ChosenAt at position e and Drawn from the position after it give Drawn from e. */
  lemma DrawnStep(c: Colony, desire: (real, real) -> real, draws: nat -> real, base: nat, picks: seq<nat>, e: nat,
                  next: nat, at: nat)
    requires Valid(c) && CostsPositive(c) && PositiveDesire(desire) && DrawsInRange(draws)
    requires ObjectIndices(c, picks) && e < |picks| && next == e + 1 && at == DrawAt(base, e)
    requires ChosenAt(c, desire, draws, picks, e, at) && Drawn(c, desire, draws, base, picks, next)
    ensures Drawn(c, desire, draws, base, picks, e)
  {
    forall k | e <= k < |picks| ensures ChosenAt(c, desire, draws, picks, k, DrawAt(base, k)) {
      if k != e {
        assert next <= k;
      }
    }
  }

  /**
   * One candidate step in front of picks that are Drawn from the position
   * after it: the picks are Drawn from the step's own position.
   */
  lemma DrawnAdvance(c: Colony, desire: (real, real) -> real, draws: nat -> real, s: AntState, j: nat,
                     base: nat, picks: seq<nat>)
    requires Valid(c) && CostsPositive(c) && PositiveDesire(desire) && DrawsInRange(draws)
    requires Partial(c, s) && s.cursor == base + |s.picks|
    requires GetCandidate(c, desire, s.path, s.time, s.cur, draws(s.cursor)) == Some(j)
    requires ObjectIndices(c, picks) && |s.picks| + 1 <= |picks| && picks[..|s.picks| + 1] == s.picks + [j]
    requires Drawn(c, desire, draws, base, picks, |s.picks| + 1)
    ensures Drawn(c, desire, draws, base, picks, |s.picks|)
  {
    PartialElapsed(c, s);
    StepChosen(c, desire, draws, s.cursor, picks, s.picks, j, s.picks + [j], s.path, s.time, s.cur);
    DrawnStep(c, desire, draws, base, picks, |s.picks|, |s.picks| + 1, s.cursor);
  }

  /**
   * Every pick Extend adds is the candidate step's choice for the draw at
   * its position: one draw per pick, in order.
   */
  lemma {:induction false} ExtendDrawn(c: Colony, desire: (real, real) -> real, draws: nat -> real, s: AntState, base: nat)
    requires Valid(c) && CostsPositive(c) && PositiveDesire(desire) && DrawsInRange(draws)
    requires OnPath(c, s) && Partial(c, s) && s.cursor == base + |s.picks|
    ensures Partial(c, Extend(c, desire, draws, s))
    ensures Drawn(c, desire, draws, base, Extend(c, desire, draws, s).picks, |s.picks|)
    decreases Unvisited(c, s.path)
  {
    ExtendPartial(c, desire, draws, s);
    match GetCandidate(c, desire, s.path, s.time, s.cur, draws(s.cursor))
    case None =>
    case Some(j) =>
      AdvancePartial(c, s, j);
      var next := Advance(c, s, j);
      ExtendPartial(c, desire, draws, next);
      ExtendDrawn(c, desire, draws, next, base);
      DrawnAdvance(c, desire, draws, s, j, base, Extend(c, desire, draws, next).picks);
  }

  /** Closing the tour: the leg from the current waypoint to B. */
  function Close(c: Colony, s: AntState): Tour
    requires Sized(c) && s.cur < |c.G|
  {
    var B := |c.G| - 1;
    var leg := c.w[s.cur][B];
    Tour(s.path + [B], s.picks, s.time + leg, s.distances + [Distance(c, leg)], s.flightTimes + [leg])
  }

  lemma {:induction false} ClosePartial(c: Colony, s: AntState)
    requires Sized(c) && Partial(c, s)
    ensures Closed(c, Close(c, s))
  {
    var B := |c.G| - 1;
    assert Pheromones.InRange(s.path, |c.G|) by {
      forall e | 0 <= e < |s.path| ensures s.path[e] < |c.G| {
        if e > 0 { assert s.path[e] == s.picks[e - 1]; }
      }
    }
    var t := Close(c, s);
    LegsAppend(c, s.path, s.distances, s.flightTimes, B, t.path, t.distances, t.flightTimes);
    SumAppend(s.flightTimes, c.w[s.cur][B]);
    if |s.picks| == 0 {
      assert s.flightTimes == [];
    }
  }

  /** An ant that closes where nothing qualifies leaves a closed tour that was stuck before B. */
  lemma {:induction false} CloseStuck(c: Colony, s: AntState)
    requires Sized(c) && Partial(c, s) && s.cur < |c.G| && NoneQualifies(c, s.path, s.time, s.cur)
    ensures Closed(c, Close(c, s)) && Stuck(c, Close(c, s))
  {
    ClosePartial(c, s);
    var t := Close(c, s);
    var B := |c.G| - 1;
    assert t.path[..|t.path| - 1] == s.path;
    assert t.time - c.w[s.cur][B] == s.time;
  }

  /** A fresh ant at A satisfies the invariant and stands on its path. */
  lemma StartPartial(c: Colony, cursor: nat)
    requires Sized(c) && |c.G| > 0
    ensures OnPath(c, Start(cursor)) && Partial(c, Start(cursor))
  {
    assert Start(cursor).path == [0] + [];
  }

  /**
   * One ant, starting at A with the draw at `cursor`: its closed tour, which
   * it closed only when nothing qualified any more, and the position of the
   * next unused draw.
   */
  function RunAnt(c: Colony, desire: (real, real) -> real, draws: nat -> real, cursor: nat): (r: (Tour, nat))
    requires Valid(c) && CostsPositive(c) && PositiveDesire(desire) && DrawsInRange(draws)
    ensures Closed(c, r.0) && Stuck(c, r.0)
    ensures r.1 == cursor + |r.0.picks|
    ensures Drawn(c, desire, draws, cursor, r.0.picks, 0)
  {
    StartPartial(c, cursor);
    var s := Extend(c, desire, draws, Start(cursor));
    ExtendPartial(c, desire, draws, Start(cursor));
    ExtendDrawn(c, desire, draws, Start(cursor), cursor);
    CloseStuck(c, s);
    (Close(c, s), s.cursor)
  }
}
