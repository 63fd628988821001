/**
 * The greedy baseline: from the current point, repeatedly fly to the
 * feasible remaining object with the smallest travel-plus-dwell time
 * (earliest in the remaining list on ties), stop when none is feasible, and
 * close to B if B still fits; otherwise discard the whole route.
 *
 * Travel time is a given function of two points (the source computes the
 * unrounded Euclidean distance divided by the speed).
 */
module GreedyAlgorithm {
  import opened Wrappers
  import opened Models

  /** The (route, inspected set, total time) triple the solver computes. */
  datatype Outcome = Outcome(route: seq<Point>, inspected: set<Point>, totalTime: real)

  /** The all-or-nothing failure: no route, nothing inspected, time 0. */
  function Empty(): Outcome
  {
    Outcome([], {}, 0.0)
  }

  /**
   * The loop state: route so far, inspected set, elapsed time, current
   * point, the remaining objects (as indices into J, in list order) and the
   * objects picked so far (as indices into J, in order).
   */
  datatype State = State(route: seq<Point>, S: set<Point>, tTotal: real, current: Point, objects: seq<nat>, picks: seq<nat>)

  /** Before the loop: at A, nothing inspected, every object remaining. */
  function Initial(task: Task): State
  {
    State([task.A], {}, 0.0, task.A, seq(|task.J|, i requires 0 <= i < |task.J| => i), [])
  }

  /**
   * Object o may be visited next: its location is neither inspected nor the
   * current point, and flying to it, inspecting it and flying on to B fits
   * in the budget.
   */
  predicate Feasible(task: Task, travel: (Point, Point) -> real, S: set<Point>, tTotal: real, current: Point, o: Obj)
  {
    Coord(o) !in S && Coord(o) != current
    && tTotal + travel(current, Coord(o)) + o.delay + travel(Coord(o), task.B) <= task.T
  }

  /** The quantity the greedy choice minimises: travel time to o plus its dwell time. */
  function Cost(travel: (Point, Point) -> real, current: Point, o: Obj): real
  {
    travel(current, Coord(o)) + o.delay
  }

  /** The remaining-list entries are valid indices into J. */
  predicate Indices(task: Task, xs: seq<nat>)
  {
    forall e :: 0 <= e < |xs| ==> xs[e] < |task.J|
  }

  /** The object at position q of the remaining list. */
  function At(task: Task, st: State, q: nat): Obj
    requires Indices(task, st.objects) && q < |st.objects|
  {
    task.J[st.objects[q]]
  }

  /** The remaining object at position q is feasible in state st. */
  predicate FeasibleAt(task: Task, travel: (Point, Point) -> real, st: State, q: nat)
    requires Indices(task, st.objects) && q < |st.objects|
  {
    Feasible(task, travel, st.S, st.tTotal, st.current, At(task, st, q))
  }

  /** No remaining object before position `upto` is feasible. */
  predicate NoneFeasible(task: Task, travel: (Point, Point) -> real, st: State, upto: nat)
    requires Indices(task, st.objects) && upto <= |st.objects|
  {
    forall p :: 0 <= p < upto ==> !FeasibleAt(task, travel, st, p)
  }

  /**
   * Position q is the greedy choice among the first `upto` remaining
   * objects: feasible, of least cost among the feasible ones, and strictly
   * cheaper than every feasible one before it.
   */
  predicate Chosen(task: Task, travel: (Point, Point) -> real, st: State, q: nat, upto: nat)
    requires Indices(task, st.objects) && upto <= |st.objects|
  {
    q < upto && FeasibleAt(task, travel, st, q)
    && (forall p :: 0 <= p < upto && FeasibleAt(task, travel, st, p) ==>
          Cost(travel, st.current, At(task, st, q)) <= Cost(travel, st.current, At(task, st, p)))
    && (forall p :: 0 <= p < q && FeasibleAt(task, travel, st, p) ==>
          Cost(travel, st.current, At(task, st, q)) < Cost(travel, st.current, At(task, st, p)))
  }

  /**
   * The scan over the remaining list from position i on, where `found` is
   * the choice among the positions before i. A later object replaces the
   * choice only when it is feasible and strictly cheaper.
   */
  function ScanFrom(task: Task, travel: (Point, Point) -> real, st: State, i: nat, found: Option<nat>): (r: Option<nat>)
    requires Indices(task, st.objects) && i <= |st.objects|
    requires found.None? ==> NoneFeasible(task, travel, st, i)
    requires found.Some? ==> Chosen(task, travel, st, found.value, i)
    ensures r.None? ==> NoneFeasible(task, travel, st, |st.objects|)
    ensures r.Some? ==> Chosen(task, travel, st, r.value, |st.objects|)
    decreases |st.objects| - i
  {
    if i == |st.objects| then found
    else if FeasibleAt(task, travel, st, i)
         && (found.None? || Cost(travel, st.current, At(task, st, i)) < Cost(travel, st.current, At(task, st, found.value)))
    then ScanFrom(task, travel, st, i + 1, Some(i))
    else ScanFrom(task, travel, st, i + 1, found)
  }

  /**
   * One greedy choice: None exactly when no remaining object is feasible,
   * otherwise the position of the feasible object of least travel-plus-dwell
   * time, the earliest one on ties.
   */
  function Pick(task: Task, travel: (Point, Point) -> real, st: State): (r: Option<nat>)
    requires Indices(task, st.objects)
    ensures r.None? <==> NoneFeasible(task, travel, st, |st.objects|)
    ensures r.Some? ==> Chosen(task, travel, st, r.value, |st.objects|)
  {
    ScanFrom(task, travel, st, 0, None)
  }

  /** The locations of the picked objects, in order. */
  function Coords(task: Task, picks: seq<nat>): (r: seq<Point>)
    requires Indices(task, picks)
    ensures |r| == |picks|
    ensures forall e :: 0 <= e < |picks| ==> r[e] == Coord(task.J[picks[e]])
  {
    seq(|picks|, e requires 0 <= e < |picks| => Coord(task.J[picks[e]]))
  }

  predicate Increasing(xs: seq<nat>)
  {
    forall a, b :: 0 <= a < b < |xs| ==> xs[a] < xs[b]
  }

  /** The locations of the picked objects, as a set. */
  function Visited(task: Task, ps: seq<nat>): set<Point>
    requires Indices(task, ps)
  {
    set e | 0 <= e < |ps| :: Coord(task.J[ps[e]])
  }

  /** Where the drone stands after the picks: A, or the location of the last pick. */
  function Here(task: Task, ps: seq<nat>): Point
    requires Indices(task, ps)
  {
    if |ps| == 0 then task.A else Coord(task.J[ps[|ps| - 1]])
  }

  /** The time spent flying from A through the picks in order and inspecting each of them. */
  function Elapsed(task: Task, travel: (Point, Point) -> real, ps: seq<nat>): real
    requires Indices(task, ps)
  {
    if |ps| == 0 then 0.0
    else
      var prev := ps[..|ps| - 1];
      var o := task.J[ps[|ps| - 1]];
      Elapsed(task, travel, prev) + travel(Here(task, prev), Coord(o)) + o.delay
  }

  /**
   * Object idx is the greedy choice after the picks ps, stated over J
   * rather than over the remaining list: the loop is still running (the
   * elapsed time is below T), idx is an unpicked object that is feasible
   * from where the drone stands, no feasible unpicked object is cheaper, and
   * every equally cheap feasible one comes later in J.
   */
  predicate GreedyStep(task: Task, travel: (Point, Point) -> real, ps: seq<nat>, idx: nat)
  {
    Indices(task, ps) &&
    var here, t, S := Here(task, ps), Elapsed(task, travel, ps), Visited(task, ps);
    t < task.T && idx < |task.J| && idx !in ps && Feasible(task, travel, S, t, here, task.J[idx])
    && forall i :: 0 <= i < |task.J| && i !in ps && Feasible(task, travel, S, t, here, task.J[i]) ==>
         Cost(travel, here, task.J[idx]) <= Cost(travel, here, task.J[i])
         && (i < idx ==> Cost(travel, here, task.J[idx]) < Cost(travel, here, task.J[i]))
  }

  /** After the picks ps the loop ends: the budget is used up or no unpicked object is feasible. */
  predicate GreedyStops(task: Task, travel: (Point, Point) -> real, ps: seq<nat>)
  {
    Indices(task, ps) &&
    var here, t, S := Here(task, ps), Elapsed(task, travel, ps), Visited(task, ps);
    t >= task.T || forall i :: 0 <= i < |task.J| && i !in ps ==> !Feasible(task, travel, S, t, here, task.J[i])
  }

  /**
   * A complete greedy run: every pick is the greedy choice after the picks
   * before it, and the loop ends after the last one.
   */
  predicate GreedyRun(task: Task, travel: (Point, Point) -> real, ps: seq<nat>)
  {
    Indices(task, ps)
    && (forall e :: 0 <= e < |ps| ==> GreedyStep(task, travel, ps[..e], ps[e]))
    && GreedyStops(task, travel, ps)
  }

  /**
   * The loop invariant: the remaining list is J minus the picks, in input
   * order; the route is A followed by the picked locations; the inspected
   * set holds exactly those locations, one per pick; and after a pick the
   * current point is the last pick, from which B is still reachable within
   * the budget.
   */
  predicate Inv(task: Task, travel: (Point, Point) -> real, st: State)
  {
    ListsInv(task, st) && RouteInv(task, travel, st)
  }

  /** The remaining list is J minus the picks, in input order; no object is picked twice. */
  predicate ListsInv(task: Task, st: State)
  {
    Indices(task, st.objects) && Indices(task, st.picks)
    && Increasing(st.objects) && Distinct(st.picks)
    && (forall e :: 0 <= e < |st.picks| ==> st.picks[e] !in st.objects)
    && |st.objects| + |st.picks| == |task.J|
    && (forall i :: 0 <= i < |task.J| ==> i in st.objects || i in st.picks)
  }

  /** Route, inspected set, current point and elapsed time agree with the picks. */
  predicate RouteInv(task: Task, travel: (Point, Point) -> real, st: State)
    requires Indices(task, st.picks)
  {
    st.route == [task.A] + Coords(task, st.picks)
    && st.S == Visited(task, st.picks) && |st.S| == |st.picks|
    && st.current == Here(task, st.picks)
    && st.tTotal == Elapsed(task, travel, st.picks)
    && (|st.picks| > 0 ==> st.tTotal + travel(st.current, task.B) <= task.T)
  }

  /** Flying to the chosen remaining object at position q and inspecting it. */
  function Advance(task: Task, travel: (Point, Point) -> real, st: State, q: nat): State
    requires Indices(task, st.objects) && q < |st.objects|
  {
    var idx := st.objects[q];
    var o := task.J[idx];
    State(st.route + [Coord(o)], st.S + {Coord(o)}, st.tTotal + travel(st.current, Coord(o)) + o.delay,
          Coord(o), st.objects[..q] + st.objects[q + 1..], st.picks + [idx])
  }

  /** Removing position q from an increasing list of indices keeps it increasing and drops exactly that index. */
  lemma {:induction false} RemoveAt(task: Task, xs: seq<nat>, q: nat)
    requires Indices(task, xs) && Increasing(xs) && q < |xs|
    ensures Indices(task, xs[..q] + xs[q + 1..]) && Increasing(xs[..q] + xs[q + 1..])
    ensures forall x :: x in xs[..q] + xs[q + 1..] <==> x in xs && x != xs[q]
  {
    var r := xs[..q] + xs[q + 1..];
    forall e | 0 <= e < |r| ensures r[e] == (if e < q then xs[e] else xs[e + 1]) {
    }
    forall x | x in xs && x != xs[q] ensures x in r {
      var e :| 0 <= e < |xs| && xs[e] == x;
      if e < q { assert r[e] == x; } else { assert r[e - 1] == x; }
    }
  }

  /** The inspected set grows by the new location. */
  lemma {:induction false} CoordSetAppend(task: Task, picks: seq<nat>, idx: nat)
    requires Indices(task, picks) && idx < |task.J|
    ensures Visited(task, picks + [idx]) == Visited(task, picks) + {Coord(task.J[idx])}
  {
    var ps := picks + [idx];
    var old_ := set e | 0 <= e < |picks| :: Coord(task.J[picks[e]]);
    var new_ := set e | 0 <= e < |ps| :: Coord(task.J[ps[e]]);
    forall x | x in new_ ensures x in old_ + {Coord(task.J[idx])} {
      var e :| 0 <= e < |ps| && x == Coord(task.J[ps[e]]);
      if e < |picks| { assert ps[e] == picks[e]; }
    }
    forall x | x in old_ + {Coord(task.J[idx])} ensures x in new_ {
      if x == Coord(task.J[idx]) {
        assert ps[|picks|] == idx;
      } else {
        var e :| 0 <= e < |picks| && x == Coord(task.J[picks[e]]);
        assert ps[e] == picks[e];
      }
    }
  }

  lemma {:induction false} AdvanceLists(task: Task, travel: (Point, Point) -> real, st: State, q: nat)
    requires ListsInv(task, st) && q < |st.objects|
    ensures ListsInv(task, Advance(task, travel, st, q))
    ensures |Advance(task, travel, st, q).objects| == |st.objects| - 1
  {
    var r := Advance(task, travel, st, q);
    var idx := st.objects[q];
    RemoveAt(task, st.objects, q);
    assert idx !in st.picks;
    assert Distinct(r.picks) by {
      forall a, b | 0 <= a < b < |r.picks| ensures r.picks[a] != r.picks[b] {
        assert r.picks[a] == st.picks[a];
        if b < |st.picks| { assert r.picks[b] == st.picks[b]; }
      }
    }
    assert forall e :: 0 <= e < |r.picks| ==> r.picks[e] !in r.objects by {
      forall e | 0 <= e < |r.picks| ensures r.picks[e] !in r.objects {
        if e < |st.picks| { assert r.picks[e] == st.picks[e]; }
      }
    }
    assert forall i :: 0 <= i < |task.J| ==> i in r.objects || i in r.picks by {
      forall i | 0 <= i < |task.J| ensures i in r.objects || i in r.picks {
        if i in st.picks {
          var e :| 0 <= e < |st.picks| && st.picks[e] == i;
          assert r.picks[e] == i;
        } else if i == idx {
          assert r.picks[|st.picks|] == i;
        }
      }
    }
  }

  lemma {:induction false} AdvanceRoute(task: Task, travel: (Point, Point) -> real, st: State, q: nat)
    requires Indices(task, st.objects) && Indices(task, st.picks) && RouteInv(task, travel, st)
    requires q < |st.objects| && FeasibleAt(task, travel, st, q)
    ensures Indices(task, Advance(task, travel, st, q).picks)
    ensures RouteInv(task, travel, Advance(task, travel, st, q))
  {
    var r := Advance(task, travel, st, q);
    var idx := st.objects[q];
    PicksAppend(task, travel, st.picks, idx, r.picks);
    assert Coord(task.J[idx]) !in st.S;
  }

  /** One more pick extends the route, the inspected set, the current point and the elapsed time accordingly. */
  lemma {:induction false} PicksAppend(task: Task, travel: (Point, Point) -> real, ps: seq<nat>, idx: nat, ps': seq<nat>)
    requires Indices(task, ps) && idx < |task.J| && ps' == ps + [idx]
    ensures Indices(task, ps')
    ensures Coords(task, ps') == Coords(task, ps) + [Coord(task.J[idx])]
    ensures Visited(task, ps') == Visited(task, ps) + {Coord(task.J[idx])}
    ensures Here(task, ps') == Coord(task.J[idx])
    ensures Elapsed(task, travel, ps') == Elapsed(task, travel, ps) + travel(Here(task, ps), Coord(task.J[idx])) + task.J[idx].delay
  {
    assert ps'[..|ps|] == ps;
    CoordSetAppend(task, ps, idx);
  }

  lemma {:induction false} AdvanceInv(task: Task, travel: (Point, Point) -> real, st: State, q: nat)
    requires Inv(task, travel, st) && q < |st.objects| && FeasibleAt(task, travel, st, q)
    ensures Inv(task, travel, Advance(task, travel, st, q))
    ensures |Advance(task, travel, st, q).objects| == |st.objects| - 1
  {
    AdvanceLists(task, travel, st, q);
    AdvanceRoute(task, travel, st, q);
  }

  /** The prefix facts of one more step of the loop carry over from the rest of the loop. */
  lemma {:induction false} LoopStep(st: State, next: State, r: State, idx: nat)
    requires next.picks == st.picks + [idx]
    requires |r.picks| >= |next.picks| && r.picks[..|next.picks|] == next.picks
    ensures |r.picks| >= |st.picks| && r.picks[..|st.picks|] == st.picks
  {
    assert r.picks[..|st.picks|] == r.picks[..|next.picks|][..|st.picks|];
  }

  /** The scan's choice is the greedy choice stated over J: remaining-list order is index order. */
  lemma {:induction false} ChosenStep(task: Task, travel: (Point, Point) -> real, st: State, q: nat)
    requires Inv(task, travel, st) && st.tTotal < task.T
    requires q < |st.objects| && Chosen(task, travel, st, q, |st.objects|)
    ensures GreedyStep(task, travel, st.picks, st.objects[q])
  {
    var idx := st.objects[q];
    assert idx in st.objects;
    forall i | 0 <= i < |task.J| && i !in st.picks
      && Feasible(task, travel, st.S, st.tTotal, st.current, task.J[i])
      ensures Cost(travel, st.current, task.J[idx]) <= Cost(travel, st.current, task.J[i])
      ensures i < idx ==> Cost(travel, st.current, task.J[idx]) < Cost(travel, st.current, task.J[i])
    {
      var p :| 0 <= p < |st.objects| && st.objects[p] == i;
      assert At(task, st, p) == task.J[i];
      assert FeasibleAt(task, travel, st, p);
      assert q < p ==> st.objects[q] < st.objects[p];
    }
  }

  /** Where the loop ends, the greedy run stops. */
  lemma {:induction false} StopsAtEnd(task: Task, travel: (Point, Point) -> real, st: State)
    requires Inv(task, travel, st)
    requires st.tTotal >= task.T || NoneFeasible(task, travel, st, |st.objects|)
    ensures GreedyStops(task, travel, st.picks)
  {
    if st.tTotal < task.T {
      forall i | 0 <= i < |task.J| && i !in st.picks
        ensures !Feasible(task, travel, st.S, st.tTotal, st.current, task.J[i])
      {
        var p :| 0 <= p < |st.objects| && st.objects[p] == i;
        assert At(task, st, p) == task.J[i];
        assert !FeasibleAt(task, travel, st, p);
      }
    }
  }

  /** The greedy steps after st's picks: the one taken now, then those of the rest of the loop. */
  lemma {:induction false} LoopTrace(task: Task, travel: (Point, Point) -> real, st: State, next: State, r: State, idx: nat)
    requires Indices(task, st.picks) && Indices(task, r.picks)
    requires next.picks == st.picks + [idx]
    requires |r.picks| >= |next.picks| && r.picks[..|next.picks|] == next.picks
    requires GreedyStep(task, travel, st.picks, idx)
    requires forall e :: |next.picks| <= e < |r.picks| ==> GreedyStep(task, travel, r.picks[..e], r.picks[e])
    ensures forall e :: |st.picks| <= e < |r.picks| ==> GreedyStep(task, travel, r.picks[..e], r.picks[e])
  {
    var k := |st.picks|;
    assert r.picks[..k] == r.picks[..|next.picks|][..k];
    assert r.picks[k] == next.picks[k];
  }

  /**
   * The greedy loop: while the elapsed time is below the budget and some
   * remaining object is feasible, take the greedy choice. Each iteration
   * removes one object from the remaining list, so the loop ends after at
   * most |J| picks; it ends with the elapsed time at the budget or with no
   * feasible object left, and earlier picks are never revised.
   */
  function Loop(task: Task, travel: (Point, Point) -> real, st: State): (r: State)
    requires Inv(task, travel, st)
    ensures Inv(task, travel, r)
    ensures r.tTotal >= task.T || NoneFeasible(task, travel, r, |r.objects|)
    ensures |r.picks| >= |st.picks| && r.picks[..|st.picks|] == st.picks
    decreases |st.objects|
  {
    if st.tTotal < task.T then
      match Pick(task, travel, st)
      case None => st
      case Some(q) =>
        AdvanceInv(task, travel, st, q);
        var next := Advance(task, travel, st, q);
        var r := Loop(task, travel, next);
        LoopStep(st, next, r, st.objects[q]);
        r
    else st
  }

  /**
   * Every pick the loop makes from st on is the greedy choice after the
   * picks before it, and the loop ends where the greedy run stops.
   */
  lemma {:induction false} LoopGreedy(task: Task, travel: (Point, Point) -> real, st: State)
    requires Inv(task, travel, st)
    ensures forall e :: |st.picks| <= e < |Loop(task, travel, st).picks| ==>
      GreedyStep(task, travel, Loop(task, travel, st).picks[..e], Loop(task, travel, st).picks[e])
    ensures GreedyStops(task, travel, Loop(task, travel, st).picks)
    decreases |st.objects|
  {
    var r := Loop(task, travel, st);
    if st.tTotal < task.T {
      match Pick(task, travel, st)
      case None =>
        StopsAtEnd(task, travel, st);
      case Some(q) =>
        AdvanceInv(task, travel, st, q);
        ChosenStep(task, travel, st, q);
        var next := Advance(task, travel, st, q);
        LoopGreedy(task, travel, next);
        assert r == Loop(task, travel, next);
        LoopTrace(task, travel, st, next, r, st.objects[q]);
    } else {
      StopsAtEnd(task, travel, st);
    }
  }

  /** The invariant holds before the loop. */
  lemma InitialInv(task: Task, travel: (Point, Point) -> real)
    ensures Inv(task, travel, Initial(task))
  {
    var st := Initial(task);
    assert Coords(task, []) == [];
    forall i | 0 <= i < |task.J| ensures i in st.objects {
      assert st.objects[i] == i;
    }
  }

  /** The objects the greedy loop picks, as indices into J, in visiting order. */
  function Picks(task: Task, travel: (Point, Point) -> real): (picks: seq<nat>)
    ensures Indices(task, picks) && Distinct(picks) && |picks| <= |task.J|
  {
    InitialInv(task, travel);
    Loop(task, travel, Initial(task)).picks
  }

  /** The loop's picks form a complete greedy run. */
  lemma PicksGreedy(task: Task, travel: (Point, Point) -> real)
    ensures GreedyRun(task, travel, Picks(task, travel))
  {
    InitialInv(task, travel);
    LoopGreedy(task, travel, Initial(task));
  }

  /** After the same picks there is only one greedy choice: equal costs are broken by position in J. */
  lemma {:induction false} StepUnique(task: Task, travel: (Point, Point) -> real, ps: seq<nat>, a: nat, b: nat)
    requires Indices(task, ps)
    requires GreedyStep(task, travel, ps, a) && GreedyStep(task, travel, ps, b)
    ensures a == b
  {
    var here, t, S := Here(task, ps), Elapsed(task, travel, ps), Visited(task, ps);
    assert Feasible(task, travel, S, t, here, task.J[a]) && Feasible(task, travel, S, t, here, task.J[b]);
  }

  /** A run that can still take a greedy step has not stopped. */
  lemma {:induction false} StepBlocksStop(task: Task, travel: (Point, Point) -> real, ps: seq<nat>, idx: nat)
    requires Indices(task, ps) && GreedyStep(task, travel, ps, idx)
    ensures !GreedyStops(task, travel, ps)
  {
    var here, t, S := Here(task, ps), Elapsed(task, travel, ps), Visited(task, ps);
    assert idx < |task.J| && idx !in ps && Feasible(task, travel, S, t, here, task.J[idx]);
  }

  /** Two runs that agree on their first k picks and both take a greedy step there agree on k+1. */
  lemma {:induction false} NextAgrees(task: Task, travel: (Point, Point) -> real, ps: seq<nat>, qs: seq<nat>, k: nat)
    requires k < |ps| && k < |qs| && Indices(task, ps[..k]) && ps[..k] == qs[..k]
    requires GreedyStep(task, travel, ps[..k], ps[k]) && GreedyStep(task, travel, qs[..k], qs[k])
    ensures ps[..k + 1] == qs[..k + 1]
  {
    StepUnique(task, travel, ps[..k], ps[k], qs[k]);
    assert ps[..k + 1] == ps[..k] + [ps[k]] && qs[..k + 1] == qs[..k] + [qs[k]];
  }

  /** Two sequences of greedy steps from the same start agree on their common length. */
  lemma {:induction false} CommonPrefix(task: Task, travel: (Point, Point) -> real, ps: seq<nat>, qs: seq<nat>, n: nat)
    requires Indices(task, ps) && Indices(task, qs) && n <= |ps| && n <= |qs|
    requires forall e :: 0 <= e < |ps| ==> GreedyStep(task, travel, ps[..e], ps[e])
    requires forall e :: 0 <= e < |qs| ==> GreedyStep(task, travel, qs[..e], qs[e])
    ensures ps[..n] == qs[..n]
  {
    var k := 0;
    while k < n
      invariant 0 <= k <= n && ps[..k] == qs[..k]
    {
      NextAgrees(task, travel, ps, qs, k);
      k := k + 1;
    }
  }

  /** Two complete greedy runs of the same task are the same pick sequence. */
  lemma {:induction false} RunUnique(task: Task, travel: (Point, Point) -> real, ps: seq<nat>, qs: seq<nat>)
    requires GreedyRun(task, travel, ps) && GreedyRun(task, travel, qs)
    ensures ps == qs
  {
    var n := if |ps| < |qs| then |ps| else |qs|;
    CommonPrefix(task, travel, ps, qs, n);
    if |ps| < |qs| {
      assert ps == ps[..n];
      assert GreedyStep(task, travel, qs[..n], qs[n]);
      StepBlocksStop(task, travel, ps, qs[n]);
    } else if |qs| < |ps| {
      assert qs == qs[..n];
      assert GreedyStep(task, travel, ps[..n], ps[n]);
      StepBlocksStop(task, travel, qs, ps[n]);
    } else {
      assert ps == ps[..n] && qs == qs[..n];
    }
  }

  /** The loop's picks are exactly the complete greedy run of the task: it exists and it is unique. */
  lemma PicksAreTheGreedyRun(task: Task, travel: (Point, Point) -> real, ps: seq<nat>)
    ensures GreedyRun(task, travel, ps) <==> ps == Picks(task, travel)
  {
    PicksGreedy(task, travel);
    if GreedyRun(task, travel, ps) {
      RunUnique(task, travel, ps, Picks(task, travel));
    }
  }

  /** Some object is feasible from A at time 0, and the loop is entered at all (0 < T). */
  predicate FirstPickExists(task: Task, travel: (Point, Point) -> real)
  {
    0.0 < task.T && exists i :: 0 <= i < |task.J| && Feasible(task, travel, {}, 0.0, task.A, task.J[i])
  }

  /**
   * The loop picks at least one object exactly when the loop is entered
   * (0 < T) and some object is feasible from A at time 0.
   */
  lemma FirstPickIff(task: Task, travel: (Point, Point) -> real)
    ensures |Picks(task, travel)| > 0 <==> FirstPickExists(task, travel)
  {
    InitialInv(task, travel);
    var st := Initial(task);
    var r := Loop(task, travel, st);
    if FirstPickExists(task, travel) {
      var i :| 0 <= i < |task.J| && Feasible(task, travel, {}, 0.0, task.A, task.J[i]);
      assert At(task, st, i) == task.J[i];
      assert FeasibleAt(task, travel, st, i);
      var q := Pick(task, travel, st).value;
      AdvanceInv(task, travel, st, q);
      var next := Advance(task, travel, st, q);
      assert r == Loop(task, travel, next);
      assert |next.picks| == 1;
    } else {
      if 0.0 < task.T {
        forall p | 0 <= p < |st.objects| ensures !FeasibleAt(task, travel, st, p) {
          assert At(task, st, p) == task.J[p];
        }
      }
      assert r == st;
    }
  }

  /**
   * The result closes the picks ps: the route is A, the picked locations in
   * order, then B; the inspected set holds exactly the picked locations, one
   * per pick, all of them object locations; the time is the flights and
   * dwell times along the picks plus the last flight to B, within the
   * budget.
   */
  predicate Closes(task: Task, travel: (Point, Point) -> real, ps: seq<nat>, r: Outcome)
    requires Indices(task, ps)
  {
    r.route == [task.A] + Coords(task, ps) + [task.B]
    && r.inspected == Visited(task, ps) && |r.inspected| == |ps|
    && r.inspected <= ObjectLocations(task)
    && r.totalTime == Elapsed(task, travel, ps) + travel(Here(task, ps), task.B) <= task.T
  }

  /**
   * SolveRoute: the route is empty exactly when nothing could be picked and
   * A -> B alone exceeds the budget; the picks then form the empty greedy
   * run. Otherwise the result closes a complete greedy run, which is the
   * loop's picks (PicksAreTheGreedyRun).
   */
  function SolveRoute(task: Task, travel: (Point, Point) -> real): (r: Outcome)
    ensures r.route == [] <==> !FirstPickExists(task, travel) && travel(task.A, task.B) > task.T
    ensures r.route == [] ==> r == Empty() && GreedyRun(task, travel, [])
    ensures r.route != [] ==> exists ps :: GreedyRun(task, travel, ps) && Closes(task, travel, ps, r)
  {
    InitialInv(task, travel);
    FirstPickIff(task, travel);
    PicksGreedy(task, travel);
    var st := Loop(task, travel, Initial(task));
    assert st.picks == Picks(task, travel);
    var r := Finish(task, travel, st);
    CloseFacts(task, travel, st, r);
    r
  }

  /** The end of the solver: fly back to B when that fits the budget, else the empty result. */
  function Finish(task: Task, travel: (Point, Point) -> real, st: State): Outcome
  {
    var tToB := travel(st.current, task.B);
    if st.tTotal + tToB <= task.T then Outcome(st.route + [task.B], st.S, st.tTotal + tToB) else Empty()
  }

  /**
   * Closing the state the loop leaves: the route is empty
   * exactly when nothing was picked and A -> B alone exceeds the budget;
   * otherwise the result closes the picks.
   */
  lemma CloseFacts(task: Task, travel: (Point, Point) -> real, st: State, r: Outcome)
    requires Inv(task, travel, st)
    requires |st.picks| > 0 <==> FirstPickExists(task, travel)
    requires r == Finish(task, travel, st)
    ensures r.route == [] <==> !FirstPickExists(task, travel) && travel(task.A, task.B) > task.T
    ensures r.route == [] ==> r == Empty() && st.picks == []
    ensures r.route != [] ==> Closes(task, travel, st.picks, r)
  {
  }

  /** With no objects the result is [A, B] when the direct flight fits the budget, and the empty result otherwise. */
  lemma NoObjects(task: Task, travel: (Point, Point) -> real)
    requires |task.J| == 0
    ensures travel(task.A, task.B) <= task.T ==>
      SolveRoute(task, travel) == Outcome([task.A, task.B], {}, travel(task.A, task.B))
    ensures travel(task.A, task.B) > task.T ==> SolveRoute(task, travel) == Empty()
  {
    InitialInv(task, travel);
    var st := Loop(task, travel, Initial(task));
    assert |st.picks| == 0;
    assert Coords(task, st.picks) == [];
  }
}
