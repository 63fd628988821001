# UAVObserver route planners, modelled in Dafny

UAVObserver plans the route of an inspection drone. A task gives a start point
A, an end point B, a list J of inspection objects (each a point with a dwell
time), a speed v and a time budget T. A solver returns the route it flies
(A, some of the objects in visiting order, B), the set of inspected object
locations, the total time, and for the ant solver the length and flight time
of every leg.

This project models the two solvers:

- **The ant-colony solver** (`AntAlgorithm`), in five modules:
  - `AntColony`: the instance, that is the parameters with their defaults, the waypoint list
    `[A, J..., B]`, the travel-time matrix and the pheromone matrix. It also holds the candidate
    step of an ant.
  - `Roulette`: the normalisation of desirabilities into probabilities and the cumulative-sum
    selection with one uniform draw.
  - `Pheromones`: the initial matrix, per-ant reinforcement of the edges of a tour, and
    per-iteration evaporation.
  - `AntTour`: how one ant builds and closes its tour.
  - `AntAlgorithm`: the solve loop, with the running best, the stagnation counter, the iteration
    cap and the conversion to the result. It also holds `ChangeMaxIteration`.
- **The greedy baseline** (`GreedyAlgorithm`): from the current point it repeatedly takes the
  feasible remaining object with the least travel-plus-dwell time. It then closes the route to B,
  or discards everything when B does not fit.

`Models` mirrors the task and result records, and `Wrappers` supplies `Option`.

Modelling choices:

- Ant waypoints are indices `0 .. k-1` into the waypoint list, with A = 0 and B = k-1. The
  source's waypoint objects define no equality, so membership and inequality compare identities,
  and an index comparison is exact even when two waypoints share coordinates.
- The rounded travel-time matrix `w` of the ant solver is a parameter of the instance. The
  greedy solver's travel time is a parameter `travel(p, q)`.
- The random generator is a stream `draws: nat -> real` of values in [0, 1), with a cursor
  threaded through the solve. Each candidate step that has a candidate consumes exactly one
  draw.
- The desirability `tau^a * (1/cost)^b` is a parameter `desire(tau, cost)`. It is only required
  to be positive for positive arguments.
- The infinite initial best time is `None` in an `Option<real>`.
- The pheromone matrix belongs to the instance. `AntAlgorithm.SolveRoute` returns the result
  together with the instance as it is afterwards, so a second solve continues from the evolved
  trails.

Source behaviour worth knowing, all of it kept in the model:

- **Trails persist across solves.** `__init__` fills the pheromone matrix with t0
  (`ant_algorithm.py:63`), and `SolveRoute` only reinforces and evaporates it
  (`ant_algorithm.py:122-127`), never resets it. A second `SolveRoute` on the same object
  therefore starts from the matrix the first one left. `AntAlgorithm.SolveNoAnts` shows the
  effect: with no ants, a solve of K iterations leaves every trail multiplied by (1 - p)^K.
- **Stagnation is counted per ant.** After every ant, the counter is compared with the best as it
  was before that ant's update. It grows when the ant's object list equals the best's as an
  ordered list, and resets to 0 otherwise. The cap is checked only at the top of an outer
  iteration (`ant_algorithm.py:78, 110-113`).
- **An empty tour can be over budget.** When no object fits, the ant still closes to B, so its
  time is `w[A][B]`, which may exceed T (`ant_algorithm.py:104`). Such a tour can become the
  best.
- **No ant, no route.** If no ant runs (`max_iter <= 0`, `m <= 0` or `stagnation <= 0`), the
  result is the route `[A]` with infinite time and no legs (`ant_algorithm.py:69-73, 132`).

Where the model differs from the code:

- **The greedy result is a triple.** `GreedyAlgorithm.SolveRoute` builds its result record with
  three arguments (`greedy_algorithm.py:51`), but the record's constructor takes five
  (`models/solution.py:5`). As written, that call fails. The model returns the computed
  (route, inspected set, total time) triple.
- **The roulette wheel cannot fall through.** In floating point, the cumulative probabilities
  can stay below a draw close to 1. The candidate step then returns nothing, and the ant's tour
  ends early (`ant_algorithm.py:168-170`). With exact reals the probabilities sum to 1 and a draw
  is below 1, so a candidate is always chosen; `Roulette.SelectTotal` proves this.

## Model

| member | source | states |
|---|---|---|
| AntColony.Waypoints | UAVObserver/algorithms/ant_algorithm.py:57-61 | the waypoint list has \|J\|+2 entries: A with delay 0 first, B with delay 0 last, and object i of J with its dwell time at position i+1 |
| AntColony.Init | UAVObserver/algorithms/ant_algorithm.py:42-63 | the constructor takes the given parameters or the defaults, builds the waypoint list, keeps the travel-time matrix, and sets every trail of a square matrix to t0; the trails are positive when t0 is |
| AntColony.CandidatesFrom | UAVObserver/algorithms/ant_algorithm.py:152-155 | the candidates from index j on are exactly the qualifying indices from j on (sound and complete), in increasing order |
| AntColony.Candidates | UAVObserver/algorithms/ant_algorithm.py:150-155 | every candidate is an unvisited waypoint other than B that leaves time to reach B, every such waypoint is a candidate, and the candidates are in increasing waypoint order, as the scan over G lists them |
| AntColony.GetCandidate | UAVObserver/algorithms/ant_algorithm.py:144-170 | the candidate step yields nothing exactly when no waypoint qualifies; otherwise it yields a qualifying waypoint (never B, never visited, within budget including the flight on to B), namely the first candidate in waypoint order whose running sum of desirabilities reaches the draw times their total, the cumulative-probability rule of lines 166-170 |
| Roulette.Normalise | UAVObserver/algorithms/ant_algorithm.py:158-164 | the probabilities are positive, sum to 1, and each is its weight divided by the sum of the weights |
| Roulette.SelectFrom | UAVObserver/algorithms/ant_algorithm.py:167-170 | continuing the scan from position j with the prefix sum so far, the result is the first later position whose prefix sum reaches the draw, or nothing if none does |
| Roulette.Select | UAVObserver/algorithms/ant_algorithm.py:166-170 | the selected position is the first one whose cumulative probability reaches the draw; nothing is selected exactly when every cumulative probability is below the draw |
| Roulette.SelectTotal | UAVObserver/algorithms/ant_algorithm.py:166-170 | with probabilities summing to 1 and a draw below 1, some position is always selected |
| Roulette.SelectWeights | UAVObserver/algorithms/ant_algorithm.py:161-170 | when every probability is its weight's share of the total, the position selected on the cumulative probabilities is the first whose running sum of weights reaches the draw times the total weight, and no earlier one does |
| Roulette.Spin | UAVObserver/algorithms/ant_algorithm.py:158-170 | one spin over positive weights with a draw below 1 always lands on a position, and it is the first whose running sum of weights reaches the draw times the total weight |
| AntColony.WeightsPositive | UAVObserver/algorithms/ant_algorithm.py:159-162 | `Weights`: the desirability of candidate i weighs the trail from the current waypoint to i against the travel-plus-dwell cost of i, and every candidate's desirability is positive, so their total is never zero |
| Roulette.SumPositive | UAVObserver/algorithms/ant_algorithm.py:162 | the sum of positive weights is positive, so the normalisation never divides by zero |
| Pheromones.Uniform | UAVObserver/algorithms/ant_algorithm.py:63 | the initial matrix is k by k with t0 in every entry, and positive when t0 is |
| Pheromones.Reinforce | UAVObserver/algorithms/ant_algorithm.py:122-123 | each entry grows by the deposit once for every occurrence of that directed edge on the path; the matrix stays square |
| Pheromones.EdgeCountDistinct | UAVObserver/algorithms/ant_algorithm.py:122-123 | on a path without repeated waypoints, each directed edge occurs once if it is an edge of the path and otherwise not at all |
| Pheromones.ReinforceDistinct | UAVObserver/algorithms/ant_algorithm.py:122-123 | on a path without repeated waypoints, exactly the directed edges of the path gain the deposit and every other entry is unchanged |
| Pheromones.ReinforcePositive | UAVObserver/algorithms/ant_algorithm.py:122-123 | a non-negative deposit keeps a positive matrix positive |
| Pheromones.ReinforceTrails | UAVObserver/algorithms/ant_algorithm.py:122-123 | reinforcing along a path without repeated waypoints keeps the matrix square and positive and adds the deposit on exactly the path's directed edges |
| Pheromones.Evaporate | UAVObserver/algorithms/ant_algorithm.py:125-127 | every entry is multiplied by (1 - p) and the matrix keeps its shape |
| Pheromones.EvaporatePositive | UAVObserver/algorithms/ant_algorithm.py:125-127 | with p < 1 evaporation keeps a positive matrix positive |
| AntTour.AdvancePartial | UAVObserver/algorithms/ant_algorithm.py:94-102 | `Advance`, one move of the candidate loop: moving to a qualifying waypoint keeps the tour invariant (distinct object picks, legs from the matrix, time equal to flight time plus dwell, B reachable within the budget) and strictly shrinks the unvisited set |
| AntTour.StartPartial | UAVObserver/algorithms/ant_algorithm.py:81-90 | a fresh ant stands at A with path [A], no picks, no legs and time 0, which satisfies the tour invariant |
| AntTour.Extend | UAVObserver/algorithms/ant_algorithm.py:91-102 | the candidate loop ends with the ant standing on a waypoint of its path, at a point where no waypoint qualifies any more |
| AntTour.ExtendDrawn | UAVObserver/algorithms/ant_algorithm.py:91-102 | every pick the candidate loop adds is the candidate step's choice for the draw at its own position: after the picks before it, with the elapsed time of those picks (flights plus dwell times) and standing on the last of them, the step with draw number cursor + e yields pick e |
| AntTour.ExtendPartial | UAVObserver/algorithms/ant_algorithm.py:91-102 | the candidate loop keeps the tour invariant, only appends picks, and consumes exactly one draw per pick |
| AntTour.ClosePartial | UAVObserver/algorithms/ant_algorithm.py:104-108 | `Close`, the final leg: closing to B gives a path [A] ++ picks ++ [B] whose time is within the budget when something was picked and equals w[A][B] when nothing was |
| AntTour.CloseStuck | UAVObserver/algorithms/ant_algorithm.py:91-108 | closing where nothing qualifies gives a closed tour, and removing B and the last leg from it leaves a point where no waypoint qualifies |
| AntTour.RunAnt | UAVObserver/algorithms/ant_algorithm.py:81-108 | one ant's tour is closed (path [A] ++ distinct objects ++ [B], one flight time and one distance per leg with distance = flight time × v, the budget rule above); the ant closed it only when no waypoint qualified from where it stood, and it used one draw per pick: pick e is exactly what the candidate step chooses with draw number cursor + e after picks 0 .. e-1, so the draws and desirabilities decide the tour |
| AntAlgorithm.UpdateBest | UAVObserver/algorithms/ant_algorithm.py:115-120 | the new best is the old one or the tour itself; it never ranks below the old best, the tour never ranks above it, and the first tour always replaces the initial record |
| AntAlgorithm.UpdateBestValid | UAVObserver/algorithms/ant_algorithm.py:115-120 | the best stays either the initial record or a closed tour when a closed tour is offered to it |
| AntAlgorithm.ClosedPath | UAVObserver/algorithms/ant_algorithm.py:104-123 | a closed tour's index path stays inside the matrix and never repeats a waypoint |
| AntAlgorithm.Absorb | UAVObserver/algorithms/ant_algorithm.py:110-123 | after an ant, the counter is the old one plus 1 if the ant's objects equal the pre-update best's as an ordered list and 0 otherwise; the best is updated by the replacement rule; exactly the tour's directed edges gain \|Sk\|/n |
| AntAlgorithm.AntStep | UAVObserver/algorithms/ant_algorithm.py:81-123 | after one ant a finite best exists, the best never ranks lower, and the counter either reset or grew by one with the best's object list unchanged |
| AntAlgorithm.Ants | UAVObserver/algorithms/ant_algorithm.py:81-123 | the m ants of one iteration keep the instance valid and change only its trails; with no ants the run is unchanged |
| AntAlgorithm.AntsImprove | UAVObserver/algorithms/ant_algorithm.py:81-123 | over the m ants of one iteration the best never ranks lower, and it is finite once any ant ran |
| Pheromones.RetainedCompose | UAVObserver/algorithms/ant_algorithm.py:125-127 | evaporation composes: one evaporation followed by a matrix scaled by the share retained after d - b evaporations leaves every trail scaled by the share retained after d - b + 1 of them, (1 - p) times as much |
| AntAlgorithm.EndIteration | UAVObserver/algorithms/ant_algorithm.py:125-127 | at the end of an iteration every trail is multiplied by (1 - p) once and stays positive; best and counter are unchanged |
| AntAlgorithm.Iterate | UAVObserver/algorithms/ant_algorithm.py:77-127 | the outer loop runs at most the remaining number of iterations, ends early only when the counter has reached the cap, runs none when the counter starts at the cap, never makes the best rank lower, and leaves the best untouched when there are no ants |
| AntAlgorithm.IterateNoAnts | UAVObserver/algorithms/ant_algorithm.py:77-127 | with no ants, the outer loop is only the stagnation check and the evaporation, once per iteration |
| AntAlgorithm.NoAntTrails | UAVObserver/algorithms/ant_algorithm.py:77-127 | an iteration without ants leaves counter, waypoints and parameters alone; the loop runs the remaining iterations unless the counter starts at the cap, and every trail ends multiplied by (1 - p) once per iteration run |
| AntAlgorithm.Solve | UAVObserver/algorithms/ant_algorithm.py:66-127 | a solve runs at most max_iter iterations, fewer only after stagnation, and ends with a finite best exactly when max_iter, m and the stagnation cap are positive |
| AntAlgorithm.InspectedAreObjects | UAVObserver/algorithms/ant_algorithm.py:130 | every inspected location of a tour is the location of an object of J |
| AntAlgorithm.InspectedIsInterior | UAVObserver/algorithms/ant_algorithm.py:129-130 | the inspected set is exactly the set of interior route locations |
| AntAlgorithm.EmptyOrWithinBudget | UAVObserver/algorithms/ant_algorithm.py:104-120 | a closed tour inspects something exactly when it picked something, and is then within the budget; otherwise its path is [A, B] with time w[A][B] |
| AntAlgorithm.RecordShape | UAVObserver/algorithms/ant_algorithm.py:104-132 | a recorded tour converts to a route from A to B, with the inspected locations as its interior and a distance per leg of flight time × v, a finite time, within budget when anything is inspected and equal to w[A][B] with route [A, B] when not |
| AntAlgorithm.ToSolution | UAVObserver/algorithms/ant_algorithm.py:69-132 | the initial record converts to route [A], no objects, infinite time and no legs; a recorded tour converts to its own result form: the locations along the best path, the locations of the best objects, the best time and the best legs, which has the shape above and \|S\|+2 points |
| AntAlgorithm.SolveRoute | UAVObserver/algorithms/ant_algorithm.py:63-132 | the returned instance is the one the solve leaves: only its trails differ from the caller's, and they are the trails the solve loop evolved, not a fresh t0 matrix; it returns a finite time exactly when max_iter, m and the stagnation cap are positive, route [A] with infinite time otherwise, and whenever the time is finite, the result is the final running best of the solve loop in result form: a closed tour of the instance whose route, inspected set, legs and time (the flight times plus the dwell times) are returned as they are, with the shape above |
| AntAlgorithm.SolveNoAnts | UAVObserver/algorithms/ant_algorithm.py:63-132 | with no ants the result is route [A] with infinite time, and the instance returned carries every trail of the caller multiplied by (1 - p)^K, where K is max_iter when the loop runs and 0 otherwise, so the next solve starts from those trails |
| AntAlgorithm.ChangeMaxIteration | UAVObserver/algorithms/ant_algorithm.py:172-173 | only the iteration cap changes, to the new value; task, waypoints, travel times, trails and all other parameters are unchanged |
| GreedyAlgorithm.ScanFrom | UAVObserver/algorithms/greedy_algorithm.py:22-29 | scanning the remaining list from position i on, given the choice so far, the result is the feasible entry of least travel-plus-dwell time, the earliest one on ties, or nothing when no entry is feasible |
| GreedyAlgorithm.Pick | UAVObserver/algorithms/greedy_algorithm.py:19-32 | the choice is empty exactly when no remaining object is feasible; otherwise it is feasible, of least travel-plus-dwell time among the feasible ones, and strictly cheaper than every feasible one before it in the remaining list |
| GreedyAlgorithm.AdvanceInv | UAVObserver/algorithms/greedy_algorithm.py:34-39 | `Advance`, one pick of the loop: flying to a feasible choice keeps the invariant: the remaining list is J minus the picks in input order; the route is A then the picked locations; the inspected set is those locations, one per pick; B stays reachable within the budget. The remaining list shrinks by one |
| GreedyAlgorithm.InitialInv | UAVObserver/algorithms/greedy_algorithm.py:11-16 | before the loop the invariant holds: route [A], nothing inspected, time 0, every object remaining |
| GreedyAlgorithm.Loop | UAVObserver/algorithms/greedy_algorithm.py:18-39 | the loop keeps the invariant, never revises an earlier pick, and ends with the elapsed time at the budget or no feasible object left |
| GreedyAlgorithm.ChosenStep | UAVObserver/algorithms/greedy_algorithm.py:18-29 | the scan's choice, made while the elapsed time is below T, is the greedy choice stated over J: an unpicked object feasible from the current point, no feasible unpicked object cheaper, and every equally cheap one later in J (the remaining list keeps J's order) |
| GreedyAlgorithm.StopsAtEnd | UAVObserver/algorithms/greedy_algorithm.py:18-32 | where the loop leaves, the budget is used up or no unpicked object is feasible from the current point |
| GreedyAlgorithm.LoopGreedy | UAVObserver/algorithms/greedy_algorithm.py:18-39 | every pick the loop makes is the greedy choice after the picks before it (feasible at the moment it is chosen, least travel-plus-dwell time, earliest on ties), and the loop ends where a greedy run must stop |
| GreedyAlgorithm.Picks | UAVObserver/algorithms/greedy_algorithm.py:16-39 | the picked objects are valid indices into J, none picked twice, at most \|J\| of them |
| GreedyAlgorithm.PicksGreedy | UAVObserver/algorithms/greedy_algorithm.py:18-39 | the loop's picks form a complete greedy run: each pick the greedy choice after the ones before it, and the run ends where no feasible object is left or the budget is spent |
| GreedyAlgorithm.StepUnique | UAVObserver/algorithms/greedy_algorithm.py:27-29 | after the same picks the greedy choice is unique, because ties go to the earliest object |
| GreedyAlgorithm.RunUnique | UAVObserver/algorithms/greedy_algorithm.py:18-39 | two complete greedy runs of the same task are the same pick sequence |
| GreedyAlgorithm.PicksAreTheGreedyRun | UAVObserver/algorithms/greedy_algorithm.py:18-39 | a pick sequence is a complete greedy run exactly when it is the loop's picks |
| GreedyAlgorithm.FirstPickIff | UAVObserver/algorithms/greedy_algorithm.py:18-32 | at least one object is picked exactly when 0 < T and some object is feasible from A at time 0 |
| GreedyAlgorithm.SolveRoute | UAVObserver/algorithms/greedy_algorithm.py:9-51 | the result is empty exactly when nothing could be picked and A -> B alone exceeds T, and then route, set and time are [], {} and 0; in that case the empty pick sequence is the complete greedy run; otherwise there is a complete greedy run whose picks give the route: A, the picked locations in order, then B, the inspected set holds exactly the picked locations with \|S\| = \|route\| - 2, all of them object locations, and the time is the flights and dwell times along the picks plus the last flight to B, within the budget |
| GreedyAlgorithm.CloseFacts | UAVObserver/algorithms/greedy_algorithm.py:41-50 | `Finish`, closing the state the loop leaves: the result is empty exactly when nothing was picked and A -> B alone exceeds T, and then it is the empty record and the picks are empty; otherwise it closes the picks: B appended after them and its flight time added, within the budget |
| GreedyAlgorithm.NoObjects | UAVObserver/algorithms/greedy_algorithm.py:16-50 | with no objects the result is [A, B] with the direct flight time when that fits the budget, and the empty result otherwise |

## Left out

- Travel times: the ant solver's matrix entries are `round(sqrt(..)/v, 2)` (`ant_algorithm.py:134-142`) and the greedy solver computes unrounded `sqrt(..)/v`. Both are given as parameters, because Dafny reals have no square root and the rounding is floating-point behaviour.
- Desirability: the real powers `tau**a` and `(1/cost)**b` are replaced by a positive function `desire`. Dafny reals have no fractional powers, and the exponents `a` and `b` are carried in the parameters without being used.
- Randomness: `random.random()` is replaced by the draw stream. The floating-point fall-through of the roulette wheel is described above and does not arise with exact reals.
- Floating-point rounding in general: all arithmetic is exact real arithmetic.
- The conversion of waypoints to coordinate tuples is modelled by `Location`. The infinite time is `None`.
- AntAlgorithm.SolveRoute: requires positive trails, `n > 0`, `p < 1` and positive travel-plus-dwell times to every object from every other waypoint, B included, although an ant never stands at B when it weighs candidates; a zero-dwell object at B's location is therefore excluded. Without them the source divides by zero or raises a negative number to a real power, which has no real-number meaning.
- AntAlgorithm.SolveRoute: the result is the final running best, but no lemma states that this best ranks at least as high as every tour an ant built during the solve; only the per-ant and per-iteration steps (`AntAlgorithm.UpdateBest`, `AntAlgorithm.AntsImprove`, `AntAlgorithm.Iterate`) say it never ranks lower.
- Task validation, and the pairwise distinctness of generated points (`task_generator.py`), are not preconditions. The greedy model compares coordinates exactly as the source does.
- The plotting and UI code (`plots_drawer.py`), the random task generator (`task_generator.py`), the entry point (`main.py`) and the solver registry (`algorithms_registry.py`) are not modelled. They are glue, UI, or random sampling with no termination guarantee.
- `models/task.py` is not part of this model. The task fields `(n, A, B, J, v, T)` are inferred from their use.
- No pheromone upper bound is proved: the source does not cap the trails.
- AntAlgorithm.ChangeMaxIteration: the parameters are a value; the source mutates a params object that callers may share between solvers (`ant_algorithm.py:56, 173`), so a second solver built on the same object would see the new cap too.
