/**
 * The problem instance and the result record shared by both solvers:
 * a start point A, an end point B, the objects J (each with an inspection
 * dwell time), the speed v and the time budget T.
 */
module Models {
  import opened Wrappers

  /** A location in the plane. */
  datatype Point = Point(x: real, y: real)

  /** An object of interest: its location and its mandatory dwell time. */
  datatype Obj = Obj(x: real, y: real, delay: real)

  /** The task as the callers build it: `Task(n, A, B, J, v, T)`. */
  datatype Task = Task(n: int, A: Point, B: Point, J: seq<Obj>, v: real, T: real)

  /** A waypoint of the colony solver: start, object or end, with its dwell time. */
  datatype Waypoint = Waypoint(x: real, y: real, delay: real)

  /**
   * The five-field result record. `totalTime` is None where the source
   * reports `float('inf')` (no tour was ever recorded).
   */
  datatype Solution = Solution(
    route: seq<Point>,
    inspected: set<Point>,
    totalTime: Option<real>,
    distances: seq<real>,
    flightTimes: seq<real>)

  /** The location of an object, dropping its dwell time. */
  function Coord(o: Obj): Point
  {
    Point(o.x, o.y)
  }

  /** The location of a waypoint, dropping its dwell time. */
  function Location(p: Waypoint): Point
  {
    Point(p.x, p.y)
  }

  /** No index occurs twice. */
  predicate Distinct(xs: seq<nat>)
  {
    forall a, b :: 0 <= a < b < |xs| ==> xs[a] != xs[b]
  }

  /** The locations of all objects of a task. */
  function ObjectLocations(task: Task): set<Point>
  {
    set i | 0 <= i < |task.J| :: Coord(task.J[i])
  }
}
