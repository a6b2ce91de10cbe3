/**
  Greedy turbine packing: repeatedly take the smallest component of the
  region still free, place a turbine at that component's exterior vertex of
  least score `weight_x * x + y`, and cut a disk of radius `min_spacing`
  around it out of the free region, until no component is left.
*/
module PackTurbs {
  import opened Results
  import opened Geometry

  // ---------------------------------------------------------------------------
  // Selection rules

  /** i is the first index at which s takes its minimum value. */
  ghost predicate IsFirstMin(s: seq<real>, i: int)
  {
    && 0 <= i < |s|
    && (forall j :: 0 <= j < |s| ==> s[i] <= s[j])
    && (forall j :: 0 <= j < i ==> s[i] < s[j])
  }

  /** The index of the minimum of s, the first one on ties (numpy's argmin). */
  function ArgMin(s: seq<real>): (i: nat)
    requires |s| > 0
    ensures IsFirstMin(s, i)
  {
    if |s| == 1 then 0
    else
      var k := ArgMin(s[..|s| - 1]);
      if s[|s| - 1] < s[k] then |s| - 1 else k
  }

  /** At most one index is the first minimum. */
  lemma FirstMinUnique(s: seq<real>, i: int, j: int)
    requires IsFirstMin(s, i) && IsFirstMin(s, j)
    ensures i == j
  {
    assert s[i] <= s[j] && s[j] <= s[i];
  }

  /** Every non-empty sequence has a first minimum. */
  lemma FirstMinExists(s: seq<real>)
    requires |s| > 0
    ensures exists i :: IsFirstMin(s, i)
  {
    var i := ArgMin(s);
  }

  /** The area of every component of a region, in component order. */
  function Areas(geo: GeometryOps, m: MultiPolygon): (areas: seq<real>)
    ensures |areas| == |m|
  {
    seq(|m|, i requires 0 <= i < |m| => geo.area(m[i]))
  }

  /** The placement score of a vertex: lower is preferred. */
  function Score(weightX: real, p: Point): (score: real)
  {
    weightX * p.x + p.y
  }

  /** The score of every vertex of a ring, in ring order. */
  function Scores(weightX: real, ring: seq<Point>): (scores: seq<real>)
    ensures |scores| == |ring|
  {
    seq(|ring|, i requires 0 <= i < |ring| => Score(weightX, ring[i]))
  }

  /** The vectorised score over parallel coordinate arrays. */
  function Metric(weightX: real, xs: seq<real>, ys: seq<real>): (metric: seq<real>)
    requires |xs| == |ys|
    ensures |metric| == |xs|
  {
    seq(|xs|, i requires 0 <= i < |xs| => weightX * xs[i] + ys[i])
  }

  /** The vectorised score over a ring's split coordinates is the score of
      each of its vertices, in ring order. */
  lemma MetricOfRing(weightX: real, ring: seq<Point>)
    ensures Metric(weightX, XCoords(ring), YCoords(ring)) == Scores(weightX, ring)
  {
    var xs, ys := XCoords(ring), YCoords(ring);
    forall i | 0 <= i < |ring|
      ensures Metric(weightX, xs, ys)[i] == Scores(weightX, ring)[i]
    {
      assert xs[i] == ring[i].x && ys[i] == ring[i].y;
    }
  }

  /** Splits exterior coordinates into preallocated x and y arrays. */
  method GetXY(a: seq<Point>) returns (x: array<real>, y: array<real>)
    ensures x.Length == |a| && y.Length == |a|
    ensures forall i :: 0 <= i < |a| ==> x[i] == a[i].x && y[i] == a[i].y
    ensures x[..] == XCoords(a) && y[..] == YCoords(a)
  {
    x := new real[|a|](_ => 0.0);
    y := new real[|a|](_ => 0.0);
    for i := 0 to |a|
      invariant forall k :: 0 <= k < i ==> x[k] == a[k].x && y[k] == a[k].y
    {
      x[i] := a[i].x;
      y[i] := a[i].y;
    }
  }

  /** Fills an array with the area of every component of the region. */
  method ComponentAreas(geo: GeometryOps, leftover: MultiPolygon) returns (areas: array<real>)
    ensures areas.Length == |leftover|
    ensures forall i :: 0 <= i < |leftover| ==> areas[i] == geo.area(leftover[i])
  {
    areas := new real[|leftover|](_ => 0.0);
    for i := 0 to |leftover|
      invariant forall k :: 0 <= k < i ==> areas[k] == geo.area(leftover[k])
    {
      areas[i] := geo.area(leftover[i]);
    }
  }

  /** Why a packing run stopped without emptying the region. */
  datatype PackError =
    | UnboundDisk    // the region was empty on the first pass, so no disk was ever built
    | EmptyExterior  // the smallest component has no exterior vertex to score

  /** One choice of the greedy rule: which component, which of its exterior
      vertices, and that vertex. */
  datatype Selection = Selection(component: nat, vertex: nat, point: Point)

  /** sel is the greedy choice on region m: the component of least area (the
      first on ties), on its exterior the vertex of least score (the first on
      ties), and that vertex's coordinates. */
  ghost predicate IsChoice(geo: GeometryOps, weightX: real, m: MultiPolygon, sel: Selection)
  {
    && IsFirstMin(Areas(geo, m), sel.component)
    && IsFirstMin(Scores(weightX, m[sel.component].exterior), sel.vertex)
    && sel.point == m[sel.component].exterior[sel.vertex]
  }

  /** The component of least area of m has no exterior vertex, so no choice
      can be made. */
  ghost predicate NoVertex(geo: GeometryOps, m: MultiPolygon)
  {
    exists c :: IsFirstMin(Areas(geo, m), c) && m[c].exterior == []
  }

  /** On a non-empty region the greedy choice, when there is one, is unique. */
  lemma ChoiceUnique(geo: GeometryOps, weightX: real, m: MultiPolygon, a: Selection, b: Selection)
    requires IsChoice(geo, weightX, m, a) && IsChoice(geo, weightX, m, b)
    ensures a == b
  {
    FirstMinUnique(Areas(geo, m), a.component, b.component);
    FirstMinUnique(Scores(weightX, m[a.component].exterior), a.vertex, b.vertex);
  }

  /** A greedy choice and a smallest component without exterior vertices
      exclude each other. */
  lemma ChoiceOrNoVertex(geo: GeometryOps, weightX: real, m: MultiPolygon, sel: Selection)
    requires IsChoice(geo, weightX, m, sel)
    ensures !NoVertex(geo, m)
  {
    if NoVertex(geo, m) {
      var c :| IsFirstMin(Areas(geo, m), c) && m[c].exterior == [];
      FirstMinUnique(Areas(geo, m), c, sel.component);
    }
  }

  /** The greedy choice on a non-empty region. */
  ghost function Select(geo: GeometryOps, weightX: real, leftover: MultiPolygon): (r: Result<Selection, PackError>)
    requires |leftover| > 0
    ensures r.Success? ==> IsChoice(geo, weightX, leftover, r.value)
    ensures r.Failure? ==> r.error == EmptyExterior && NoVertex(geo, leftover)
  {
    FirstMinExists(Areas(geo, leftover));
    var c :| IsFirstMin(Areas(geo, leftover), c);
    var ext := leftover[c].exterior;
    if |ext| == 0 then Failure(EmptyExterior)
    else
      FirstMinExists(Scores(weightX, ext));
      var v :| IsFirstMin(Scores(weightX, ext), v);
      Success(Selection(c, v, ext[v]))
  }

  /** Select returns the greedy choice whenever there is one. */
  lemma SelectIsChoice(geo: GeometryOps, weightX: real, m: MultiPolygon, sel: Selection)
    requires |m| > 0 && IsChoice(geo, weightX, m, sel)
    ensures Select(geo, weightX, m) == Success(sel)
  {
    ChoiceOrNoVertex(geo, weightX, m, sel);
    ChoiceUnique(geo, weightX, m, Select(geo, weightX, m).value, sel);
  }

  /** Select fails exactly when the smallest component has no exterior vertex. */
  lemma SelectFails(geo: GeometryOps, weightX: real, m: MultiPolygon)
    requires |m| > 0 && NoVertex(geo, m)
    ensures Select(geo, weightX, m) == Failure(EmptyExterior)
  {
    if Select(geo, weightX, m).Success? {
      ChoiceOrNoVertex(geo, weightX, m, Select(geo, weightX, m).value);
    }
  }

  /** One pass's choice as the loop computes it: the areas array, numpy's
      argmin over it, the smallest component's x/y arrays, their scores, and
      the argmin of the scores giving both coordinates. */
  method SelectVertex(geo: GeometryOps, weightX: real, leftover: MultiPolygon)
    returns (r: Result<Selection, PackError>)
    requires |leftover| > 0
    ensures r.Success? ==> IsChoice(geo, weightX, leftover, r.value)
    ensures r.Failure? ==> r.error == EmptyExterior && NoVertex(geo, leftover)
  {
    var areas := ComponentAreas(geo, leftover);
    assert areas[..] == Areas(geo, leftover);
    var smallest := ArgMin(areas[..]);
    var exteriorCoords := leftover[smallest].exterior;
    var x, y := GetXY(exteriorCoords);
    var metric := Metric(weightX, x[..], y[..]);
    MetricOfRing(weightX, exteriorCoords);
    if |metric| == 0 {
      return Failure(EmptyExterior);
    }
    var best := ArgMin(metric);
    return Success(Selection(smallest, best, Point(x[best], y[best])));
  }

  // ---------------------------------------------------------------------------
  // The packing run as a function of its inputs

  /** One pass of the loop that placed a turbine: the region before it, the
      choice made, the disk cut out, and the normalised region after it. */
  datatype Step = Step(leftover: MultiPolygon, sel: Selection, disk: Polygon, after: MultiPolygon)

  /** How a packing run ended. */
  datatype Outcome = Finished | Failed(error: PackError) | OutOfFuel

  /** The passes that placed a turbine, the region left when the run stopped,
      and how it stopped. */
  datatype Run = Run(steps: seq<Step>, last: MultiPolygon, outcome: Outcome)

  /** The points placed by a sequence of passes, in placement order. */
  function Placed(steps: seq<Step>): (ps: seq<Point>)
    ensures |ps| == |steps|
  {
    seq(|steps|, i requires 0 <= i < |steps| => steps[i].sel.point)
  }

  /** The packing loop from region `leftover`, where `disk` is the disk built
      by the previous pass (None before the first), for at most `fuel` passes. */
  ghost function Packing(geo: GeometryOps, spacing: real, weightX: real, leftover: MultiPolygon,
                         disk: Option<Polygon>, fuel: nat): (run: Run)
    ensures |run.steps| <= fuel
    decreases fuel
  {
    if fuel == 0 then Run([], leftover, OutOfFuel)
    else if |leftover| == 0 then
      Run([], leftover, if disk.None? then Failed(UnboundDisk) else Finished)
    else
      match Select(geo, weightX, leftover)
      case Failure(e) => Run([], leftover, Failed(e))
      case Success(sel) =>
        var d := geo.buffer(sel.point, spacing);
        var after := Normalise(geo.difference(leftover, d));
        var rest := Packing(geo, spacing, weightX, after, Some(d), fuel - 1);
        Run([Step(leftover, sel, d, after)] + rest.steps, rest.last, rest.outcome)
  }

  // ---------------------------------------------------------------------------
  // The packing run as a relation: what each pass must do

  /** s is a pass the greedy rule makes: the choice on its region, the disk of
      radius `spacing` around the chosen vertex, and the normalised difference. */
  ghost predicate IsGreedyStep(geo: GeometryOps, spacing: real, weightX: real, s: Step)
  {
    && |s.leftover| > 0
    && IsChoice(geo, weightX, s.leftover, s.sel)
    && s.disk == geo.buffer(s.sel.point, spacing)
    && s.after == Normalise(geo.difference(s.leftover, s.disk))
  }

  /** steps are greedy passes chained from region `initial`, leaving `last`. */
  ghost predicate IsGreedyTrace(geo: GeometryOps, spacing: real, weightX: real,
                                initial: MultiPolygon, steps: seq<Step>, last: MultiPolygon)
  {
    && (forall k :: 0 <= k < |steps| ==> IsGreedyStep(geo, spacing, weightX, steps[k]))
    && (forall k :: 0 < k < |steps| ==> steps[k].leftover == steps[k - 1].after)
    && (if steps == [] then last == initial
        else steps[0].leftover == initial && steps[|steps| - 1].after == last)
  }

  /** The disk the loop variable holds after the given passes. */
  function EndDisk(disk: Option<Polygon>, steps: seq<Step>): (d: Option<Polygon>)
  {
    if steps == [] then disk else Some(steps[|steps| - 1].disk)
  }

  /** Why the loop stops at region `last`, holding disk `disk`, with `fuel`
      passes left. */
  ghost predicate Halted(geo: GeometryOps, last: MultiPolygon, disk: Option<Polygon>, fuel: nat,
                         outcome: Outcome)
  {
    match outcome
    case OutOfFuel => fuel == 0
    case Finished => fuel > 0 && last == [] && disk.Some?
    case Failed(UnboundDisk) => fuel > 0 && last == [] && disk.None?
    case Failed(EmptyExterior) => fuel > 0 && last != [] && NoVertex(geo, last)
  }

  /** A greedy trace that stops as the loop stops is the run Packing computes. */
  lemma {:induction false} GreedyTraceIsPacking(geo: GeometryOps, spacing: real, weightX: real,
                                                initial: MultiPolygon, disk: Option<Polygon>, fuel: nat,
                                                steps: seq<Step>, last: MultiPolygon, outcome: Outcome)
    requires IsHaltedTrace(geo, spacing, weightX, initial, disk, fuel, steps, last, outcome)
    ensures Packing(geo, spacing, weightX, initial, disk, fuel) == Run(steps, last, outcome)
    decreases steps
  {
    TraceUnfold(geo, spacing, weightX, initial, disk, fuel, steps, last, outcome);
    if steps != [] {
      GreedyTraceIsPacking(geo, spacing, weightX, steps[0].after, Some(steps[0].disk), fuel - 1,
                           steps[1..], last, outcome);
    }
  }

  /** A greedy trace from `initial` that fits in `fuel` passes and ends where
      the loop halts, with `outcome`. */
  ghost predicate IsHaltedTrace(geo: GeometryOps, spacing: real, weightX: real,
                                initial: MultiPolygon, disk: Option<Polygon>, fuel: nat,
                                steps: seq<Step>, last: MultiPolygon, outcome: Outcome)
  {
    && IsGreedyTrace(geo, spacing, weightX, initial, steps, last)
    && |steps| <= fuel
    && Halted(geo, last, EndDisk(disk, steps), fuel - |steps|, outcome)
  }

  /** One pass of GreedyTraceIsPacking: a trace without passes is the run
      Packing stops with at once; otherwise the rest of the trace is a halted
      trace from the region the first pass left, and Packing's run is the
      trace as soon as it is the rest from there. */
  lemma TraceUnfold(geo: GeometryOps, spacing: real, weightX: real,
                    initial: MultiPolygon, disk: Option<Polygon>, fuel: nat,
                    steps: seq<Step>, last: MultiPolygon, outcome: Outcome)
    requires IsHaltedTrace(geo, spacing, weightX, initial, disk, fuel, steps, last, outcome)
    ensures steps == [] ==> Packing(geo, spacing, weightX, initial, disk, fuel) == Run(steps, last, outcome)
    ensures steps != [] ==>
      && fuel > 0
      && IsHaltedTrace(geo, spacing, weightX, steps[0].after, Some(steps[0].disk), fuel - 1,
                       steps[1..], last, outcome)
      && (Packing(geo, spacing, weightX, steps[0].after, Some(steps[0].disk), fuel - 1)
            == Run(steps[1..], last, outcome) ==>
          Packing(geo, spacing, weightX, initial, disk, fuel) == Run(steps, last, outcome))
  {
    if steps == [] {
      if fuel > 0 && |initial| > 0 {
        SelectFails(geo, weightX, initial);
      }
    } else {
      var s := steps[0];
      assert IsGreedyStep(geo, spacing, weightX, s);
      SelectIsChoice(geo, weightX, initial, s.sel);
      var tail := steps[1..];
      assert EndDisk(Some(s.disk), tail) == EndDisk(disk, steps);
      TraceTail(geo, spacing, weightX, initial, steps, last);
      assert steps == [s] + tail;
    }
  }

  /** A greedy trace without its first pass is a greedy trace from the region
      that pass left. */
  lemma TraceTail(geo: GeometryOps, spacing: real, weightX: real, initial: MultiPolygon,
                  steps: seq<Step>, last: MultiPolygon)
    requires steps != [] && IsGreedyTrace(geo, spacing, weightX, initial, steps, last)
    ensures IsGreedyTrace(geo, spacing, weightX, steps[0].after, steps[1..], last)
  {
    var tail := steps[1..];
    forall k | 0 <= k < |tail| ensures IsGreedyStep(geo, spacing, weightX, tail[k]) {
      assert tail[k] == steps[k + 1];
    }
    forall k | 0 < k < |tail| ensures tail[k].leftover == tail[k - 1].after {
      assert tail[k] == steps[k + 1] && tail[k - 1] == steps[k];
    }
  }

  /** A greedy trace extended by a greedy pass from where it left off. */
  lemma TraceExtend(geo: GeometryOps, spacing: real, weightX: real, initial: MultiPolygon,
                    steps: seq<Step>, s: Step)
    requires IsGreedyTrace(geo, spacing, weightX, initial, steps, s.leftover)
    requires IsGreedyStep(geo, spacing, weightX, s)
    ensures IsGreedyTrace(geo, spacing, weightX, initial, steps + [s], s.after)
  {
    var ext := steps + [s];
    forall k | 0 <= k < |ext| ensures IsGreedyStep(geo, spacing, weightX, ext[k]) {
      if k < |steps| { assert ext[k] == steps[k]; }
    }
  }

  /** Appending the coordinates of some points to parallel coordinate
      sequences appends those points to the sequence they pair up into. */
  lemma ZipAppend(xs: seq<real>, ys: seq<real>, ps: seq<Point>)
    requires |xs| == |ys|
    ensures Zip(xs + XCoords(ps), ys + YCoords(ps)) == Zip(xs, ys) + ps
  {
  }

  lemma PlacedAppend(steps: seq<Step>, s: Step)
    ensures Placed(steps + [s]) == Placed(steps) + [s.sel.point]
    ensures XCoords(Placed(steps + [s])) == XCoords(Placed(steps)) + [s.sel.point.x]
    ensures YCoords(Placed(steps + [s])) == YCoords(Placed(steps)) + [s.sel.point.y]
  {
    assert Placed(steps + [s]) == Placed(steps) + [s.sel.point];
  }

  // ---------------------------------------------------------------------------
  // The packer object

  class PackTurbines {
    const minSpacing: real
    const safePolygons: MultiPolygon
    const weightX: real

    /** Coordinates of the turbines placed so far, in placement order. */
    var turbineX: seq<real>
    var turbineY: seq<real>

    /** The two coordinate arrays describe the same turbines. */
    predicate Valid()
      reads this
    {
      |turbineX| == |turbineY|
    }

    /** The turbine layout the two coordinate arrays describe. */
    function Layout(): seq<Point>
      reads this
      requires Valid()
    {
      Zip(turbineX, turbineY)
    }

    constructor (minSpacing: real, safePolygons: MultiPolygon, weightX: real := 0.0)
      ensures this.minSpacing == minSpacing
      ensures this.safePolygons == safePolygons
      ensures this.weightX == weightX
      ensures turbineX == [] && turbineY == []
      ensures Valid() && Layout() == []
    {
      this.minSpacing := minSpacing;
      this.safePolygons := safePolygons;
      this.weightX := weightX;
      turbineX := [];
      turbineY := [];
    }

    /** Runs the greedy loop from the safe region, appending one turbine per
        pass, for at most `maxIterations` passes. */
    method PackTurbinesPoly(geo: GeometryOps, maxIterations: nat) returns (outcome: Outcome)
      modifies this
      ensures var run := Packing(geo, minSpacing, weightX, safePolygons, None, maxIterations);
        && outcome == run.outcome
        && turbineX == old(turbineX) + XCoords(Placed(run.steps))
        && turbineY == old(turbineY) + YCoords(Placed(run.steps))
      ensures old(Valid()) ==>
        && Valid()
        && Layout() == old(Layout()) + Placed(Packing(geo, minSpacing, weightX, safePolygons, None, maxIterations).steps)
    {
      ghost var done: seq<Step> := [];
      ghost var region := safePolygons;
      outcome := Finished;
      var canAddMore := true;
      var leftover := safePolygons;
      var newTurbine: Option<Polygon> := None;
      var fuel := maxIterations;
      while canAddMore
        invariant turbineX == old(turbineX) + XCoords(Placed(done))
        invariant turbineY == old(turbineY) + YCoords(Placed(done))
        invariant IsGreedyTrace(geo, minSpacing, weightX, safePolygons, done, region)
        invariant newTurbine == EndDisk(None, done)
        invariant canAddMore ==> region == leftover && |done| + fuel == maxIterations
        invariant !canAddMore ==>
          |done| < maxIterations && Halted(geo, region, EndDisk(None, done), maxIterations - |done|, outcome)
        decreases fuel
      {
        if fuel == 0 {
          outcome := OutOfFuel;
          break;
        }
        var nareas := |leftover|;
        if nareas > 0 {
          var chosen := SelectVertex(geo, weightX, leftover);
          if chosen.Failure? {
            outcome := Failed(chosen.error);
            break;
          }
          var p := chosen.value.point;
          turbineX := turbineX + [p.x];
          turbineY := turbineY + [p.y];
          newTurbine := Some(geo.buffer(p, minSpacing));
          ghost var step := Step(leftover, chosen.value, newTurbine.value,
                                 Normalise(geo.difference(leftover, newTurbine.value)));
          TraceExtend(geo, minSpacing, weightX, safePolygons, done, step);
          PlacedAppend(done, step);
          done := done + [step];
          region := step.after;
        } else {
          canAddMore := false;
        }
        fuel := fuel - 1;
        if newTurbine.None? {
          outcome := Failed(UnboundDisk);
          break;
        }
        leftover := Normalise(geo.difference(leftover, newTurbine.value));
      }
      GreedyTraceIsPacking(geo, minSpacing, weightX, safePolygons, None, maxIterations, done, region, outcome);
      if old(Valid()) {
        ZipAppend(old(turbineX), old(turbineY), Placed(done));
      }
    }

    /** Empties both coordinate arrays; the configuration is untouched. */
    method Clear()
      modifies this
      ensures turbineX == [] && turbineY == []
      ensures Valid() && Layout() == []
    {
      turbineX := [];
      turbineY := [];
    }
  }
}
