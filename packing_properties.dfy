/**
  Properties of the greedy packing run: the run Packing computes is exactly
  a greedy trace, every placed turbine sits on an exterior vertex of the free
  region at its pass, the loop stops as soon as the region has no component,
  and the geometry-independent facts about normalisation and the x/y split.
*/
module PackingProperties {
  import opened Results
  import opened Geometry
  import opened PackTurbs

  /** A greedy pass followed by a greedy trace from the region it left is a
      greedy trace from the pass's own region. */
  lemma TraceCons(geo: GeometryOps, spacing: real, weightX: real, s: Step,
                  steps: seq<Step>, last: MultiPolygon)
    requires IsGreedyStep(geo, spacing, weightX, s)
    requires IsGreedyTrace(geo, spacing, weightX, s.after, steps, last)
    ensures IsGreedyTrace(geo, spacing, weightX, s.leftover, [s] + steps, last)
  {
    var all := [s] + steps;
    forall k | 0 <= k < |all| ensures IsGreedyStep(geo, spacing, weightX, all[k]) {
      if k > 0 { assert all[k] == steps[k - 1]; }
    }
    forall k | 0 < k < |all| ensures all[k].leftover == all[k - 1].after {
      assert all[k] == steps[k - 1];
      if k > 1 { assert all[k - 1] == steps[k - 2]; }
    }
  }

  /** A pass that places a turbine: Packing's run is that pass, which is a
      greedy pass, followed by the run from the region it leaves. */
  lemma PackingPass(geo: GeometryOps, spacing: real, weightX: real, initial: MultiPolygon,
                    disk: Option<Polygon>, fuel: nat) returns (s: Step)
    requires fuel > 0 && |initial| > 0 && Select(geo, weightX, initial).Success?
    ensures s.leftover == initial && IsGreedyStep(geo, spacing, weightX, s)
    ensures var rest := Packing(geo, spacing, weightX, s.after, Some(s.disk), fuel - 1);
      Packing(geo, spacing, weightX, initial, disk, fuel) == Run([s] + rest.steps, rest.last, rest.outcome)
  {
    var sel := Select(geo, weightX, initial).value;
    var d := geo.buffer(sel.point, spacing);
    s := Step(initial, sel, d, Normalise(geo.difference(initial, d)));
  }

  /** A pass that places nothing: Packing's run stops at once, for one of the
      loop's reasons. */
  lemma PackingStops(geo: GeometryOps, spacing: real, weightX: real, initial: MultiPolygon,
                     disk: Option<Polygon>, fuel: nat)
    requires !(fuel > 0 && |initial| > 0 && Select(geo, weightX, initial).Success?)
    ensures var run := Packing(geo, spacing, weightX, initial, disk, fuel);
      && run.steps == [] && run.last == initial
      && Halted(geo, initial, disk, fuel, run.outcome)
  {
  }

  /** A run that is a greedy trace from `initial`, uses at most `fuel`
      passes, and stops for one of the loop's reasons. */
  ghost predicate IsGreedyRun(geo: GeometryOps, spacing: real, weightX: real, initial: MultiPolygon,
                              disk: Option<Polygon>, fuel: nat, run: Run)
  {
    && IsGreedyTrace(geo, spacing, weightX, initial, run.steps, run.last)
    && |run.steps| <= fuel
    && Halted(geo, run.last, EndDisk(disk, run.steps), fuel - |run.steps|, run.outcome)
  }

  /** Prefixing a greedy pass to a greedy run from the region it leaves gives
      a greedy run with one more pass of budget. */
  lemma RunCons(geo: GeometryOps, spacing: real, weightX: real, s: Step,
                disk: Option<Polygon>, fuel: nat, rest: Run)
    requires fuel > 0 && IsGreedyStep(geo, spacing, weightX, s)
    requires IsGreedyRun(geo, spacing, weightX, s.after, Some(s.disk), fuel - 1, rest)
    ensures IsGreedyRun(geo, spacing, weightX, s.leftover, disk, fuel,
                        Run([s] + rest.steps, rest.last, rest.outcome))
  {
    TraceCons(geo, spacing, weightX, s, rest.steps, rest.last);
    assert EndDisk(disk, [s] + rest.steps) == EndDisk(Some(s.disk), rest.steps);
  }

  /** The run Packing computes is a greedy trace from its start region, uses
      at most `fuel` passes, and stops for one of the loop's reasons. With
      GreedyTraceIsPacking this says the greedy rules determine the run. */
  lemma {:induction false} PackingIsGreedy(geo: GeometryOps, spacing: real, weightX: real,
                                           initial: MultiPolygon, disk: Option<Polygon>, fuel: nat)
    ensures IsGreedyRun(geo, spacing, weightX, initial, disk, fuel,
                        Packing(geo, spacing, weightX, initial, disk, fuel))
    decreases fuel
  {
    var more, after, d := PackingUnfold(geo, spacing, weightX, initial, disk, fuel);
    if more {
      PackingIsGreedy(geo, spacing, weightX, after, Some(d), fuel - 1);
    }
  }

  /** One unfolding of Packing: either it stops at once, as a greedy run with
      no pass, or it makes a greedy pass that leaves region `after` and disk
      `d`, and is a greedy run as soon as the run from there is one. */
  lemma PackingUnfold(geo: GeometryOps, spacing: real, weightX: real, initial: MultiPolygon,
                      disk: Option<Polygon>, fuel: nat)
    returns (more: bool, after: MultiPolygon, d: Polygon)
    ensures more ==> fuel > 0
    ensures more ==>
      IsGreedyRun(geo, spacing, weightX, after, Some(d), fuel - 1,
                  Packing(geo, spacing, weightX, after, Some(d), fuel - 1)) ==>
      IsGreedyRun(geo, spacing, weightX, initial, disk, fuel,
                  Packing(geo, spacing, weightX, initial, disk, fuel))
    ensures !more ==> IsGreedyRun(geo, spacing, weightX, initial, disk, fuel,
                                  Packing(geo, spacing, weightX, initial, disk, fuel))
  {
    more := fuel > 0 && |initial| > 0 && Select(geo, weightX, initial).Success?;
    if more {
      var s := PackingPass(geo, spacing, weightX, initial, disk, fuel);
      after, d := s.after, s.disk;
      var rest := Packing(geo, spacing, weightX, after, Some(d), fuel - 1);
      if IsGreedyRun(geo, spacing, weightX, after, Some(d), fuel - 1, rest) {
        RunCons(geo, spacing, weightX, s, disk, fuel, rest);
      }
    } else {
      after, d := [], Polygon([], []);
      PackingStops(geo, spacing, weightX, initial, disk, fuel);
    }
  }

  /** What a greedy pass guarantees about the turbine it places: an exterior
      vertex of the component of least area, with the least score on that
      component's exterior. */
  lemma GreedyStepPlacesVertex(geo: GeometryOps, spacing: real, weightX: real, s: Step)
    requires IsGreedyStep(geo, spacing, weightX, s)
    ensures s.sel.component < |s.leftover|
    ensures s.sel.point in s.leftover[s.sel.component].exterior
    ensures forall c :: 0 <= c < |s.leftover| ==>
      geo.area(s.leftover[s.sel.component]) <= geo.area(s.leftover[c])
    ensures forall v :: 0 <= v < |s.leftover[s.sel.component].exterior| ==>
      Score(weightX, s.sel.point) <= Score(weightX, s.leftover[s.sel.component].exterior[v])
  {
    var ext := s.leftover[s.sel.component].exterior;
    forall c | 0 <= c < |s.leftover|
      ensures geo.area(s.leftover[s.sel.component]) <= geo.area(s.leftover[c])
    {
      assert Areas(geo, s.leftover)[c] == geo.area(s.leftover[c]);
    }
    forall v | 0 <= v < |ext| ensures Score(weightX, s.sel.point) <= Score(weightX, ext[v]) {
      assert Scores(weightX, ext)[v] == Score(weightX, ext[v]);
    }
  }

  /** Every turbine the run places is an exterior vertex of the smallest
      component of the free region at its pass, and has the least score on
      that component's exterior. */
  lemma PlacedAreGreedyVertices(geo: GeometryOps, spacing: real, weightX: real,
                                safe: MultiPolygon, fuel: nat)
    ensures var run := Packing(geo, spacing, weightX, safe, None, fuel);
      forall k :: 0 <= k < |run.steps| ==>
        var s := run.steps[k];
        && s.sel.component < |s.leftover|
        && Placed(run.steps)[k] in s.leftover[s.sel.component].exterior
        && (forall c :: 0 <= c < |s.leftover| ==>
              geo.area(s.leftover[s.sel.component]) <= geo.area(s.leftover[c]))
        && (forall v :: 0 <= v < |s.leftover[s.sel.component].exterior| ==>
              Score(weightX, Placed(run.steps)[k]) <= Score(weightX, s.leftover[s.sel.component].exterior[v]))
  {
    var run := Packing(geo, spacing, weightX, safe, None, fuel);
    PackingIsGreedy(geo, spacing, weightX, safe, None, fuel);
    forall k | 0 <= k < |run.steps| {
      GreedyStepPlacesVertex(geo, spacing, weightX, run.steps[k]);
    }
  }

  /** The first turbine is an exterior vertex of a component of the safe
      region. */
  lemma FirstPlacementInSafeRegion(geo: GeometryOps, spacing: real, weightX: real,
                                   safe: MultiPolygon, fuel: nat)
    ensures var run := Packing(geo, spacing, weightX, safe, None, fuel);
      |run.steps| > 0 ==> exists c :: 0 <= c < |safe| && Placed(run.steps)[0] in safe[c].exterior
  {
    var run := Packing(geo, spacing, weightX, safe, None, fuel);
    PlacedAreGreedyVertices(geo, spacing, weightX, safe, fuel);
    PackingIsGreedy(geo, spacing, weightX, safe, None, fuel);
    if |run.steps| > 0 {
      var c := run.steps[0].sel.component;
      assert run.steps[0].leftover == safe;
      assert 0 <= c < |safe| && Placed(run.steps)[0] in safe[c].exterior;
    }
  }

  /** The loop places nothing once the region has no component: from an empty
      region the run stops at once, as Finished when a previous pass built a
      disk and with the unbound-disk failure on the very first pass. */
  lemma {:induction false} EmptyRegionStops(geo: GeometryOps, spacing: real, weightX: real,
                                            disk: Option<Polygon>, fuel: nat)
    requires fuel > 0
    ensures var run := Packing(geo, spacing, weightX, [], disk, fuel);
      && run.steps == []
      && run.outcome == (if disk.None? then Failed(UnboundDisk) else Finished)
  {
  }

  /** A run stops with Finished exactly when it emptied the region within its
      budget after placing at least one turbine. */
  lemma FinishedIffEmptied(geo: GeometryOps, spacing: real, weightX: real,
                           safe: MultiPolygon, fuel: nat)
    ensures var run := Packing(geo, spacing, weightX, safe, None, fuel);
      run.outcome == Finished <==> (run.last == [] && run.steps != [] && |run.steps| < fuel)
  {
    var run := Packing(geo, spacing, weightX, safe, None, fuel);
    PackingIsGreedy(geo, spacing, weightX, safe, None, fuel);
    if run.last == [] && run.steps != [] && |run.steps| < fuel {
      assert EndDisk(None, run.steps).Some?;
      match run.outcome
      case OutOfFuel =>
      case Finished =>
      case Failed(e) =>
    }
  }

  /** A run runs out of budget exactly when every pass of the budget placed
      a turbine: the loop only gives up for lack of budget, never earlier. */
  lemma OutOfFuelIffBudgetUsed(geo: GeometryOps, spacing: real, weightX: real,
                               initial: MultiPolygon, disk: Option<Polygon>, fuel: nat)
    ensures var run := Packing(geo, spacing, weightX, initial, disk, fuel);
      run.outcome == OutOfFuel <==> |run.steps| == fuel
  {
    PackingIsGreedy(geo, spacing, weightX, initial, disk, fuel);
  }

  // ---------------------------------------------------------------------------
  // Example: the 10 by 10 square

  /** The square with corners (0,0), (0,10), (10,10), (10,0); its exterior
      ring repeats the first vertex at the end. */
  function Square(): Polygon
  {
    Polygon([Point(0.0, 0.0), Point(0.0, 10.0), Point(10.0, 10.0), Point(10.0, 0.0), Point(0.0, 0.0)], [])
  }

  /** On the one-square region the first turbine goes to the vertex of least
      score, whatever the geometry engine and the spacing. */
  lemma SquarePlacesFirst(geo: GeometryOps, spacing: real, weightX: real, fuel: nat, v: nat)
    requires fuel > 0 && IsFirstMin(Scores(weightX, Square().exterior), v)
    ensures var run := Packing(geo, spacing, weightX, [Square()], None, fuel);
      |run.steps| > 0 && Placed(run.steps)[0] == Square().exterior[v]
  {
    var sel := Selection(0, v, Square().exterior[v]);
    assert IsFirstMin(Areas(geo, [Square()]), 0);
    SelectIsChoice(geo, weightX, [Square()], sel);
    var s := PackingPass(geo, spacing, weightX, [Square()], None, fuel);
  }

  /** With weight_x = 0 three vertices of the square score 0: (0,0), (10,0)
      and the closing (0,0); the first one wins, so the first turbine goes to
      (0,0). */
  lemma SquareFirstTurbine(geo: GeometryOps, spacing: real, fuel: nat)
    requires fuel > 0
    ensures var run := Packing(geo, spacing, 0.0, [Square()], None, fuel);
      |run.steps| > 0 && Placed(run.steps)[0] == Point(0.0, 0.0)
  {
    assert Scores(0.0, Square().exterior) == [0.0, 10.0, 10.0, 0.0, 0.0];
    SquarePlacesFirst(geo, spacing, 0.0, fuel, 0);
  }

  /** With weight_x = -1 the score is y - x, least at (10,0). */
  lemma SquareWeightedFirstTurbine(geo: GeometryOps, spacing: real, fuel: nat)
    requires fuel > 0
    ensures var run := Packing(geo, spacing, -1.0, [Square()], None, fuel);
      |run.steps| > 0 && Placed(run.steps)[0] == Point(10.0, 0.0)
  {
    assert Scores(-1.0, Square().exterior) == [0.0, 10.0, 0.0, -10.0, 0.0];
    SquarePlacesFirst(geo, spacing, -1.0, fuel, 3);
  }

  // ---------------------------------------------------------------------------
  // Normalisation and the x/y split

  /** Once a greedy pass has cut its disk out, the next pass, given budget,
      stops the run normally without placing anything exactly when the
      difference left nothing: an empty collection or an empty lone polygon.
      A lone polygon that still has an exterior is a one-component region,
      so the loop goes on. */
  lemma DifferenceEndsRun(geo: GeometryOps, spacing: real, weightX: real, s: Step, fuel: nat)
    requires IsGreedyStep(geo, spacing, weightX, s) && fuel > 0
    ensures var rest := Packing(geo, spacing, weightX, s.after, Some(s.disk), fuel);
      (rest.steps == [] && rest.outcome == Finished) <==> EmptyShape(geo.difference(s.leftover, s.disk))
  {
  }

  /** Splitting points into x and y coordinates and pairing them up again
      gives back the points, and the other way round. */
  lemma SplitZipRoundTrip(ps: seq<Point>, xs: seq<real>, ys: seq<real>)
    requires |xs| == |ys|
    ensures Zip(XCoords(ps), YCoords(ps)) == ps
    ensures XCoords(Zip(xs, ys)) == xs && YCoords(Zip(xs, ys)) == ys
  {
  }
}
