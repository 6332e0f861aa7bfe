/** The angular part of the Ping360 driver: choosing a step and an aperture, and moving the head. */
module Ping360 {
  import opened HeadScan

  function Abs(x: int): int {
    if x < 0 then -x else x
  }

  /** Half of an aperture in degrees, in gradians, to the nearest. */
  function HalfAperture(apertureDeg: nat): (g: nat)
    ensures 18 * g - 9 <= 10 * apertureDeg <= 18 * g + 9
  {
    (10 * apertureDeg + 9) / 18
  }

  function GradianStep(stepDeg: nat): (g: nat)
    ensures 18 * g - 9 <= 20 * stepDeg <= 18 * g + 9
  {
    (20 * stepDeg + 9) / 18
  }

  /** The full aperture in degrees, to the nearest. */
  function ApertureDegrees(half: nat): (d: nat)
    ensures 10 * d - 5 <= 18 * half <= 10 * d + 4
  {
    (18 * half + 5) / 10
  }

  function StepDegrees(step: nat): (d: nat)
    ensures 10 * d - 5 <= 9 * step <= 10 * d + 4
  {
    (9 * step + 5) / 10
  }

  // ------------------------------------------------------------------ the search

  datatype Choice = Choice(step: int, half: int)

  function Cost(c: Choice, target: Choice): int
    requires c.step > 0
  {
    if c.half % c.step != 0 then 1000 else Abs(c.step - target.step) + Abs(c.half - target.half)
  }

  function LargestHalf(target: Choice): int {
    if target.half + 10 < 200 then target.half + 10 else 200
  }

  /** The pairs that the search looks at. */
  ghost predicate InBox(c: Choice, target: Choice) {
    1 <= c.step < target.step * 2 && target.half <= c.half <= LargestHalf(target)
  }

  predicate Before(c: Choice, d: Choice) {
    c.step < d.step || (c.step == d.step && c.half < d.half)
  }

  /** The outcome of the search: the target itself, unless a pair in the box costs less; then the first
      of the cheapest. */
  ghost predicate Chosen(c: Choice, target: Choice)
    requires target.step > 0
  {
    && c.step > 0
    && (c == target || (InBox(c, target) && Cost(c, target) < Cost(target, target)))
    && (forall d | InBox(d, target) :: Cost(c, target) <= Cost(d, target))
    && (c != target ==> forall d | InBox(d, target) && Before(d, c) :: Cost(c, target) < Cost(d, target))
  }

  /** At most one outcome. */
  lemma ChosenIsUnique(c: Choice, d: Choice, target: Choice)
    requires target.step > 0 && Chosen(c, target) && Chosen(d, target)
    ensures c == d
  {
    assert c == d || Before(c, d) || Before(d, c);
  }

  /** A step below twice the wanted one that divides a half-aperture of at most ten gradians more. */
  ghost predicate Candidate(step: int, half: int, target: Choice) {
    1 <= step <= 2 * target.step - 1 && target.half <= half <= target.half + 10 && half <= 200 && half % step == 0
  }

  function Distance(step: int, half: int, target: Choice): int {
    (if step >= target.step then step - target.step else target.step - step)
    + (if half >= target.half then half - target.half else target.half - half)
  }

  ghost predicate SomeCandidate(target: Choice) {
    exists step, half :: Candidate(step, half, target) && Distance(step, half, target) < 1000
  }

  /** As near as any candidate; and of the nearest the one with the smallest step, then the smallest aperture. */
  ghost predicate Nearest(c: Choice, target: Choice) {
    && Candidate(c.step, c.half, target)
    && forall step, half | Candidate(step, half, target) ::
         || Distance(c.step, c.half, target) < Distance(step, half, target)
         || (Distance(c.step, c.half, target) == Distance(step, half, target)
             && (c.step < step || (c.step == step && c.half <= half)))
  }

  /** The outcome of the search, by distances: the wanted pair if its step divides its aperture or no candidate is
      nearer than 1000; otherwise the nearest candidate. */
  lemma ChosenMeans(c: Choice, target: Choice)
    requires target.step > 0
    ensures Chosen(c, target) <==>
              if target.half % target.step == 0 || !SomeCandidate(target) then c == target else Nearest(c, target)
  {
    if Chosen(c, target) {
      ChosenIsNearest(c, target);
    }
    if if target.half % target.step == 0 || !SomeCandidate(target) then c == target else Nearest(c, target) {
      NearestIsChosen(c, target);
    }
  }

  lemma CostMeans(d: Choice, target: Choice)
    requires d.step > 0
    ensures Cost(d, target) == if d.half % d.step == 0 then Distance(d.step, d.half, target) else 1000
    ensures Candidate(d.step, d.half, target) <==> InBox(d, target) && d.half % d.step == 0
    ensures Cost(d, target) >= 0
  {
  }

  lemma ChosenIsNearest(c: Choice, target: Choice)
    requires target.step > 0 && Chosen(c, target)
    ensures if target.half % target.step == 0 || !SomeCandidate(target) then c == target else Nearest(c, target)
  {
    CostMeans(c, target);
    CostMeans(target, target);
    forall step, half | Candidate(step, half, target)
      ensures InBox(Choice(step, half), target) && Cost(Choice(step, half), target) == Distance(step, half, target)
    {
      CostMeans(Choice(step, half), target);
    }
    if target.half % target.step != 0 && SomeCandidate(target) {
      var step, half :| Candidate(step, half, target) && Distance(step, half, target) < 1000;
      assert Cost(c, target) <= Cost(Choice(step, half), target) < 1000;
      forall step, half | Candidate(step, half, target)
        ensures Distance(c.step, c.half, target) <= Distance(step, half, target)
        ensures Before(Choice(step, half), c) ==> Distance(c.step, c.half, target) < Distance(step, half, target)
      {
        assert InBox(Choice(step, half), target);
      }
    }
  }

  lemma NearestIsChosen(c: Choice, target: Choice)
    requires target.step > 0
    requires if target.half % target.step == 0 || !SomeCandidate(target) then c == target else Nearest(c, target)
    ensures Chosen(c, target)
  {
    CostMeans(c, target);
    CostMeans(target, target);
    forall d | InBox(d, target)
      ensures Cost(c, target) <= Cost(d, target)
      ensures c != target && Before(d, c) ==> Cost(c, target) < Cost(d, target)
    {
      CostMeans(d, target);
      assert Candidate(d.step, d.half, target) ==> Cost(d, target) == Distance(d.step, d.half, target);
    }
  }

  /** The chosen step divides the chosen half-aperture exactly when the target's does, or the aperture
      is at most a full turn and the step is less than 1000 gradians beyond the half-aperture. */
  lemma ChosenDivides(c: Choice, target: Choice)
    requires target.step > 0 && target.half >= 0 && Chosen(c, target)
    ensures c.half % c.step == 0
            <==> target.half % target.step == 0 || (target.half <= 200 && target.step - target.half < 1000)
  {
    if target.half % target.step == 0 {
      assert Cost(target, target) == 0;
    } else if target.half <= 200 && target.step - target.half < 1000 {
      // a step equal to the half-aperture costs the difference; a step of one, one less than the target
      var d := if target.step <= 1000 then Choice(1, target.half) else Choice(target.half, target.half);
      SelfDivides(d.step);
      assert InBox(d, target) && Cost(d, target) < 1000;
    } else if c != target && c.half % c.step == 0 {
      DivisorIsSmaller(c.half, c.step);
      assert false;
    }
  }

  lemma SelfDivides(s: int)
    requires s > 0
    ensures s % s == 0
  {
  }

  lemma DivisorIsSmaller(half: int, step: int)
    requires step > 0 && half % step == 0 && half > 0
    ensures step <= half
  {
  }

  /** The reported aperture, asked for again, gives the same half-aperture; the reported step does so
      unless it ends in a five. */
  lemma ReportsAreStable(half: nat, step: nat)
    ensures HalfAperture(ApertureDegrees(half)) == half
    ensures GradianStep(StepDegrees(step)) == step <==> step % 10 != 5
  {
    StepByTens(step / 10, step % 10);
  }

  lemma StepByTens(q: nat, r: nat)
    requires r < 10
    ensures GradianStep(StepDegrees(10 * q + r)) == 10 * q + r <==> r != 5
  {
    assert StepDegrees(10 * q + r) == 9 * q + StepDegrees(r);
    assert GradianStep(9 * q + StepDegrees(r)) == 10 * q + GradianStep(StepDegrees(r));
  }

  /** The angle is one of those that a turn from min to max visits. */
  predicate OnGrid(angle: int, min: int, max: int, step: int)
    requires step > 0
  {
    min <= angle <= max && (angle - min) % step == 0
  }

  lemma HeadingOnGrid(half: int, step: int)
    requires step > 0 && half >= 0
    ensures OnGrid(0, -half, if half == 200 then half - step else half, step) <==> half % step == 0
  {
    if half > 0 && half % step == 0 {
      DivisorIsSmaller(half, step);
    }
  }

  class Interface {
    var angleMin: int
    var angleMax: int
    var angleStep: int
    var angle: int

    constructor ()
      ensures Abstract() == Head(0, 0, 0, 0)
    {
      angleMin, angleMax, angleStep, angle := 0, 0, 0, 0;
    }

    function Abstract(): Head
      reads this
    {
      Head(angleMin, angleMax, angleStep, angle)
    }

    predicate FullScan()
      reads this
    {
      angleMin == -200
    }

    /** The search around the requested step and aperture. */
    method Search(target: Choice) returns (best: Choice)
      requires target.step > 0
      ensures Chosen(best, target)
    {
      best := target;
      var bestCost := Cost(best, target);
      if bestCost != 0 {
        var last := LargestHalf(target);
        var step := 1;
        while step < target.step * 2
          invariant 1 <= step <= target.step * 2
          invariant BestSoFar(best, bestCost, target, Choice(step, target.half))
        {
          var half := target.half;
          while half <= last
            invariant target.half <= half
            invariant half <= last + 1 || half == target.half
            invariant BestSoFar(best, bestCost, target, Choice(step, half))
          {
            var cost := Cost(Choice(step, half), target);
            BestWithPair(best, bestCost, target, Choice(step, half));
            if cost < bestCost {
              best, bestCost := Choice(step, half), cost;
            }
            half := half + 1;
          }
          BestWithRow(best, bestCost, target, step, half);
          step := step + 1;
        }
      }
    }

    /** Sets the limits and the step, keeps the current angle if it is on the new grid and returns to the
        heading otherwise.  Reports the aperture and the step in degrees. */
    method ConfigureAngles(apertureDeg: nat, stepDeg: nat, ensureDivisor: bool) returns (sector: nat, step: nat)
      requires stepDeg > 0
      modifies this
      ensures var target := Choice(GradianStep(stepDeg), HalfAperture(apertureDeg));
              var c := Choice(angleStep, -angleMin);
              && (if ensureDivisor then Chosen(c, target) else c == target)
              && sector == ApertureDegrees(c.half) && step == StepDegrees(c.step)
      ensures angleStep > 0 && angleMax == -angleMin - if FullScan() then angleStep else 0
      ensures angle == if OnGrid(old(angle), angleMin, angleMax, angleStep) then old(angle) else 0
      ensures OnGrid(angle, angleMin, angleMax, angleStep)
              <==> OnGrid(old(angle), angleMin, angleMax, angleStep) || -angleMin % angleStep == 0
    {
      var half := HalfAperture(apertureDeg);
      angleStep := GradianStep(stepDeg);
      if ensureDivisor {
        var best := Search(Choice(angleStep, half));
        angleStep, half := best.step, best.half;
      }
      angleMin, angleMax := -half, half;
      if FullScan() {
        angleMax := angleMax - angleStep;
      }
      KeepAngle(half);
      sector, step := ApertureDegrees(half), StepDegrees(angleStep);
    }

    /** The angle is kept on the new grid and reset to the heading off it. */
    method KeepAngle(ghost half: int)
      requires angleStep > 0 && half >= 0 && angleMin == -half
      requires angleMax == half - if half == 200 then angleStep else 0
      modifies this`angle
      ensures angle == if OnGrid(old(angle), angleMin, angleMax, angleStep) then old(angle) else 0
      ensures OnGrid(angle, angleMin, angleMax, angleStep)
              <==> OnGrid(old(angle), angleMin, angleMax, angleStep) || -angleMin % angleStep == 0
    {
      if angle < angleMin || angle > angleMax || (angle - angleMin) % angleStep != 0 {
        angle := 0;
      }
      HeadingOnGrid(half, angleStep);
    }

    /** Moves the head and tells whether a turn ends. */
    method UpdateAngle() returns (turn: bool)
      modifies this
      ensures (Abstract(), turn) == Updated(old(Abstract()))
    {
      angle := angle + angleStep;
      if FullScan() {
        turn := angle + angleStep > angleMax;
        if angle > angleMax {
          angle := angleMin;
        }
        return;
      }
      if angle + angleStep >= angleMax || angle + angleStep <= angleMin {
        angleStep := angleStep * -1;
        return true;
      }
      return false;
    }

    /** A run of updates: the angles pinged and the turns reported. */
    method Scan(n: nat) returns (angles: seq<int>, turns: seq<bool>)
      modifies this
      ensures Abstract() == After(old(Abstract()), n) && |angles| == |turns| == n
      ensures forall k | 0 <= k < n :: angles[k] == PingAngle(old(Abstract()), k + 1)
                                       && turns[k] == Turns(old(Abstract()), k + 1)
    {
      angles, turns := [], [];
      ghost var first := Abstract();
      for i := 0 to n
        invariant |angles| == |turns| == i && Abstract() == After(first, i)
        invariant forall k | 0 <= k < i :: angles[k] == PingAngle(first, k + 1) && turns[k] == Turns(first, k + 1)
      {
        var turn := UpdateAngle();
        angles, turns := angles + [angle], turns + [turn];
      }
    }
  }

  /** A multiple of the step strictly inside the sector, with a turn exactly at the two outermost. */
  predicate SectorPing(half: int, s: int, angle: int, turn: bool)
    requires s > 0
  {
    && -half < angle < half && angle % s == 0
    && (turn <==> angle == half - s || angle == -(half - s))
  }

  /** The k-th ping of a full scan that starts at the heading. */
  predicate FullPing(s: int, k: int, angle: int) {
    angle == -200 + (200 + k * s) % 400
  }

  ghost predicate SectorScan(half: int, s: int, angles: seq<int>, turns: seq<bool>)
    requires s > 0 && |angles| == |turns|
  {
    forall k | 0 <= k < |angles| :: SectorPing(half, s, angles[k], turns[k])
  }

  ghost predicate FullTurns(s: int, angles: seq<int>) {
    forall k | 0 <= k < |angles| :: FullPing(s, k + 1, angles[k])
  }

  /** The head of a new interface, configured: it points ahead. */
  function Ahead(c: Choice): Head {
    Head(-c.half, if c.half == 200 then c.half - c.step else c.half, c.step, 0)
  }

  /** A new interface, configured, over a run. */
  method ScanAhead(apertureDeg: nat, stepDeg: nat, n: nat) returns (c: Choice, angles: seq<int>, turns: seq<bool>)
    requires stepDeg > 0
    ensures Chosen(c, Choice(GradianStep(stepDeg), HalfAperture(apertureDeg)))
    ensures |angles| == |turns| == n
    ensures forall k | 0 <= k < n :: angles[k] == PingAngle(Ahead(c), k + 1) && turns[k] == Turns(Ahead(c), k + 1)
  {
    var head := new Interface();
    var _, _ := head.ConfigureAngles(apertureDeg, stepDeg, true);
    c := Choice(head.angleStep, -head.angleMin);
    assert head.Abstract() == Ahead(c);
    angles, turns := head.Scan(n);
  }

  /** A freshly configured head at the heading, over a whole run: in a sector every ping is a multiple of
      the step strictly inside it and the turns are at the two outermost; in a full scan the pings go
      round the turn in equal steps. */
  method ConfigureAndScan(apertureDeg: nat, stepDeg: nat, n: nat)
    returns (c: Choice, angles: seq<int>, turns: seq<bool>)
    requires stepDeg > 0 && HalfAperture(apertureDeg) <= 200
    requires GradianStep(stepDeg) - HalfAperture(apertureDeg) < 1000
    ensures Chosen(c, Choice(GradianStep(stepDeg), HalfAperture(apertureDeg))) && c.half % c.step == 0
    ensures |angles| == |turns| == n
    ensures c.half != 200 && 2 * c.step <= c.half ==> SectorScan(c.half, c.step, angles, turns)
    ensures c.half == 200 ==> FullTurns(c.step, angles)
  {
    c, angles, turns := ScanAhead(apertureDeg, stepDeg, n);
    ScanOfChosen(c, Choice(GradianStep(stepDeg), HalfAperture(apertureDeg)), angles, turns);
  }

  lemma ScanOfChosen(c: Choice, target: Choice, angles: seq<int>, turns: seq<bool>)
    requires target.step > 0 && 0 <= target.half <= 200 && target.step - target.half < 1000 && Chosen(c, target)
    requires |angles| == |turns|
    requires forall k | 0 <= k < |angles| :: angles[k] == PingAngle(Ahead(c), k + 1) && turns[k] == Turns(Ahead(c), k + 1)
    ensures c.half % c.step == 0
    ensures c.half != 200 && 2 * c.step <= c.half ==> SectorScan(c.half, c.step, angles, turns)
    ensures c.half == 200 ==> FullTurns(c.step, angles)
  {
    ChosenDivides(c, target);
    forall k | 0 <= k < |angles|
      ensures c.half != 200 && 2 * c.step <= c.half ==> SectorPing(c.half, c.step, angles[k], turns[k])
      ensures c.half == 200 ==> FullPing(c.step, k + 1, angles[k])
    {
      FromHeading(Ahead(c), c.half, c.step, k + 1);
    }
  }

  lemma FromHeading(h: Head, half: int, s: int, k: nat)
    requires s > 0 && half >= 0 && half % s == 0 && k > 0
    requires h == Head(-half, if half == 200 then half - s else half, s, 0)
    ensures half != 200 && 2 * s <= half ==> SectorPing(half, s, PingAngle(h, k), Turns(h, k))
    ensures half == 200 ==> FullPing(s, k, PingAngle(h, k))
  {
    if half == 200 {
      DivisorIsSmaller(200, s);
      assert 400 == (2 * (200 / s)) * s;
      ModUnique(400, s, 2 * (200 / s), 0);
      FullTurnAngles(h, k);
    } else if 2 * s <= half {
      var n := half / s;
      if n < 2 {
        GridOrder(n, 2, s);
        assert false;
      }
      DivisorSweep(h, half, n, k);
    }
  }

  /** Configuring again while the head stands at the upper turning point keeps its angle but makes the step
      positive: the next ping is at the edge of the sector, outside the pings of a sweep, and then all are
      inside again. */
  lemma ReconfiguredAtTurn(h: Head, half: int, k: nat)
    requires 0 < h.step < half && half % h.step == 0 && half != 200 && k >= 2
    requires h == Head(-half, half, h.step, half - h.step)
    ensures OnGrid(h.angle, -half, half, h.step) && PingAngle(h, 1) == half
    ensures -half < PingAngle(h, k) < half
  {
    var q := half / h.step;
    assert h.angle - -half == (2 * q - 1) * h.step;
    ModUnique(h.angle - -half, h.step, 2 * q - 1, 0);
    assert After(h, 0) == h && After(h, 1) == Head(-half, half, -h.step, half) && PingAngle(h, 2) == h.angle;
    if k >= 3 {
      Recovers(h, half, k);
    }
  }

  /** The search is done up to the given pair. */
  ghost predicate BestSoFar(best: Choice, bestCost: int, target: Choice, next: Choice)
    requires target.step > 0
  {
    && best.step > 0 && bestCost == Cost(best, target)
    && (best == target || (InBox(best, target) && Before(best, next) && bestCost < Cost(target, target)))
    && (forall d | InBox(d, target) && Before(d, next) :: bestCost <= Cost(d, target))
    && (best != target ==> forall d | InBox(d, target) && Before(d, best) :: bestCost < Cost(d, target))
  }

  /** One more pair is looked at. */
  lemma BestWithPair(best: Choice, bestCost: int, target: Choice, next: Choice)
    requires target.step > 0 && InBox(next, target) && BestSoFar(best, bestCost, target, next)
    ensures var after, cost := next.(half := next.half + 1), Cost(next, target);
            if cost < bestCost then BestSoFar(next, cost, target, after) else BestSoFar(best, bestCost, target, after)
  {
    assert forall d :: Before(d, next.(half := next.half + 1)) <==> Before(d, next) || d == next;
  }

  /** The pairs with one step are done. */
  lemma BestWithRow(best: Choice, bestCost: int, target: Choice, step: int, half: int)
    requires target.step > 0 && half > LargestHalf(target) && BestSoFar(best, bestCost, target, Choice(step, half))
    ensures BestSoFar(best, bestCost, target, Choice(step + 1, target.half))
  {
    assert forall d | InBox(d, target) ::
        Before(d, Choice(step + 1, target.half)) <==> Before(d, Choice(step, half));
  }
}
