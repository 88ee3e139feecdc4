/**
  Angle arithmetic, over the reals and measured in turns: a full turn is 1, M_PI is 0.5.
  The code's tolerance of 1e-6 radians is a parameter.
 */
module Angles {

  /** The position of x on the circle, in [0, 1). */
  function Turn(x: real): (t: real)
    ensures 0.0 <= t < 1.0
  {
    x - x.Floor as real
  }

  /** x and y are the same position on the circle. */
  predicate Congruent(x: real, y: real) {
    Turn(x - y) == 0.0
  }

  /** Turning by e leads from `from` to `to`. */
  predicate LeadsTo(from: real, e: real, to: real) {
    Congruent(from + e, to)
  }

  function Abs(x: real): real {
    if x < 0.0 then -x else x
  }

  function Max(x: real, y: real): real {
    if x < y then y else x
  }

  function Min(x: real, y: real): real {
    if y < x then y else x
  }

  // ---------------------------------------------------------------------------------
  // The functions of angles.h
  // ---------------------------------------------------------------------------------

  /** C's `fmod` by a full turn: the sign follows x. */
  function Fmod(x: real): real {
    if x >= 0.0 then Turn(x) else -Turn(-x)
  }

  function NormalizeAnglePositive(angle: real): real {
    Fmod(Fmod(angle) + 1.0)
  }

  function NormalizeAngle(angle: real): real {
    var a := NormalizeAnglePositive(angle);
    if a > 0.5 then a - 1.0 else a
  }

  function ShortestAngularDistance(from: real, to: real): real {
    NormalizeAngle(to - from)
  }

  function TwoPiComplement(angle: real): real {
    var a := if angle > 1.0 || angle < -1.0 then Fmod(angle) else angle;
    if a < 0.0 then 1.0 + a else if a > 0.0 then -1.0 + a else 1.0
  }

  // ---------------------------------------------------------------------------------
  // Normal forms
  // ---------------------------------------------------------------------------------

  lemma TurnUnique(x: real, k: int, t: real)
    requires 0.0 <= t < 1.0 && x == k as real + t
    ensures Turn(x) == t && x.Floor == k
  {
  }

  /** Positions subtract up to a full turn. */
  lemma TurnMinus(x: real, y: real)
    ensures Turn(x - y) == if Turn(x) >= Turn(y) then Turn(x) - Turn(y) else Turn(x) - Turn(y) + 1.0
  {
    if Turn(x) >= Turn(y) {
      TurnUnique(x - y, x.Floor - y.Floor, Turn(x) - Turn(y));
    } else {
      TurnUnique(x - y, x.Floor - y.Floor - 1, Turn(x) - Turn(y) + 1.0);
    }
  }

  lemma TurnNegate(x: real)
    ensures Turn(-x) == if Turn(x) == 0.0 then 0.0 else 1.0 - Turn(x)
  {
    TurnUnique(0.0, 0, 0.0);
    TurnMinus(0.0, x);
    assert 0.0 - x == -x;
  }

  lemma PositiveIsTurn(angle: real)
    ensures NormalizeAnglePositive(angle) == Turn(angle)
  {
    TurnNegate(angle);
    var f := Fmod(angle);
    if angle >= 0.0 {
      TurnUnique(f + 1.0, 1, f);
    } else if Turn(angle) == 0.0 {
      TurnUnique(f + 1.0, 1, 0.0);
    } else {
      TurnUnique(f + 1.0, 0, Turn(angle));
    }
  }

  /** The distance in closed form: the forward way, or the way back if that is shorter. */
  lemma DistanceIsTurn(from: real, to: real)
    ensures var t := Turn(to - from); ShortestAngularDistance(from, to) == if t > 0.5 then t - 1.0 else t
  {
    PositiveIsTurn(to - from);
  }

  lemma DistanceLeads(from: real, to: real)
    ensures LeadsTo(from, ShortestAngularDistance(from, to), to)
  {
    hide NormalizeAngle;
    DistanceIsTurn(from, to);
    var d := ShortestAngularDistance(from, to);
    TurnUnique(from + d - to, -(to - from).Floor - if Turn(to - from) > 0.5 then 1 else 0, 0.0);
  }

  /** Two ways to the same end differ by whole turns. */
  lemma WaysDiffer(from: real, to: real, d: real, e: real) returns (k: int)
    requires LeadsTo(from, d, to) && LeadsTo(from, e, to)
    ensures e == d + k as real
  {
    k := (from + e - to).Floor - (from + d - to).Floor;
  }

  /** The distance lies in (-half turn, half turn], leads from `from` to `to`, and no other way there is shorter. */
  lemma ShortestTurn(from: real, to: real)
    ensures var d := ShortestAngularDistance(from, to);
            && -0.5 < d <= 0.5
            && LeadsTo(from, d, to)
            && forall e | LeadsTo(from, e, to) :: Abs(d) <= Abs(e)
  {
    hide ShortestAngularDistance, LeadsTo, Turn;
    var d := ShortestAngularDistance(from, to);
    DistanceIsTurn(from, to);
    DistanceLeads(from, to);
    forall e | LeadsTo(from, e, to)
      ensures Abs(d) <= Abs(e)
    {
      var k := WaysDiffer(from, to, d, e);
    }
  }

  /**
    Going the other way round ends in the same position, for every angle.  An angle of at most a
    turn is changed by exactly one turn against its sign, and zero becomes a full turn.
   */
  lemma ComplementIsOtherWay(angle: real)
    ensures var c := TwoPiComplement(angle);
            && Congruent(c, angle) && -1.0 <= c <= 1.0
            && (-1.0 <= angle <= 1.0 ==> c == if angle > 0.0 then angle - 1.0 else angle + 1.0)
            && (angle < -1.0 || angle > 1.0 ==> c != 0.0)
  {
    var c := TwoPiComplement(angle);
    if angle > 1.0 || angle < -1.0 {
      var a := Fmod(angle);
      var k := if angle >= 0.0 then angle.Floor else -((-angle).Floor);
      assert angle == a + k as real;
      TurnUnique(c - angle, (if a > 0.0 then -1 else 1) - k, 0.0);
    } else {
      TurnUnique(c - angle, if angle > 0.0 then -1 else 1, 0.0);
    }
  }

  /** The degree normaliser terminates and equals the closed form. */
  method NormalizeAnglePositiveFromDegree(angle: real) returns (degree: real)
    ensures 0.0 <= degree < 360.0
    ensures degree == 360.0 * Turn(angle / 360.0)
  {
    degree := angle;
    ghost var k := 0;
    while degree >= 360.0
      invariant angle == degree + 360.0 * k as real
      invariant angle >= 0.0 ==> degree >= 0.0
      invariant angle < 0.0 ==> degree == angle
      decreases degree
    {
      degree := degree - 360.0;
      k := k + 1;
    }
    while degree < 0.0
      invariant angle == degree + 360.0 * k as real
      invariant degree < 360.0
      decreases -degree
    {
      degree := degree + 360.0;
      k := k - 1;
    }
    TurnUnique(angle / 360.0, k, degree / 360.0);
  }

  // ---------------------------------------------------------------------------------
  // Joint limits
  // ---------------------------------------------------------------------------------

  /** The way from `left` forward to x, in [0, 1). */
  function Along(left: real, x: real): real {
    Turn(x - left)
  }

  /** The pair of limits that the code treats as no limit at all. */
  predicate Unlimited(left: real, right: real) {
    left == -0.5 && right == 0.5
  }

  /** x lies on the arc from `left` forward to `right`. */
  predicate Within(x: real, left: real, right: real) {
    Along(left, x) <= Along(left, right) || Unlimited(left, right)
  }

  /** x is on a limit, or at least the tolerance away from it. */
  predicate Clear(x: real, limit: real, eps: real) {
    ShortestAngularDistance(x, limit) == 0.0 || Abs(ShortestAngularDistance(x, limit)) >= eps
  }

  lemma DistanceBack(left: real, x: real)
    ensures var a, d := Along(left, x), ShortestAngularDistance(x, left);
            d == if a >= 0.5 then 1.0 - a else -a
  {
    PositiveIsTurn(left - x);
    TurnNegate(x - left);
    assert left - x == -(x - left);
  }

  lemma DistanceAhead(left: real, x: real, right: real)
    ensures var a, w, d := Along(left, x), Along(left, right), ShortestAngularDistance(x, right);
            var ahead := if w >= a then w - a else w - a + 1.0;
            d == if ahead > 0.5 then ahead - 1.0 else ahead
  {
    PositiveIsTurn(right - x);
    TurnMinus(right - left, x - left);
    assert (right - left) - (x - left) == right - x;
  }

  /** The way from a forward to x, both measured from the left limit. */
  function Ahead(a: real, x: real): real {
    if x >= a then x - a else x - a + 1.0
  }

  /** What `find_min_max_delta` finds: the start is accepted, and may travel between min and max. */
  datatype Window = Window(ok: bool, min: real, max: real)

  /** A start at a is nearer than the tolerance to the left limit. */
  predicate NearLeft(a: real, eps: real) {
    if a >= 0.5 then 1.0 - a < eps else a < eps
  }

  /** A start at a is nearer than the tolerance to the right limit, at w. */
  predicate NearRight(a: real, w: real, eps: real) {
    if Ahead(a, w) > 0.5 then 1.0 - Ahead(a, w) < eps else Ahead(a, w) < eps
  }

  /**
    The window, for a start at a and a right limit at w, both measured from the left limit.
    A start near the left limit may go forward to the right one, or a full turn if it is on it;
    a start near the right limit only may go back to the left one.  In either case it may also
    go exactly to the limit it is near, even if that lies on the other side.  Elsewhere inside,
    the window is the allowed arc, and outside it is the forbidden one.
   */
  function TravelWindow(a: real, w: real, unlimited: bool, eps: real): Window {
    if NearLeft(a, eps) then
      Window(true, if a >= 0.5 then 1.0 - a else -a, if a == w then 1.0 else Ahead(a, w))
    else if NearRight(a, w, eps) then
      Window(true, -a, if Ahead(a, w) > 0.5 then Ahead(a, w) - 1.0 else Ahead(a, w))
    else if w < a then Window(unlimited, w - a, 1.0 - a)
    else Window(true, -a, w - a)
  }

  /** The window away from the limits and on them, in terms of positions. */
  lemma WindowMeaning(from: real, left: real, right: real, eps: real)
    requires eps > 0.0
    ensures var a, w := Along(left, from), Along(left, right);
            var window := TravelWindow(a, w, Unlimited(left, right), eps);
            var clear := Clear(from, left, eps) && Clear(from, right, eps);
            && (!clear ==> window.ok)
            && (clear && (!Congruent(left, right) || Unlimited(left, right)) ==> window.ok == Within(from, left, right))
            && (clear && Congruent(left, right) && !Unlimited(left, right) ==> window.ok == Congruent(from, left))
            && (clear && window.ok ==>
                  window.min == -a && window.max == (if Congruent(left, right) then 1.0 else w) - a)
            && (clear && !window.ok ==> window.min == w - a && window.max == 1.0 - a)
  {
    DistanceBack(left, from);
    DistanceAhead(left, from, right);
    Positions(from, left, right);
    hide ShortestAngularDistance, Turn;
  }

  /** Where the start and the right limit lie, seen from the left limit. */
  lemma Positions(from: real, left: real, right: real)
    ensures 0.0 <= Along(left, from) < 1.0 && 0.0 <= Along(left, right) < 1.0
    ensures Congruent(left, right) <==> Along(left, right) == 0.0
    ensures Congruent(from, left) <==> Along(left, from) == 0.0
    ensures Unlimited(left, right) ==> Along(left, right) == 0.0
  {
    TurnNegate(right - left);
    assert left - right == -(right - left);
    if Unlimited(left, right) {
      TurnUnique(right - left, 1, 0.0);
    }
  }

  method FindMinMaxDelta(from: real, left: real, right: real, eps: real)
    returns (ok: bool, minDelta: real, maxDelta: real)
    requires eps > 0.0
    // the window, for every start and every pair of limits
    ensures Window(ok, minDelta, maxDelta) ==
            TravelWindow(Along(left, from), Along(left, right), Unlimited(left, right), eps)
    // a start within the tolerance of a limit counts as being on it
    ensures !(Clear(from, left, eps) && Clear(from, right, eps)) ==> ok
    // otherwise the answer is exact, for limits that differ and for the unlimited pair
    ensures Clear(from, left, eps) && Clear(from, right, eps) && (!Congruent(left, right) || Unlimited(left, right)) ==>
              ok == Within(from, left, right)
    ensures Clear(from, left, eps) && Clear(from, right, eps) && Congruent(left, right) && !Unlimited(left, right) ==>
              ok == Congruent(from, left)
    // the travel window: back to the left limit, forward to the right one
    ensures Clear(from, left, eps) && Clear(from, right, eps) && ok ==>
              && minDelta == -Along(left, from)
              && maxDelta == (if Congruent(left, right) then 1.0 else Along(left, right)) - Along(left, from)
    // outside, the window spans the forbidden arc
    ensures Clear(from, left, eps) && Clear(from, right, eps) && !ok ==>
              && minDelta == Along(left, right) - Along(left, from)
              && maxDelta == 1.0 - Along(left, from)
    // near a limit, the window ends exactly at both limits
    ensures var d0, d1 := ShortestAngularDistance(from, left), ShortestAngularDistance(from, right);
            && (Abs(d0) < eps ==> minDelta == d0 && 0.0 < maxDelta <= 1.0 && LeadsTo(from, maxDelta, right))
            && (Abs(d0) >= eps > Abs(d1) ==> maxDelta == d1 && -1.0 <= minDelta < 0.0 && LeadsTo(from, minDelta, left))
  {
    hide ShortestAngularDistance, Along, Clear, Congruent, Within, LeadsTo;
    var d0 := ShortestAngularDistance(from, left);
    var d1 := ShortestAngularDistance(from, right);
    var d2 := TwoPiComplement(d0);
    var d3 := TwoPiComplement(d1);
    DistanceBack(left, from);
    DistanceAhead(left, from, right);
    Positions(from, left, right);
    WindowMeaning(from, left, right, eps);
    CongruentDistances(from, left);
    CongruentDistances(from, right);

    if Abs(d0) < eps {
      ok, minDelta, maxDelta := true, d0, Max(d1, d3);
      return;
    }
    if Abs(d1) < eps {
      ok, minDelta, maxDelta := true, Min(d0, d2), d1;
      return;
    }

    var deltaMin, deltaMin2Pi := d0, d2;
    if d2 < deltaMin {
      deltaMin, deltaMin2Pi := d2, d0;
    }
    var deltaMax, deltaMax2Pi := d1, d3;
    if d3 > deltaMax {
      deltaMax, deltaMax2Pi := d3, d1;
    }
    if deltaMin <= deltaMax2Pi || deltaMax >= deltaMin2Pi {
      minDelta, maxDelta := deltaMax2Pi, deltaMin2Pi;
      ok := left == -0.5 && right == 0.5;
      return;
    }
    ok, minDelta, maxDelta := true, deltaMin, deltaMax;
  }

  /** What an answer says about the way: it ends at `to`. */
  lemma CongruentDistances(from: real, to: real)
    ensures var d := ShortestAngularDistance(from, to);
            LeadsTo(from, d, to) && LeadsTo(from, TwoPiComplement(d), to)
  {
    DistanceIsTurn(from, to);
    DistanceLeads(from, to);
    var d := ShortestAngularDistance(from, to);
    var k := (from + d - to).Floor;
    TurnUnique(from + TwoPiComplement(d) - to, if d > 0.0 then k - 1 else k + 1, 0.0);
  }

  // ---------------------------------------------------------------------------------
  // The answer
  // ---------------------------------------------------------------------------------

  /**
    When the goal t is accepted from the start a, all measured from the left limit.  A start
    just ahead of the left limit, or just past the right one, counts as inside.  A start just
    behind the left limit is only accepted if it lies past the right limit, or on it.
   */
  predicate Accepts(a: real, w: real, t: real, unlimited: bool, eps: real) {
    if NearLeft(a, eps) then (if a < 0.5 then a < w ==> t <= w else w <= a && t <= w)
    else if NearRight(a, w, eps) then t <= w
    else unlimited || (a <= w && t <= w)
  }

  /** The starts and goals for which the answer differs from what the documentation promises. */
  predicate Misjudged(a: real, w: real, t: real, unlimited: bool, eps: real) {
    if NearLeft(a, eps) then
      if unlimited then a >= 0.5 && t != 0.0
      else if a < 0.5 then w < a || (w == a && t > w)
      else w != a && t <= w
    else NearRight(a, w, eps) && !unlimited && w < a && t <= w
  }

  /** The forward way and the way back that lead from a to t: Forward and Forward less a turn. */
  function Forward(a: real, t: real): real {
    if t == a then 1.0 else Ahead(a, t)
  }

  /** Forward if x is the smaller, back if y is, and the shorter way if they are equal. */
  function Pick(x: real, y: real, forward: real): real {
    if Abs(x) < Abs(y) then forward
    else if Abs(x) > Abs(y) then forward - 1.0
    else if forward < 0.5 then forward else forward - 1.0
  }

  predicate Allows(window: Window, way: real) {
    window.min <= way <= window.max
  }

  /** Something leads from the start to the goal inside the window exactly when the goal is accepted. */
  lemma AcceptsIffAllowed(a: real, w: real, t: real, unlimited: bool, eps: real)
    requires 0.0 <= a < 1.0 && 0.0 <= w < 1.0 && 0.0 <= t < 1.0 && eps > 0.0 && (unlimited ==> w == 0.0)
    ensures var window, forward := TravelWindow(a, w, unlimited, eps), Forward(a, t);
            Accepts(a, w, t, unlimited, eps)
            <==> window.ok && (Allows(window, forward) || Allows(window, forward - 1.0))
  {
  }

  /** The two ways from the start to the goal. */
  lemma TwoWays(from: real, to: real, left: real)
    ensures var d, forward := ShortestAngularDistance(from, to), Forward(Along(left, from), Along(left, to));
            && 0.0 < forward <= 1.0
            && d == (if forward <= 0.5 then forward else forward - 1.0)
            && TwoPiComplement(d) == (if forward <= 0.5 then forward - 1.0 else forward)
            && LeadsTo(from, forward, to) && LeadsTo(from, forward - 1.0, to)
  {
    DistanceAhead(left, from, to);
    CongruentDistances(from, to);
  }

  /** The documented answer and the actual one, for all starts, goals and limits. */
  lemma AnswerMeaning(from: real, to: real, left: real, right: real, eps: real)
    requires eps > 0.0
    ensures var a, w, t := Along(left, from), Along(left, right), Along(left, to);
            var accepts := Accepts(a, w, t, Unlimited(left, right), eps);
            (accepts <==> Within(from, left, right) && Within(to, left, right))
            <==> !Misjudged(a, w, t, Unlimited(left, right), eps)
  {
    Positions(from, left, right);
    Positions(to, left, right);
  }

  /** For example: a start just behind the left limit is accepted, and lies outside. */
  lemma AcceptedFromOutside(eps: real)
    requires 0.0 < eps <= 0.25
    ensures var from, to, left, right := -eps / 2.0, 0.1, 0.0, 0.25;
            && !Within(from, left, right)
            && Accepts(Along(left, from), Along(left, right), Along(left, to), Unlimited(left, right), eps)
  {
    TurnUnique(-eps / 2.0 - 0.0, -1, 1.0 - eps / 2.0);
    TurnUnique(0.25 - 0.0, 0, 0.25);
    TurnUnique(0.1 - 0.0, 0, 0.1);
  }

  /** For example: with no limits at all, a start just below half a turn is not allowed to go to zero. */
  lemma RefusedWithoutLimits(eps: real)
    requires 0.0 < eps <= 0.25
    ensures var from, to, left, right := 0.5 - eps / 2.0, 0.0, -0.5, 0.5;
            && Within(from, left, right) && Within(to, left, right)
            && !Accepts(Along(left, from), Along(left, right), Along(left, to), Unlimited(left, right), eps)
  {
    TurnUnique(0.5 - eps / 2.0 + 0.5, 0, 1.0 - eps / 2.0);
    TurnUnique(0.5 + 0.5, 1, 0.0);
    TurnUnique(0.0 + 0.5, 0, 0.5);
  }

  /** Away from the limits and on them, the only misjudged start is a limit that is its own opposite limit. */
  lemma AnswerWhenClear(from: real, to: real, left: real, right: real, eps: real)
    requires eps > 0.0
    ensures var a, w, t := Along(left, from), Along(left, right), Along(left, to);
            var ownOpposite := Congruent(left, right) && !Unlimited(left, right) && Congruent(from, left);
            var unlimited := Unlimited(left, right);
            Clear(from, left, eps) && Clear(from, right, eps) ==>
              && (Misjudged(a, w, t, unlimited, eps) <==> ownOpposite && !Congruent(to, left))
              && (Accepts(a, w, t, unlimited, eps) && !Congruent(left, right) ==> a <= w && t <= w)
  {
    DistanceBack(left, from);
    DistanceAhead(left, from, right);
    Positions(from, left, right);
    Positions(to, left, right);
    hide ShortestAngularDistance;
  }

  lemma PickSigns(x: real, y: real, forward: real)
    requires 0.0 < forward <= 1.0
    ensures var way := Pick(x, y, forward);
            && (way == forward || way == forward - 1.0)
            && (Abs(x) < Abs(y) ==> way > 0.0)
            && (Abs(x) > Abs(y) ==> way <= 0.0)
            && (Abs(x) == Abs(y) ==> -0.5 <= way < 0.5)
  {
  }

  /** A way that is refused, between positions off the limits, starts or ends outside; the window tells how far. */
  lemma RefusedWhenClear(from: real, to: real, left: real, right: real, eps: real)
    requires eps > 0.0
    ensures var a, w, t := Along(left, from), Along(left, right), Along(left, to);
            var unlimited := Unlimited(left, right);
            var start, goal := TravelWindow(a, w, unlimited, eps), TravelWindow(t, w, unlimited, eps);
            Clear(from, left, eps) && Clear(from, right, eps) && Clear(to, left, eps) && Clear(to, right, eps)
            && !Congruent(left, right) && !Accepts(a, w, t, unlimited, eps) ==>
              (if a <= w then start.ok && w < t && goal.min == w - t && goal.max == 1.0 - t else !start.ok)
  {
    Positions(from, left, right);
    Positions(to, left, right);
    WindowMeaning(from, left, right, eps);
    WindowMeaning(to, left, right, eps);
    AnswerMeaning(from, to, left, right, eps);
    AnswerWhenClear(from, to, left, right, eps);
    hide Along, TravelWindow, Clear, Misjudged, Accepts;
  }

  method ShortestAngularDistanceWithLimits(from: real, to: real, left: real, right: real, eps: real)
    returns (ok: bool, shortest: real)
    requires eps > 0.0
    // the way always ends at `to`
    ensures LeadsTo(from, shortest, to)
    // the answer, for every start, goal and pair of limits
    ensures var a, w, t := Along(left, from), Along(left, right), Along(left, to);
            && (ok <==> Accepts(a, w, t, Unlimited(left, right), eps))
            // it says that both ends are inside the limits, exactly unless misjudged
            && ((ok <==> Within(from, left, right) && Within(to, left, right))
                <==> !Misjudged(a, w, t, Unlimited(left, right), eps))
    // the way returned: inside the window, and the shorter one if both are
    ensures var a, w, t := Along(left, from), Along(left, right), Along(left, to);
            var window := TravelWindow(a, w, Unlimited(left, right), eps);
            var forward := Forward(a, t);
            ok ==> shortest ==
                   if Allows(window, forward) && (forward <= 0.5 || !Allows(window, forward - 1.0)) then forward
                   else forward - 1.0
    // the way returned with a refusal: from outside towards the nearer limit, to the outside over the nearer limit
    ensures var a, w, t := Along(left, from), Along(left, right), Along(left, to);
            var start := TravelWindow(a, w, Unlimited(left, right), eps);
            var goal := TravelWindow(t, w, Unlimited(left, right), eps);
            !ok ==> shortest == if start.ok then Pick(goal.min, goal.max, Forward(a, t))
                                else Pick(1.0 - a, a - w, Forward(a, t))
    // in signs: forward or back, and the shorter way if there is nothing to choose
    ensures var a, w, t := Along(left, from), Along(left, right), Along(left, to);
            var start := TravelWindow(a, w, Unlimited(left, right), eps);
            var goal := TravelWindow(t, w, Unlimited(left, right), eps);
            var x, y := if start.ok then goal.min else 1.0 - a, if start.ok then goal.max else a - w;
            !ok ==>
              && -1.0 < shortest <= 1.0
              && (Abs(x) < Abs(y) ==> shortest > 0.0)
              && (Abs(x) > Abs(y) ==> shortest <= 0.0)
              && (Abs(x) == Abs(y) ==> -0.5 <= shortest < 0.5)
    // in positions, off the limits: the way leads over the limit that is nearer to the end outside
    ensures var a, w, t := Along(left, from), Along(left, right), Along(left, to);
            Clear(from, left, eps) && Clear(from, right, eps) && Clear(to, left, eps) && Clear(to, right, eps)
            && !Congruent(left, right) && !ok ==>
              if a <= w then
                && (t - w < 1.0 - t ==> shortest > 0.0)
                && (t - w > 1.0 - t ==> shortest <= 0.0)
                && (t - w == 1.0 - t ==> -0.5 <= shortest < 0.5)
              else
                && (1.0 - a < a - w ==> shortest > 0.0)
                && (1.0 - a > a - w ==> shortest <= 0.0)
                && (1.0 - a == a - w ==> -0.5 <= shortest < 0.5)
    // success means both ends are inside the limits, except from a limit that is its own opposite limit
    ensures Clear(from, left, eps) && Clear(from, right, eps) ==>
              ((ok <==> Within(from, left, right) && Within(to, left, right)) <==>
               !(Congruent(left, right) && !Unlimited(left, right) && Congruent(from, left) && !Congruent(to, left)))
    // the way returned is the one inside the limits
    ensures Clear(from, left, eps) && Clear(from, right, eps) && ok && !Congruent(left, right) ==>
              shortest == Along(left, to) - Along(left, from)
    ensures Clear(from, left, eps) && Clear(from, right, eps) && ok && Congruent(left, right) ==>
              -Along(left, from) <= shortest <= 1.0 - Along(left, from)
  {
    hide ShortestAngularDistance, TwoPiComplement, LeadsTo, Along, Clear, Within, Congruent, Misjudged, Accepts,
      TravelWindow, Unlimited;
    var flag, minDelta, maxDelta := FindMinMaxDelta(from, left, right, eps);
    var delta := ShortestAngularDistance(from, to);
    var deltaMod2Pi := TwoPiComplement(delta);
    Positions(from, left, right);
    Positions(to, left, right);
    TwoWays(from, to, left);
    AcceptsIffAllowed(Along(left, from), Along(left, right), Along(left, to), Unlimited(left, right), eps);
    AnswerMeaning(from, to, left, right, eps);
    WindowMeaning(from, left, right, eps);
    AnswerWhenClear(from, to, left, right, eps);
    RefusedWhenClear(from, to, left, right, eps);

    if flag {
      if delta >= minDelta && delta <= maxDelta {
        return true, delta;
      } else if deltaMod2Pi >= minDelta && deltaMod2Pi <= maxDelta {
        return true, deltaMod2Pi;
      } else {
        var _, minDeltaTo, maxDeltaTo := FindMinMaxDelta(to, left, right, eps);
        if Abs(minDeltaTo) < Abs(maxDeltaTo) {
          shortest := Max(delta, deltaMod2Pi);
        } else if Abs(minDeltaTo) > Abs(maxDeltaTo) {
          shortest := Min(delta, deltaMod2Pi);
        } else {
          shortest := if Abs(delta) < Abs(deltaMod2Pi) then delta else deltaMod2Pi;
        }
        return false, shortest;
      }
    } else {
      if Abs(minDelta) < Abs(maxDelta) {
        shortest := Min(delta, deltaMod2Pi);
      } else if Abs(minDelta) > Abs(maxDelta) {
        shortest := Max(delta, deltaMod2Pi);
      } else {
        shortest := if Abs(delta) < Abs(deltaMod2Pi) then delta else deltaMod2Pi;
      }
      return false, shortest;
    }
  }

  /**
    The way returned is the only one that stays inside the limits: every position on it is
    within them, and every other way to the same end leaves the travel window.
   */
  lemma WayStaysInside(from: real, to: real, left: real, right: real)
    requires !Congruent(left, right) && Within(from, left, right) && Within(to, left, right)
    ensures var way := Along(left, to) - Along(left, from);
            && LeadsTo(from, way, to)
            && (forall y | Min(from, from + way) <= y <= Max(from, from + way) :: Within(y, left, right))
            && (forall e | LeadsTo(from, e, to) && e != way ::
                  e < -Along(left, from) || e > Along(left, right) - Along(left, from))
  {
    var a, t := Along(left, from), Along(left, to);
    var way := t - a;
    var base, goal := (from - left).Floor, (to - left).Floor;
    TurnUnique(from + way - to, base - goal, 0.0);
    forall y | Min(from, from + way) <= y <= Max(from, from + way)
      ensures Within(y, left, right)
    {
      TurnUnique(y - left, base, a + (y - from));
    }
    forall e | LeadsTo(from, e, to) && e != way
      ensures e < -a || e > Along(left, right) - a
    {
      assert e - way == ((from + e - to).Floor - base + goal) as real;
    }
  }

  /** The distances that decide whether x is clear of both limits, read off the positions on the circle. */
  lemma ClearAt(x: real, left: real, right: real, eps: real)
    ensures var a, ahead := Along(left, x), Ahead(Along(left, x), Along(left, right));
            eps <= a <= 1.0 - eps && eps <= ahead <= 1.0 - eps ==> Clear(x, left, eps) && Clear(x, right, eps)
  {
    DistanceBack(left, x);
    DistanceAhead(left, x, right);
    hide ShortestAngularDistance;
  }

  lemma ExamplePositions()
    ensures Along(0.05, -0.1) == 0.85 && Along(0.05, -0.05) == 0.9 && Along(0.05, 0.1) == 0.05
    ensures Along(-0.05, -0.1) == 0.95 && Along(-0.05, 0.05) == 0.1 && Along(-0.05, 0.1) == 0.15
  {
    TurnUnique(-0.1 - 0.05, -1, 0.85);
    TurnUnique(-0.05 - 0.05, -1, 0.9);
    TurnUnique(0.1 - 0.05, 0, 0.05);
    TurnUnique(-0.1 - -0.05, -1, 0.95);
    TurnUnique(0.05 - -0.05, 0, 0.1);
    TurnUnique(0.1 - -0.05, 0, 0.15);
  }

  /**
    The shape of the two examples in the header comment, measured in turns: from -1/10 to 1/10,
    the wide limits allow only the long way, which runs backwards, and the narrow ones nothing.
   */
  method DocumentedExamples(eps: real) returns (wide: bool, longWay: real, narrow: bool, shortWay: real)
    requires 0.0 < eps <= 0.01
    ensures wide && longWay == -0.8
    ensures !narrow && shortWay == 0.2
  {
    hide ShortestAngularDistance, Clear, Along, LeadsTo, Misjudged;
    ExamplePositions();
    ClearAt(-0.1, 0.05, -0.05, eps);
    ClearAt(-0.1, -0.05, 0.05, eps);
    Positions(-0.1, 0.05, -0.05);
    Positions(-0.1, -0.05, 0.05);
    wide, longWay := ShortestAngularDistanceWithLimits(-0.1, 0.1, 0.05, -0.05, eps);
    narrow, shortWay := ShortestAngularDistanceWithLimits(-0.1, 0.1, -0.05, 0.05, eps);
  }
}
