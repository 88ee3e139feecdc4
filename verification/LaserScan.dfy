/**
  The node's `publish_msg`: the points of a scan are dropped into as many equal angle cells
  as there are points, in the clockwise direction.  Angles are hundredths of a degree,
  ranges are millimetres, and the cell of a point is computed exactly.
 */
module LaserScan {
  import opened Decode

  datatype Cell = NaN | Value(v: nat)

  /** The limits and the direction of the message: angles in hundredths of a degree, ranges in millimetres. */
  datatype Limits = Limits(angleMin: real, angleMax: real, rangeMin: real, rangeMax: real, clockwise: bool)

  datatype Grid = Grid(ranges: seq<Cell>, intensities: seq<Cell>, last: nat)

  /** The direction of a point as it is published: counter-clockwise messages mirror the angle. */
  function Direction(p: Point, lim: Limits): int {
    if lim.clockwise then p.angle else 36000 - p.angle
  }

  /** A point outside the range or the angle window reads zero. */
  predicate Clipped(p: Point, lim: Limits) {
    || p.distance as real > lim.rangeMax || (p.distance as real) < lim.rangeMin
    || (Direction(p, lim) as real) < lim.angleMin || Direction(p, lim) as real > lim.angleMax
  }

  function Range(p: Point, lim: Limits): nat {
    if Clipped(p, lim) then 0 else p.distance
  }

  function Intensity(p: Point, lim: Limits): nat {
    if Clipped(p, lim) then 0 else p.intensity
  }

  /** How far the last point lies from the first: the increment is this, divided by the number of points. */
  function Span(ps: seq<Point>): nat
    requires ps != []
  {
    var first, last := ps[0].angle, ps[|ps| - 1].angle;
    if first <= last then last - first else first - last
  }

  /** How far point i lies from the first, counted in the direction of the last, times the number of points. */
  function Offset(ps: seq<Point>, i: nat, lim: Limits): int
    requires i < |ps|
  {
    var x := Direction(ps[i], lim) - ps[0].angle;
    if ps[0].angle <= ps[|ps| - 1].angle then Times(x, |ps|) else Times(-x, |ps|)
  }

  /**
    The increment is not zero, and every quotient lies strictly between -1 and 2^32, where its
    conversion to an unsigned number is defined.
   */
  predicate Publishable(ps: seq<Point>, lim: Limits) {
    && 0 < |ps| < 0x1_0000
    && ps[0].angle != ps[|ps| - 1].angle
    && forall i | 0 <= i < |ps| :: 0 - Span(ps) < Offset(ps, i, lim) < 0x1_0000_0000 * Span(ps)
  }

  /** x / d, rounded down. */
  function Quotient(x: nat, d: nat): (q: nat)
    requires d > 0
    ensures q * d <= x < q * d + d
  {
    assert x == d * (x / d) + x % d;
    x / d
  }

  function Times(a: int, b: nat): int {
    a * b
  }

  /** (angle - angle_min) / angle_increment, truncated towards zero. */
  function Index(ps: seq<Point>, lim: Limits, i: nat): nat
    requires Publishable(ps, lim) && i < |ps|
  {
    if Offset(ps, i, lim) < 0 then 0 else Quotient(Offset(ps, i, lim), Span(ps))
  }

  /** The unsigned difference of two cell numbers is two. */
  predicate Gap(at: nat, last: nat) {
    (at - last) % 0x1_0000_0000 == 2
  }

  /** A reading falls into cell `at`. */
  function BinAt(g: Grid, at: nat, range: nat, intensity: nat): (h: Grid)
    requires |g.ranges| == |g.intensities| < 0x1_0000 && g.last < |g.ranges|
    ensures |h.ranges| == |h.intensities| == |g.ranges| && h.last < |g.ranges|
  {
    if at >= |g.ranges| then g
    else if g.ranges[at] == NaN then
      if Gap(at, g.last) then
        Grid(g.ranges[at := Value(range)][at - 1 := Value(range)],
             g.intensities[at - 1 := Value(intensity)][at := Value(intensity)], at)
      else
        Grid(g.ranges[at := Value(range)], g.intensities[at := Value(intensity)], at)
    else
      Grid(if range < g.ranges[at].v then g.ranges[at := Value(range)] else g.ranges,
           g.intensities[at := Value(intensity)], at)
  }

  /** One round of the loop. */
  function Bin(g: Grid, ps: seq<Point>, i: nat, lim: Limits): (h: Grid)
    requires Publishable(ps, lim) && i < |ps|
    requires |g.ranges| == |g.intensities| == |ps| && g.last < |ps|
    ensures |h.ranges| == |h.intensities| == |ps| && h.last < |ps|
  {
    BinAt(g, Index(ps, lim, i), Range(ps[i], lim), Intensity(ps[i], lim))
  }

  function Empty(n: nat): seq<Cell> {
    seq(n, _ => NaN)
  }

  function BinFirst(ps: seq<Point>, k: nat, lim: Limits): (g: Grid)
    requires Publishable(ps, lim) && k <= |ps|
    ensures |g.ranges| == |g.intensities| == |ps| && g.last < |ps|
  {
    if k == 0 then Grid(Empty(|ps|), Empty(|ps|), 0) else Bin(BinFirst(ps, k - 1, lim), ps, k - 1, lim)
  }

  method PublishMsg(ps: seq<Point>, lim: Limits) returns (ranges: array<Cell>, intensities: array<Cell>)
    requires Publishable(ps, lim)
    ensures ranges.Length == intensities.Length == |ps|
    ensures ranges[..] == BinFirst(ps, |ps|, lim).ranges
    ensures intensities[..] == BinFirst(ps, |ps|, lim).intensities
  {
    hide Index, BinAt;
    var n := |ps|;
    ranges := new Cell[n](_ => NaN);
    intensities := new Cell[n](_ => NaN);
    var lastIndex: nat := 0;
    var i := 0;
    assert ranges[..] == Empty(n) && intensities[..] == Empty(n);
    while i < n
      invariant 0 <= i <= n && lastIndex < n
      invariant Grid(ranges[..], intensities[..], lastIndex) == BinFirst(ps, i, lim)
    {
      var range := ps[i].distance;
      var intensity := ps[i].intensity;
      if (range as real) > lim.rangeMax || (range as real) < lim.rangeMin {
        range, intensity := 0, 0;
      }
      var dirAngle: int := if lim.clockwise then ps[i].angle else 36000 - ps[i].angle;
      if (dirAngle as real) < lim.angleMin || (dirAngle as real) > lim.angleMax {
        range, intensity := 0, 0;
      }
      lastIndex := PutReading(ranges, intensities, lastIndex, Index(ps, lim, i), range, intensity);
      i := i + 1;
    }
  }

  /** The body of the loop once the reading and its cell are known. */
  method PutReading(ranges: array<Cell>, intensities: array<Cell>, lastIndex: nat, at: nat, range: nat, intensity: nat)
    returns (newLast: nat)
    requires ranges != intensities && ranges.Length == intensities.Length < 0x1_0000 && lastIndex < ranges.Length
    modifies ranges, intensities
    ensures Grid(ranges[..], intensities[..], newLast)
            == BinAt(Grid(old(ranges[..]), old(intensities[..]), lastIndex), at, range, intensity)
  {
    newLast := lastIndex;
    if at < ranges.Length {
      if ranges[at] == NaN {
        ranges[at] := Value(range);
        if (at - lastIndex) % 0x1_0000_0000 == 2 {
          ranges[at - 1] := Value(range);
          intensities[at - 1] := Value(intensity);
        }
      } else if range < ranges[at].v {
        ranges[at] := Value(range);
      }
      intensities[at] := Value(intensity);
      newLast := at;
    }
  }

  // ---------------------------------------------------------------------------------
  // What a message contains
  // ---------------------------------------------------------------------------------

  ghost predicate Sorted(ps: seq<Point>, lim: Limits) {
    lim.clockwise && forall i, j | 0 <= i <= j < |ps| :: ps[i].angle <= ps[j].angle
  }

  /** Point i falls into cell c. */
  predicate Hits(ps: seq<Point>, lim: Limits, i: nat, c: nat)
    requires Publishable(ps, lim)
  {
    i < |ps| && Index(ps, lim, i) == c
  }

  /** Point i is the first of cell c + 1, and the point before it lies in cell c - 1. */
  predicate Bridges(ps: seq<Point>, lim: Limits, i: nat, c: nat)
    requires Publishable(ps, lim)
  {
    0 < i < |ps| && Index(ps, lim, i) == c + 1 < |ps| && Index(ps, lim, i - 1) + 1 == c
  }

  ghost predicate HitBefore(ps: seq<Point>, lim: Limits, k: nat, c: nat)
    requires Publishable(ps, lim) && k <= |ps|
  {
    exists i: nat :: i < k && Hits(ps, lim, i, c)
  }

  ghost predicate BridgedBefore(ps: seq<Point>, lim: Limits, k: nat, c: nat)
    requires Publishable(ps, lim) && k <= |ps|
  {
    exists i: nat :: i < k && Bridges(ps, lim, i, c)
  }

  /** The range a cell must show after the first k points. */
  ghost predicate RangeCell(ps: seq<Point>, k: nat, c: nat, lim: Limits, cell: Cell)
    requires Publishable(ps, lim) && k <= |ps|
  {
    if HitBefore(ps, lim, k, c) then
      && cell.Value?
      && (exists i: nat :: i < k && Hits(ps, lim, i, c) && cell.v == Range(ps[i], lim))
      && (forall i: nat | i < k && Hits(ps, lim, i, c) :: cell.v <= Range(ps[i], lim))
    else if BridgedBefore(ps, lim, k, c) then
      exists i: nat :: i < k && Bridges(ps, lim, i, c) && cell == Value(Range(ps[i], lim))
    else cell == NaN
  }

  /** The intensity a cell must show after the first k points. */
  ghost predicate IntensityCell(ps: seq<Point>, k: nat, c: nat, lim: Limits, cell: Cell)
    requires Publishable(ps, lim) && k <= |ps|
  {
    if HitBefore(ps, lim, k, c) then
      exists i: nat :: i < k && Hits(ps, lim, i, c) && cell == Value(Intensity(ps[i], lim))
                       && forall j: nat | i < j < k :: !Hits(ps, lim, j, c)
    else if BridgedBefore(ps, lim, k, c) then
      exists i: nat :: i < k && Bridges(ps, lim, i, c) && cell == Value(Intensity(ps[i], lim))
    else cell == NaN
  }

  ghost predicate GridShows(ps: seq<Point>, k: nat, lim: Limits, g: Grid)
    requires Publishable(ps, lim) && k <= |ps|
  {
    && |g.ranges| == |g.intensities| == |ps|
    && forall c | 0 <= c < |ps| :: CellShows(ps, k, lim, g, c)
  }

  ghost predicate CellShows(ps: seq<Point>, k: nat, lim: Limits, g: Grid, c: nat)
    requires Publishable(ps, lim) && k <= |ps| && |g.ranges| == |g.intensities| == |ps| && c < |ps|
  {
    RangeCell(ps, k, c, lim, g.ranges[c]) && IntensityCell(ps, k, c, lim, g.intensities[c])
  }

  lemma TimesMonotone(a: int, b: int, d: nat)
    requires a <= b
    ensures Times(a, d) <= Times(b, d)
  {
  }

  lemma QuotientMonotone(x: nat, y: nat, d: nat)
    requires x <= y && d > 0
    ensures Quotient(x, d) <= Quotient(y, d)
  {
    var q, r := Quotient(x, d), Quotient(y, d);
    if r < q {
      TimesMonotone(r + 1, q, d);
    }
  }

  lemma QuotientExact(q: nat, d: nat)
    requires d > 0
    ensures Quotient(Times(d, q), d) == q
  {
    var r := Quotient(Times(d, q), d);
    if q < r {
      TimesMonotone(q + 1, r, d);
    } else if r < q {
      TimesMonotone(r + 1, q, d);
    }
  }

  lemma IndexMonotone(ps: seq<Point>, lim: Limits, i: nat, j: nat)
    requires Publishable(ps, lim) && Sorted(ps, lim) && i <= j < |ps|
    ensures Index(ps, lim, i) <= Index(ps, lim, j)
  {
    hide Quotient, Times;
    TimesMonotone(ps[i].angle - ps[0].angle, ps[j].angle - ps[0].angle, |ps|);
    var x, y := Offset(ps, i, lim), Offset(ps, j, lim);
    if 0 <= x {
      QuotientMonotone(x, y, Span(ps));
    }
  }

  /** Clockwise, the first point opens cell 0, and the last point never fits into the message. */
  lemma EndsOfScan(ps: seq<Point>, lim: Limits)
    requires Publishable(ps, lim) && lim.clockwise
    ensures Index(ps, lim, 0) == 0 && Index(ps, lim, |ps| - 1) == |ps|
  {
    hide Quotient;
    QuotientExact(|ps|, Span(ps));
    QuotientExact(0, Span(ps));
    assert Times(0, |ps|) == Times(Span(ps), 0);
  }

  // ---------------------------------------------------------------------------------
  // Readings and cells in numbers
  // ---------------------------------------------------------------------------------

  /** A point inside both limits reads its distance and its intensity, and any other reads zero. */
  lemma ReadingMeaning(p: Point, lim: Limits)
    ensures var direction: int := if lim.clockwise then p.angle else 36000 - p.angle;
            if lim.rangeMin <= p.distance as real <= lim.rangeMax && lim.angleMin <= direction as real <= lim.angleMax
            then Range(p, lim) == p.distance && Intensity(p, lim) == p.intensity
            else Range(p, lim) == 0 && Intensity(p, lim) == 0
  {
  }

  /**
    The cell of point i.  With n points from angle `first` to `last`, cell q begins at
    first + q * (last - first) / n and ends where cell q + 1 begins; a point less than one cell
    behind the first one is put into cell 0.
   */
  lemma CellMeaning(ps: seq<Point>, lim: Limits, i: nat)
    requires Publishable(ps, lim) && i < |ps|
    ensures var n, first, last := |ps|, ps[0].angle, ps[|ps| - 1].angle;
            var direction: int := if lim.clockwise then ps[i].angle else 36000 - ps[i].angle;
            var q := Index(ps, lim, i);
            && (first < last && first <= direction ==>
                  q * (last - first) <= (direction - first) * n < (q + 1) * (last - first))
            && (first < last && direction < first ==> q == 0 && (first - direction) * n < last - first)
            && (last < first && direction <= first ==>
                  q * (first - last) <= (first - direction) * n < (q + 1) * (first - last))
            && (last < first && first < direction ==> q == 0 && (direction - first) * n < first - last)
  {
    var n, first, last := |ps|, ps[0].angle, ps[|ps| - 1].angle;
    var direction: int := if lim.clockwise then ps[i].angle else 36000 - ps[i].angle;
    var q, span := Index(ps, lim, i), Span(ps);
    TimesSign(direction - first, n);
    assert Offset(ps, i, lim) == if first < last then (direction - first) * n else (first - direction) * n;
    assert (q + 1) * span == q * span + span;
  }

  lemma TimesSign(x: int, n: nat)
    requires n > 0
    ensures Times(x, n) == x * n && Times(-x, n) == -(x * n)
    ensures x >= 0 ==> x * n >= 0
    ensures x < 0 ==> x * n < 0
  {
  }

  /**
    Which scans have a message with defined conversions: the exact quotient of every point, the
    angle from the first one divided by the increment, lies strictly between -1 and 2^32.
   */
  lemma PublishableExactly(ps: seq<Point>, lim: Limits)
    ensures Publishable(ps, lim)
            <==> && 0 < |ps| < 0x1_0000
                 && ps[0].angle != ps[|ps| - 1].angle
                 && forall i | 0 <= i < |ps| :: -1.0 < ExactQuotient(ps, i, lim.clockwise) < 4294967296.0
  {
    if 0 < |ps| && ps[0].angle != ps[|ps| - 1].angle {
      forall i | 0 <= i < |ps|
        ensures -1.0 < ExactQuotient(ps, i, lim.clockwise) < 4294967296.0
                <==> 0 - Span(ps) < Offset(ps, i, lim) < 0x1_0000_0000 * Span(ps)
      {
        QuotientInBounds(ps, lim, i);
      }
    }
  }

  /** (angle - angle_min) / ((angle_max - angle_min) / n). */
  function ExactQuotient(ps: seq<Point>, i: nat, clockwise: bool): real
    requires i < |ps| && ps[0].angle != ps[|ps| - 1].angle
  {
    var direction: int := if clockwise then ps[i].angle else 36000 - ps[i].angle;
    ((direction - ps[0].angle) * |ps|) as real / (ps[|ps| - 1].angle - ps[0].angle) as real
  }

  lemma ProductSign(u: real, d: real)
    requires d > 0.0
    ensures u * d > 0.0 <==> u > 0.0
  {
  }

  lemma RatioBounds(x: real, d: real, r: real)
    requires d > 0.0 && r * d == x
    ensures -1.0 < r <==> -d < x
    ensures r < 4294967296.0 <==> x < 4294967296.0 * d
  {
    ProductSign(r + 1.0, d);
    ProductSign(4294967296.0 - r, d);
  }

  lemma RatioInBounds(x: int, d: nat, r: real)
    requires d > 0 && r * d as real == x as real
    ensures -1.0 < r < 4294967296.0 <==> 0 - d < x < 0x1_0000_0000 * d
  {
    RatioBounds(x as real, d as real, r);
    assert (0 - d) as real == -(d as real);
    var bound := 0x1_0000_0000 * d;
    assert bound as real == 4294967296.0 * d as real;
  }

  lemma QuotientInBounds(ps: seq<Point>, lim: Limits, i: nat)
    requires i < |ps| && ps[0].angle != ps[|ps| - 1].angle
    ensures -1.0 < ExactQuotient(ps, i, lim.clockwise) < 4294967296.0
            <==> 0 - Span(ps) < Offset(ps, i, lim) < 0x1_0000_0000 * Span(ps)
  {
    var r := ExactQuotient(ps, i, lim.clockwise);
    var direction: int := if lim.clockwise then ps[i].angle else 36000 - ps[i].angle;
    TimesSign(direction - ps[0].angle, |ps|);
    assert r * Span(ps) as real == Offset(ps, i, lim) as real;
    RatioInBounds(Offset(ps, i, lim), Span(ps), r);
  }

  // ---------------------------------------------------------------------------------
  // The loop fills the cells so
  // ---------------------------------------------------------------------------------

  /** A round in which cell c gains neither a hit nor a bridge changes nothing for it. */
  lemma CellUntouched(ps: seq<Point>, k: nat, c: nat, lim: Limits, range: Cell, intensity: Cell)
    requires Publishable(ps, lim) && k < |ps|
    ensures RangeCell(ps, k, c, lim, range) && IntensityCell(ps, k, c, lim, intensity)
            && !Hits(ps, lim, k, c) && !Bridges(ps, lim, k, c) ==>
              RangeCell(ps, k + 1, c, lim, range) && IntensityCell(ps, k + 1, c, lim, intensity)
  {
    hide Index, Range, Intensity, Publishable, Hits, Bridges;
    if !Hits(ps, lim, k, c) && !Bridges(ps, lim, k, c) {
      assert HitBefore(ps, lim, k + 1, c) <==> HitBefore(ps, lim, k, c);
      assert BridgedBefore(ps, lim, k + 1, c) <==> BridgedBefore(ps, lim, k, c);
    }
  }

  /** The cell that is hit shows the smaller range and the newer intensity. */
  lemma CellHit(ps: seq<Point>, k: nat, c: nat, lim: Limits, was: Cell, range: Cell)
    requires Publishable(ps, lim) && k < |ps|
    requires range == if was.Value? && was.v <= Range(ps[k], lim) then was else Value(Range(ps[k], lim))
    ensures Hits(ps, lim, k, c) && RangeCell(ps, k, c, lim, was) && (was.NaN? <==> !HitBefore(ps, lim, k, c)) ==>
              RangeCell(ps, k + 1, c, lim, range) && IntensityCell(ps, k + 1, c, lim, Value(Intensity(ps[k], lim)))
  {
    hide Index, Range, Intensity, Publishable, Hits, Bridges;
    assert Hits(ps, lim, k, c) ==> HitBefore(ps, lim, k + 1, c);
  }

  /** The cell that is bridged takes over the reading of the point beyond it. */
  lemma CellBridged(ps: seq<Point>, k: nat, c: nat, lim: Limits)
    requires Publishable(ps, lim) && k < |ps|
    ensures Bridges(ps, lim, k, c) && !HitBefore(ps, lim, k + 1, c) ==>
              && RangeCell(ps, k + 1, c, lim, Value(Range(ps[k], lim)))
              && IntensityCell(ps, k + 1, c, lim, Value(Intensity(ps[k], lim)))
  {
    hide Index, Range, Intensity, Publishable, Hits;
    assert Bridges(ps, lim, k, c) ==> BridgedBefore(ps, lim, k + 1, c);
  }

  /** In a sorted scan everything seen before point k lies in the cells up to that of point k - 1. */
  lemma SeenSoFar(ps: seq<Point>, lim: Limits, k: nat, c: nat)
    requires Publishable(ps, lim) && Sorted(ps, lim) && 0 < k < |ps|
    ensures HitBefore(ps, lim, k, c) ==> c <= Index(ps, lim, k - 1)
    ensures BridgedBefore(ps, lim, k, c) ==> c < Index(ps, lim, k - 1)
    ensures HitBefore(ps, lim, k, Index(ps, lim, k - 1))
  {
    hide Index, Publishable, Sorted;
    if HitBefore(ps, lim, k, c) {
      var i: nat :| i < k && Hits(ps, lim, i, c);
      IndexMonotone(ps, lim, i, k - 1);
    }
    if BridgedBefore(ps, lim, k, c) {
      var i: nat :| i < k && Bridges(ps, lim, i, c);
      IndexMonotone(ps, lim, i, k - 1);
    }
    assert Hits(ps, lim, k - 1, Index(ps, lim, k - 1));
  }

  /** Before point k, `last` is the cell of point k - 1, as long as points fall into cells at all. */
  predicate LastIs(ps: seq<Point>, lim: Limits, k: nat, last: nat)
    requires Publishable(ps, lim) && k <= |ps|
  {
    (k == 0 ==> last == 0) && (k > 0 && Index(ps, lim, k - 1) < |ps| ==> last == Index(ps, lim, k - 1))
  }

  /** A cell is still NaN when its first point arrives, and cells behind `last` have no point yet. */
  lemma FirstHitIsNaN(ps: seq<Point>, k: nat, lim: Limits, last: nat, cell: Cell)
    requires Publishable(ps, lim) && Sorted(ps, lim) && k < |ps|
    ensures var at := Index(ps, lim, k);
            at < |ps| && LastIs(ps, lim, k, last) && RangeCell(ps, k, at, lim, cell) ==>
              && last <= at
              && (cell.NaN? <==> !HitBefore(ps, lim, k, at))
              && (last < at ==> !HitBefore(ps, lim, k, at))
              && (k == 0 ==> at == 0)
  {
    EndsOfScan(ps, lim);
    hide Index, Range, Sorted;
    if k > 0 {
      IndexMonotone(ps, lim, k - 1, k);
      SeenSoFar(ps, lim, k, Index(ps, lim, k));
    }
  }

  /** A step of two cells lays a bridge over a cell that no point has hit. */
  lemma NoHitInGap(ps: seq<Point>, lim: Limits, k: nat, c: nat, last: nat)
    requires Publishable(ps, lim) && Sorted(ps, lim) && 0 < k < |ps|
    ensures LastIs(ps, lim, k, last) && Index(ps, lim, k) == c + 1 < |ps| && c == last + 1 ==>
              Bridges(ps, lim, k, c) && !HitBefore(ps, lim, k + 1, c)
  {
    hide Index, Sorted;
    IndexMonotone(ps, lim, k - 1, k);
    SeenSoFar(ps, lim, k, c);
    assert HitBefore(ps, lim, k + 1, c) ==> HitBefore(ps, lim, k, c) || Hits(ps, lim, k, c);
  }

  lemma BinKeepsCell(ps: seq<Point>, k: nat, lim: Limits, g: Grid, c: nat)
    requires Publishable(ps, lim) && Sorted(ps, lim) && k < |ps| && c < |ps|
    requires |g.ranges| == |g.intensities| == |ps| && g.last < |ps|
    ensures GridShows(ps, k, lim, g) && LastIs(ps, lim, k, g.last) ==> CellShows(ps, k + 1, lim, Bin(g, ps, k, lim), c)
  {
    hide Index, Range, Intensity, Sorted, RangeCell, IntensityCell, HitBefore, BridgedBefore;
    if GridShows(ps, k, lim, g) && LastIs(ps, lim, k, g.last) {
      var at := Index(ps, lim, k);
      assert CellShows(ps, k, lim, g, c);
      if at < |ps| {
        assert CellShows(ps, k, lim, g, at);
        FirstHitIsNaN(ps, k, lim, g.last, g.ranges[at]);
        if c == at {
          CellHit(ps, k, c, lim, g.ranges[c], Bin(g, ps, k, lim).ranges[c]);
        } else if c + 1 == at && at == g.last + 2 {
          NoHitInGap(ps, lim, k, c, g.last);
          CellBridged(ps, k, c, lim);
        } else {
          CellUntouched(ps, k, c, lim, g.ranges[c], g.intensities[c]);
        }
      } else {
        CellUntouched(ps, k, c, lim, g.ranges[c], g.intensities[c]);
      }
    }
  }

  lemma {:induction false} GridOfSorted(ps: seq<Point>, k: nat, lim: Limits)
    requires Publishable(ps, lim) && Sorted(ps, lim) && k <= |ps|
    ensures GridShows(ps, k, lim, BinFirst(ps, k, lim)) && LastIs(ps, lim, k, BinFirst(ps, k, lim).last)
  {
    hide Index, Sorted, Range, Intensity;
    if k == 0 {
    } else {
      var g := BinFirst(ps, k - 1, lim);
      GridOfSorted(ps, k - 1, lim);
      forall c | 0 <= c < |ps| ensures CellShows(ps, k, lim, BinFirst(ps, k, lim), c) {
        BinKeepsCell(ps, k - 1, lim, g, c);
      }
    }
  }

  /**
    For a scan with nondecreasing angles, every cell of the message is explained: a cell that
    points fall into shows their least range and the last one's intensity; a single empty
    cell between two that are hit in succession shows the first point beyond it; any other
    cell is NaN.
   */
  lemma MessageOfSortedScan(ps: seq<Point>, lim: Limits)
    requires Publishable(ps, lim) && Sorted(ps, lim)
    ensures GridShows(ps, |ps|, lim, BinFirst(ps, |ps|, lim))
  {
    GridOfSorted(ps, |ps|, lim);
  }

  // ---------------------------------------------------------------------------------
  // Any scan, in either direction
  // ---------------------------------------------------------------------------------

  /** The cell of the latest of the first k points that fell into the message, or 0. */
  function LastCell(ps: seq<Point>, lim: Limits, k: nat): nat
    requires Publishable(ps, lim) && k <= |ps|
  {
    if k == 0 then 0
    else if Index(ps, lim, k - 1) < |ps| then Index(ps, lim, k - 1)
    else LastCell(ps, lim, k - 1)
  }

  /** A point falls into cell `at`: it starts a fresh cell, and the one before it if two cells were stepped at once. */
  predicate Opens(at: nat, untouched: bool, last: nat, c: nat) {
    untouched && (c == at || (c + 1 == at && at == last + 2))
  }

  /** One of the first k points started cell c. */
  predicate Started(ps: seq<Point>, lim: Limits, k: nat, c: nat)
    requires Publishable(ps, lim) && k <= |ps|
    decreases k
  {
    k > 0 &&
    var at := Index(ps, lim, k - 1);
    Started(ps, lim, k - 1, c)
    || (at < |ps| && Opens(at, !Started(ps, lim, k - 1, at), LastCell(ps, lim, k - 1), c))
  }

  /** Point i starts cell c afresh. */
  predicate Starts(ps: seq<Point>, lim: Limits, i: nat, c: nat)
    requires Publishable(ps, lim) && i < |ps|
  {
    var at := Index(ps, lim, i);
    at < |ps| && Opens(at, !Started(ps, lim, i, at), LastCell(ps, lim, i), c)
  }

  /** The latest of the first k points to start cell c. */
  function Starter(ps: seq<Point>, lim: Limits, k: nat, c: nat): (o: nat)
    requires Publishable(ps, lim) && k <= |ps| && Started(ps, lim, k, c)
    ensures o < k && Starts(ps, lim, o, c)
    ensures forall i | o < i < k :: !Starts(ps, lim, i, c)
    decreases k
  {
    if Starts(ps, lim, k - 1, c) then k - 1 else Starter(ps, lim, k - 1, c)
  }

  /** Point i counts for cell c once o has started it. */
  predicate Counts(ps: seq<Point>, lim: Limits, o: nat, i: nat, c: nat)
    requires Publishable(ps, lim)
  {
    i == o || (o < i && Hits(ps, lim, i, c))
  }

  /** The cell shows the least range and the latest intensity of the points that count since o. */
  ghost predicate ShowsSince(ps: seq<Point>, lim: Limits, o: nat, k: nat, c: nat, range: Cell, intensity: Cell)
    requires Publishable(ps, lim) && o < k <= |ps|
  {
    && range.Value?
    && (exists i | o <= i < k :: Counts(ps, lim, o, i, c) && range.v == Range(ps[i], lim))
    && (forall i | o <= i < k && Counts(ps, lim, o, i, c) :: range.v <= Range(ps[i], lim))
    && (exists i | o <= i < k :: Counts(ps, lim, o, i, c) && intensity == Value(Intensity(ps[i], lim))
                                 && forall j | i < j < k :: !Counts(ps, lim, o, j, c))
  }

  ghost predicate AnyCell(ps: seq<Point>, k: nat, lim: Limits, c: nat, range: Cell, intensity: Cell)
    requires Publishable(ps, lim) && k <= |ps|
  {
    if Started(ps, lim, k, c) then ShowsSince(ps, lim, Starter(ps, lim, k, c), k, c, range, intensity)
    else range == NaN && intensity == NaN
  }

  ghost predicate AnyGrid(ps: seq<Point>, k: nat, lim: Limits, g: Grid)
    requires Publishable(ps, lim) && k <= |ps|
  {
    && |g.ranges| == |g.intensities| == |ps| && g.last == LastCell(ps, lim, k) < |ps|
    && forall c | 0 <= c < |ps| :: AnyCell(ps, k, lim, c, g.ranges[c], g.intensities[c])
  }

  lemma StarterNext(ps: seq<Point>, k: nat, lim: Limits, c: nat)
    requires Publishable(ps, lim) && k < |ps|
    ensures Started(ps, lim, k + 1, c) <==> Started(ps, lim, k, c) || Starts(ps, lim, k, c)
    ensures Started(ps, lim, k + 1, c) ==>
              Starter(ps, lim, k + 1, c) == if Starts(ps, lim, k, c) then k else Starter(ps, lim, k, c)
  {
    hide Publishable, Index, Opens;
  }

  lemma CellStarted(ps: seq<Point>, k: nat, lim: Limits, c: nat)
    requires Publishable(ps, lim) && k < |ps|
    ensures Starts(ps, lim, k, c) ==>
              AnyCell(ps, k + 1, lim, c, Value(Range(ps[k], lim)), Value(Intensity(ps[k], lim)))
  {
    hide Publishable, Starts, Started, Starter, Hits, Range, Intensity;
    StarterNext(ps, k, lim, c);
    assert Counts(ps, lim, k, k, c);
  }

  lemma CellHitAgain(ps: seq<Point>, k: nat, lim: Limits, c: nat, was: Cell, intensity: Cell, range: Cell)
    requires Publishable(ps, lim) && k < |ps|
    requires range == if was.Value? && was.v <= Range(ps[k], lim) then was else Value(Range(ps[k], lim))
    ensures AnyCell(ps, k, lim, c, was, intensity)
            && Started(ps, lim, k, c) && !Starts(ps, lim, k, c) && Hits(ps, lim, k, c) ==>
              AnyCell(ps, k + 1, lim, c, range, Value(Intensity(ps[k], lim)))
  {
    hide Publishable, Starts, Started, Starter, Hits, Range, Intensity;
    StarterNext(ps, k, lim, c);
    if Started(ps, lim, k, c) && Hits(ps, lim, k, c) {
      assert Counts(ps, lim, Starter(ps, lim, k, c), k, c);
    }
  }

  lemma CellPassedOver(ps: seq<Point>, k: nat, lim: Limits, c: nat, range: Cell, intensity: Cell)
    requires Publishable(ps, lim) && k < |ps|
    ensures AnyCell(ps, k, lim, c, range, intensity) && !Starts(ps, lim, k, c) && !Hits(ps, lim, k, c) ==>
              AnyCell(ps, k + 1, lim, c, range, intensity)
  {
    hide Publishable, Starts, Started, Starter, Hits, Range, Intensity;
    StarterNext(ps, k, lim, c);
  }

  lemma BinKeepsAnyCell(ps: seq<Point>, k: nat, lim: Limits, g: Grid, c: nat)
    requires Publishable(ps, lim) && k < |ps| && c < |ps|
    requires |g.ranges| == |g.intensities| == |ps| && g.last < |ps|
    ensures var h := Bin(g, ps, k, lim);
            AnyGrid(ps, k, lim, g) ==>
              AnyCell(ps, k + 1, lim, c, h.ranges[c], h.intensities[c]) && h.last == LastCell(ps, lim, k + 1)
  {
    hide Index, Range, Intensity, Started, ShowsSince, AnyCell, Gap;
    if AnyGrid(ps, k, lim, g) {
      var h := Bin(g, ps, k, lim);
      var at := Index(ps, lim, k);
      assert AnyCell(ps, k, lim, c, g.ranges[c], g.intensities[c]);
      if at < |ps| {
        assert AnyCell(ps, k, lim, at, g.ranges[at], g.intensities[at]);
        StartedShowsValue(ps, k, lim, at, g.ranges[at], g.intensities[at]);
        GapIsTwo(at, g.last);
      }
      if Starts(ps, lim, k, c) {
        CellStarted(ps, k, lim, c);
      } else if Hits(ps, lim, k, c) {
        CellHitAgain(ps, k, lim, c, g.ranges[c], g.intensities[c], h.ranges[c]);
      } else {
        CellPassedOver(ps, k, lim, c, g.ranges[c], g.intensities[c]);
      }
    }
  }

  lemma GapIsTwo(at: nat, last: nat)
    requires at < 0x1_0000 && last < 0x1_0000
    ensures Gap(at, last) <==> at == last + 2
  {
  }

  lemma StartedShowsValue(ps: seq<Point>, k: nat, lim: Limits, c: nat, range: Cell, intensity: Cell)
    requires Publishable(ps, lim) && k <= |ps|
    ensures AnyCell(ps, k, lim, c, range, intensity) ==> (range.Value? <==> Started(ps, lim, k, c))
  {
    hide Publishable, Hits, Starts, Started, Starter;
  }

  /**
    Whatever the order of the angles and whatever the direction: a cell is NaN exactly when no
    point started it; otherwise it shows the least range and the latest intensity of the last
    point that started it and of the points that fell into it since.
   */
  lemma {:induction false} CellsOfAnyScan(ps: seq<Point>, k: nat, lim: Limits)
    requires Publishable(ps, lim) && k <= |ps|
    ensures AnyGrid(ps, k, lim, BinFirst(ps, k, lim))
  {
    hide Index, Range, Intensity, AnyCell;
    if k == 0 {
      forall c | 0 <= c < |ps| ensures AnyCell(ps, 0, lim, c, NaN, NaN) {
        NothingStarted(ps, lim, c);
      }
    } else {
      var g := BinFirst(ps, k - 1, lim);
      CellsOfAnyScan(ps, k - 1, lim);
      var h := BinFirst(ps, k, lim);
      forall c | 0 <= c < |ps| ensures AnyCell(ps, k, lim, c, h.ranges[c], h.intensities[c]) {
        BinKeepsAnyCell(ps, k - 1, lim, g, c);
      }
      BinKeepsAnyCell(ps, k - 1, lim, g, 0);
    }
  }

  lemma NothingStarted(ps: seq<Point>, lim: Limits, c: nat)
    requires Publishable(ps, lim)
    ensures AnyCell(ps, 0, lim, c, NaN, NaN)
  {
  }

  const FOUR_POINTS :=
    [Point(1000, 10, 0), Point(2000, 20, 11000), Point(3000, 30, 21000), Point(4000, 40, 30000)]
  const WIDE_LIMITS := Limits(0.0, 36000.0, 50.0, 20000.0, true)

  lemma FourPointCells()
    ensures Publishable(FOUR_POINTS, WIDE_LIMITS)
    ensures Index(FOUR_POINTS, WIDE_LIMITS, 0) == 0 && Index(FOUR_POINTS, WIDE_LIMITS, 1) == 1
    ensures Index(FOUR_POINTS, WIDE_LIMITS, 2) == 2 && Index(FOUR_POINTS, WIDE_LIMITS, 3) == 4
  {
    hide Index, Quotient;
    CellMeaning(FOUR_POINTS, WIDE_LIMITS, 0);
    CellMeaning(FOUR_POINTS, WIDE_LIMITS, 1);
    CellMeaning(FOUR_POINTS, WIDE_LIMITS, 2);
    CellMeaning(FOUR_POINTS, WIDE_LIMITS, 3);
  }

  lemma BinNext(ps: seq<Point>, k: nat, lim: Limits)
    requires Publishable(ps, lim) && k < |ps|
    ensures BinFirst(ps, k + 1, lim) ==
            BinAt(BinFirst(ps, k, lim), Index(ps, lim, k), Range(ps[k], lim), Intensity(ps[k], lim))
  {
    hide Publishable, Index, Range, Intensity, BinAt;
  }

  /** Four points, the last of which never fits: each of the others falls into the cell of its own number. */
  lemma FourPointMessage()
    ensures Publishable(FOUR_POINTS, WIDE_LIMITS)
    ensures BinFirst(FOUR_POINTS, 4, WIDE_LIMITS).ranges == [Value(1000), Value(2000), Value(3000), NaN]
    ensures BinFirst(FOUR_POINTS, 4, WIDE_LIMITS).intensities == [Value(10), Value(20), Value(30), NaN]
  {
    FourPointCells();
    hide Publishable, Index;
    BinNext(FOUR_POINTS, 0, WIDE_LIMITS);
    BinNext(FOUR_POINTS, 1, WIDE_LIMITS);
    BinNext(FOUR_POINTS, 2, WIDE_LIMITS);
    BinNext(FOUR_POINTS, 3, WIDE_LIMITS);
    assert BinFirst(FOUR_POINTS, 0, WIDE_LIMITS) == Grid([NaN, NaN, NaN, NaN], [NaN, NaN, NaN, NaN], 0);
  }
}
