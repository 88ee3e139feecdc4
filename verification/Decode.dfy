/**
  What a packet says: its speed, its start and end angle, and the twelve points between.

  Angles are whole hundredths of a degree.  The driver's angle step is an integer division
  of hundredths, so every angle it computes is a whole number of them.
 */
module Decode {
  import opened Framing

  datatype Point = Point(distance: nat, intensity: nat, angle: nat)

  const POINTS_PER_PACK := 12

  /** A little-endian 16-bit field. */
  function U16(f: Bytes, i: nat): (r: nat)
    requires i + 1 < |f|
    ensures r < 0x1_0000
  {
    (f[i] as int) + 256 * (f[i + 1] as int)
  }

  function Speed(f: Bytes): nat
    requires |f| == FRAME_SIZE
  {
    U16(f, 2)
  }

  function StartAngle(f: Bytes): (r: nat)
    requires |f| == FRAME_SIZE
    ensures r < 0x1_0000
  {
    U16(f, 4)
  }

  function EndAngle(f: Bytes): (r: nat)
    requires |f| == FRAME_SIZE
    ensures r < 0x1_0000
  {
    U16(f, 42)
  }

  /** Unsigned 32-bit arithmetic: the subtraction wraps around when `start` exceeds `end` by more than a turn. */
  function Span(start: nat, end: nat): (d: nat)
    ensures d < 36000
  {
    (end + 36000 - start) % 0x1_0000_0000 % 36000
  }

  function Step(start: nat, end: nat): (s: nat)
    ensures s <= 3272
  {
    Span(start, end) / 11
  }

  function AngleAt(start: nat, end: nat, i: nat): nat {
    var a := start + i * Step(start, end);
    if a >= 36000 then a - 36000 else a
  }

  function PointAt(f: Bytes, i: nat): Point
    requires |f| == FRAME_SIZE && i < POINTS_PER_PACK
  {
    Point(U16(f, 6 + 3 * i), f[8 + 3 * i] as int, AngleAt(StartAngle(f), EndAngle(f), i))
  }

  function PointsOf(f: Bytes): (ps: seq<Point>)
    requires |f| == FRAME_SIZE
    ensures |ps| == POINTS_PER_PACK
    ensures forall i | 0 <= i < POINTS_PER_PACK :: ps[i] == PointAt(f, i)
  {
    seq(POINTS_PER_PACK, i requires 0 <= i < POINTS_PER_PACK => PointAt(f, i))
  }

  /** Two successive points are a backward jump of more than one degree. */
  predicate Jump(a: Point, b: Point) {
    a.angle - b.angle > 100
  }

  /** The `point_data_parse_frame_ms200` loop: decode a packet into slots at..at + 12 of a point array. */
  method ParseFrame(data: array<Point>, at: nat, f: Bytes)
    requires |f| == FRAME_SIZE && at + POINTS_PER_PACK <= data.Length
    modifies data
    ensures data[at..at + POINTS_PER_PACK] == PointsOf(f)
    ensures data[..at] == old(data[..at])
    ensures data[at + POINTS_PER_PACK..] == old(data[at + POINTS_PER_PACK..])
  {
    hide PointAt;
    var span := (EndAngle(f) + 36000 - StartAngle(f)) % 0x1_0000_0000 % 36000;
    var step := span / (POINTS_PER_PACK - 1);
    var i := 0;
    while i < POINTS_PER_PACK
      invariant 0 <= i <= POINTS_PER_PACK
      invariant forall j | at <= j < at + i :: data[j] == PointAt(f, j - at)
      invariant forall j | 0 <= j < data.Length && !(at <= j < at + i) :: data[j] == old(data[j])
    {
      data[at + i] := ParsePoint(f, i, step);
      i := i + 1;
    }
  }

  /** The body of the loop. */
  method ParsePoint(f: Bytes, i: nat, step: nat) returns (p: Point)
    requires |f| == FRAME_SIZE && i < POINTS_PER_PACK && step == Step(StartAngle(f), EndAngle(f))
    ensures p == PointAt(f, i)
  {
    var angle := StartAngle(f) + i * step;
    if angle >= 36000 {
      angle := angle - 36000;
    }
    p := Point(U16(f, 6 + 3 * i), f[8 + 3 * i] as int, angle);
  }

  // ---------------------------------------------------------------------------------
  // The interpolation
  // ---------------------------------------------------------------------------------

  lemma StepMonotone(start: nat, end: nat, i: nat, j: nat)
    requires i <= j
    ensures i * Step(start, end) <= j * Step(start, end)
  {
  }

  /** The first point lies at the start angle. */
  lemma FirstAngle(start: nat, end: nat)
    ensures AngleAt(start, end, 0) == if start < 36000 then start else start - 36000
  {
  }

  /** From a start angle inside the turn, every interpolated angle is inside the turn. */
  lemma AnglesInTurn(start: nat, end: nat, i: nat)
    requires start < 36000 && i < POINTS_PER_PACK
    ensures AngleAt(start, end, i) < 36000
  {
    StepMonotone(start, end, i, 11);
  }

  /** Successive angles rise by the step, or fall by a turn less the step, which is always a jump. */
  lemma RiseOrWrap(start: nat, end: nat, i: nat)
    ensures var a, b := AngleAt(start, end, i), AngleAt(start, end, i + 1);
            b == a + Step(start, end) || (b == a + Step(start, end) - 36000 && a - b > 100)
  {
    assert (i + 1) * Step(start, end) == i * Step(start, end) + Step(start, end);
  }

  /** There is at most one such fall in a packet, whatever its start and end angle. */
  lemma AtMostOneWrap(start: nat, end: nat, i: nat, j: nat)
    requires AngleAt(start, end, i) - AngleAt(start, end, i + 1) > 100
    requires AngleAt(start, end, j) - AngleAt(start, end, j + 1) > 100
    ensures i == j
  {
    StepMonotone(start, end, i, i + 1);
    StepMonotone(start, end, j, j + 1);
    if i < j {
      StepMonotone(start, end, i + 1, j);
    } else if j < i {
      StepMonotone(start, end, j + 1, i);
    }
  }

  lemma JumpsOfPacket(f: Bytes, i: nat, j: nat)
    requires |f| == FRAME_SIZE && i + 1 < POINTS_PER_PACK && j + 1 < POINTS_PER_PACK
    ensures Jump(PointsOf(f)[i], PointsOf(f)[i + 1]) && Jump(PointsOf(f)[j], PointsOf(f)[j + 1]) ==> i == j
  {
    if Jump(PointsOf(f)[i], PointsOf(f)[i + 1]) && Jump(PointsOf(f)[j], PointsOf(f)[j + 1]) {
      AtMostOneWrap(StartAngle(f), EndAngle(f), i, j);
    }
  }

  /**
    The last point trails the end angle by the remainder of the division by 11, at most a
    tenth of a degree.  This holds exactly when the unsigned subtraction does not wrap.
   */
  lemma LastPointTrailsEnd(start: nat, end: nat)
    requires start < 0x1_0000 && end < 0x1_0000
    ensures (end - AngleAt(start, end, 11)) % 36000 == Span(start, end) % 11 <==> start <= end + 36000
  {
    var span := Span(start, end);
    assert 11 * Step(start, end) == span - span % 11;
    var base := end + 36000 - start;
    if start <= end + 36000 {
      assert base % 0x1_0000_0000 == base;
    } else {
      assert base % 0x1_0000_0000 == base + 0x1_0000_0000;
    }
  }
}
