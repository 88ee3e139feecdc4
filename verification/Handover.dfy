/**
  Which scans reach the caller: the grab functions against the history of cuts.
 */
module Handover {
  import opened Framing
  import opened Decode
  import opened StreamParser
  import opened Promptness
  import opened ScanCutter
  import opened Delivery
  import opened PacketCodec
  import opened Wrappers

  /** The latest scan cut, unless it was handed out since. */
  function Newest(trace: seq<Observation>): Option<Scan>
    decreases |trace|
  {
    if trace == [] then None
    else
      match trace[|trace| - 1]
      case Delivered(_, _) => None
      case Happened(Cut(scan)) => Some(scan)
      case Happened(Discard(_)) => Newest(trace[..|trace| - 1])
  }

  /**
    A scan handed out at the end of `before` is the newest one, begins near zero, and is
    empty only from the blocking grab.
   */
  ghost predicate GoodDelivery(before: seq<Observation>, o: Observation) {
    o.Delivered? ==>
      && Newest(before) == Some(o.scan)
      && (o.scan.points != [] ==> o.scan.points[0].angle <= 1000)
      && (o.scan.points == [] ==> o.blocking)
  }

  ghost predicate GoodDeliveries(trace: seq<Observation>) {
    forall i | 0 <= i < |trace| :: GoodDelivery(trace[..i], trace[i])
  }

  /** The angle in slot 0 of the scan array: an empty cut writes nothing there. */
  function SlotZero(trace: seq<Observation>): nat
    decreases |trace|
  {
    if trace == [] then 0
    else
      match trace[|trace| - 1]
      case Happened(Cut(scan)) =>
        if scan.points == [] then SlotZero(trace[..|trace| - 1]) else scan.points[0].angle
      case _ => SlotZero(trace[..|trace| - 1])
  }

  /** The scan array and its ready flag, told from what has happened so far. */
  ghost predicate Tracks(c: Cutter, trace: seq<Observation>) {
    && Valid(c)
    && c.head == SlotZero(trace)
    && (match Newest(trace)
        case None => !c.ready
        case Some(scan) => c.scan == scan && (c.ready <==> SlotZero(trace) <= 1000))
    && GoodDeliveries(trace)
  }

  lemma AppendGood(trace: seq<Observation>, o: Observation)
    requires GoodDeliveries(trace) && GoodDelivery(trace, o)
    ensures GoodDeliveries(trace + [o])
  {
    var all := trace + [o];
    forall i | 0 <= i < |all| ensures GoodDelivery(all[..i], all[i]) {
      if i < |trace| {
        assert all[..i] == trace[..i];
      } else {
        assert all[..i] == trace;
      }
    }
  }

  lemma NewestAppend(trace: seq<Observation>, o: Observation)
    ensures Newest(trace + [o]) ==
            match o
            case Delivered(_, _) => None
            case Happened(Cut(scan)) => Some(scan)
            case Happened(Discard(_)) => Newest(trace)
  {
    assert (trace + [o])[..|trace|] == trace;
  }

  lemma SlotZeroAppend(trace: seq<Observation>, o: Observation)
    ensures SlotZero(trace + [o]) ==
            match o
            case Happened(Cut(scan)) => if scan.points == [] then SlotZero(trace) else scan.points[0].angle
            case _ => SlotZero(trace)
  {
    assert (trace + [o])[..|trace|] == trace;
  }

  lemma IngestTracks(c: Cutter, f: Bytes, before: seq<Observation>)
    requires Tracks(c, before) && |f| == FRAME_SIZE
    ensures Tracks(Ingest(c, f).cutter, before + Observed(Ingest(c, f).events))
  {
    hide PointsOf, PointAt;
    var s := Ingest(c, f);
    IngestKeepsValid(c, f);
    IngestEvents(c, f);
    if s.events == [] {
      assert before + Observed(s.events) == before;
    } else {
      assert Observed(s.events) == [Happened(s.events[0])];
      NewestAppend(before, Happened(s.events[0]));
      SlotZeroAppend(before, Happened(s.events[0]));
      AppendGood(before, Happened(s.events[0]));
    }
  }

  lemma {:induction false} IngestAllTracks(c: Cutter, fs: seq<Bytes>, before: seq<Observation>)
    requires Tracks(c, before) && Sized(fs)
    ensures Tracks(IngestAll(c, fs).cutter, before + Observed(IngestAll(c, fs).events))
    decreases |fs|
  {
    hide Ingest, Tracks;
    if fs == [] {
      assert before + Observed([]) == before;
    } else {
      var first := Ingest(c, fs[0]);
      var later := IngestAll(first.cutter, fs[1..]);
      IngestTracks(c, fs[0], before);
      IngestAllTracks(first.cutter, fs[1..], before + Observed(first.events));
      assert (before + Observed(first.events)) + Observed(later.events)
             == before + Observed(first.events + later.events);
    }
  }

  lemma PerformTracks(d: Driver, input: Input, before: seq<Observation>)
    requires Consistent(d.parser) && Tracks(d.cutter, before)
    ensures Tracks(Perform(d, input).driver.cutter, before + Perform(d, input).trace)
  {
    hide IngestAll, Receive, Newest, SlotZero, GoodDeliveries;
    var r := Perform(d, input);
    if input.Read? {
      FramesAreSized(d.parser, input.data);
      IngestAllTracks(d.cutter, Receive(d.parser, input.data).frames, before);
    } else if r.trace == [] {
      assert before + r.trace == before;
    } else {
      NewestAppend(before, r.trace[0]);
      SlotZeroAppend(before, r.trace[0]);
      AppendGood(before, r.trace[0]);
      assert r.trace == [r.trace[0]];
    }
  }

  lemma {:induction false} RunTracks(d: Driver, inputs: seq<Input>, before: seq<Observation>)
    requires Consistent(d.parser) && Tracks(d.cutter, before)
    ensures Tracks(PerformAll(d, inputs).driver.cutter, before + PerformAll(d, inputs).trace)
    decreases |inputs|
  {
    hide Perform, Tracks;
    if inputs == [] {
      assert before + [] == before;
    } else {
      var first := Perform(d, inputs[0]);
      var later := PerformAll(first.driver, inputs[1..]);
      PerformTracks(d, inputs[0], before);
      RunTracks(first.driver, inputs[1..], before + first.trace);
      assert (before + first.trace) + later.trace == before + (first.trace + later.trace);
    }
  }

  /** In every run, every scan handed out is the newest one cut and was not handed out before. */
  lemma DeliveriesAreGood(inputs: seq<Input>)
    ensures GoodDeliveries(PerformAll(POWER_UP, inputs).trace)
  {
    RunTracks(POWER_UP, inputs, []);
    var trace := PerformAll(POWER_UP, inputs).trace;
    assert [] + trace == trace;
  }

  /**
    What the next grab hands out, in every run: the newest scan, exactly when the angle left in
    slot 0 is ten degrees or less; the plain grab asks for points as well.
   */
  lemma NextGrabExactly(inputs: seq<Input>)
    ensures var r := PerformAll(POWER_UP, inputs);
            var offer := if SlotZero(r.trace) <= 1000 then Newest(r.trace) else None;
            && GrabBlockingResult(r.driver.cutter, true) == offer
            && GrabResult(r.driver.cutter) == if offer.Some? && offer.value.points != [] then offer else None
  {
    RunTracks(POWER_UP, inputs, []);
    var trace := PerformAll(POWER_UP, inputs).trace;
    assert [] + trace == trace;
  }

  // ---------------------------------------------------------------------------------
  // In order, each at most once
  // ---------------------------------------------------------------------------------

  function DeliveredScans(trace: seq<Observation>): seq<Scan>
    decreases |trace|
  {
    if trace == [] then []
    else
      var front, o := trace[..|trace| - 1], trace[|trace| - 1];
      if o.Delivered? then DeliveredScans(front) + [o.scan] else DeliveredScans(front)
  }

  function CutScans(trace: seq<Observation>): seq<Scan>
    decreases |trace|
  {
    if trace == [] then []
    else
      var front, o := trace[..|trace| - 1], trace[|trace| - 1];
      if o.Happened? && o.event.Cut? then CutScans(front) + [o.event.scan] else CutScans(front)
  }

  /** a is obtained from b by leaving elements out. */
  predicate Subsequence<T(==)>(a: seq<T>, b: seq<T>)
    decreases |b|
  {
    if b == [] then a == []
    else
      || Subsequence(a, b[..|b| - 1])
      || (a != [] && a[|a| - 1] == b[|b| - 1] && Subsequence(a[..|a| - 1], b[..|b| - 1]))
  }

  lemma {:induction false} GoodDeliveriesInOrder(trace: seq<Observation>)
    requires GoodDeliveries(trace)
    ensures var a, b := DeliveredScans(trace), CutScans(trace);
            && Subsequence(a, b)
            && (Newest(trace).Some? ==>
                  b != [] && b[|b| - 1] == Newest(trace).value && Subsequence(a, b[..|b| - 1]))
    decreases |trace|
  {
    if trace != [] {
      var front, o := trace[..|trace| - 1], trace[|trace| - 1];
      forall i | 0 <= i < |front| ensures GoodDelivery(front[..i], front[i]) {
        assert front[..i] == trace[..i];
        assert GoodDelivery(trace[..i], trace[i]);
      }
      GoodDeliveriesInOrder(front);
      assert GoodDelivery(trace[..|front|], trace[|front|]);
      var a, b := DeliveredScans(front), CutScans(front);
      if o.Delivered? {
        assert (a + [o.scan])[..|a|] == a;
      } else if o.event.Cut? {
        assert (b + [o.event.scan])[..|b|] == b;
      }
    }
  }

  /** The scans handed out are an in-order subsequence of the scans cut, so none is handed out twice. */
  lemma DeliveredInOrder(inputs: seq<Input>)
    ensures var trace := PerformAll(POWER_UP, inputs).trace; Subsequence(DeliveredScans(trace), CutScans(trace))
  {
    DeliveriesAreGood(inputs);
    GoodDeliveriesInOrder(PerformAll(POWER_UP, inputs).trace);
  }

  /**
    Right after a cut the plain grab offers the new scan if it has points and begins at ten
    degrees or less, and nothing otherwise.
   */
  lemma CutIsOffered(c: Cutter, f: Bytes)
    requires Valid(c) && |f| == FRAME_SIZE && !Overflows(c) && Ingest(c, f).events != []
    ensures var s := Ingest(c, f);
            && s.cutter.scan.speed == Speed(f)
            && GrabResult(s.cutter) ==
               if s.cutter.scan.points != [] && s.cutter.scan.points[0].angle <= 1000 then Some(s.cutter.scan) else None
  {
    hide PointsOf;
    CutAtJump(c, f);
  }

  // ---------------------------------------------------------------------------------
  // The blocking grab can hand out an empty scan
  // ---------------------------------------------------------------------------------

  /** After a packet that cuts: exactly when the blocking grab would hand out an empty scan. */
  lemma EmptyOfferedExactly(c: Cutter, f: Bytes)
    requires Valid(c) && |f| == FRAME_SIZE && !Overflows(c) && Ingest(c, f).events != []
    ensures GrabBlockingResult(Ingest(c, f).cutter, true) == Some(Scan([], Speed(f)))
            <==> c.pending == [] && c.last - PointsOf(f)[0].angle > 100 && c.head <= 1000
  {
    hide PointsOf;
    EmptyCutExactly(c, f);
    CutAtJump(c, f);
  }

  /**
    The same over whole runs of packets: packet n cuts a scan that is empty and offered exactly
    when it is far behind an overflow and slot 0 still holds an angle of ten degrees or less.
   */
  lemma EmptyOfferedOfPacket(fs: seq<Bytes>, n: nat)
    requires Sized(fs) && n < |fs|
    ensures var s := Ingest(After(ScanCutter.INIT, fs, n), fs[n]);
            s.events != [] && s.events[0].Cut? && GrabBlockingResult(s.cutter, true) == Some(Scan([], Speed(fs[n])))
            <==> FarBehindOverflow(fs, n) && After(ScanCutter.INIT, fs, n).head <= 1000
  {
    hide PointsOf, IngestAll, Ingest;
    var c := After(ScanCutter.INIT, fs, n);
    AfterIsValid(ScanCutter.INIT, fs, n);
    EmptyCutOfPacket(fs, n);
    EmptyCutExactly(c, fs[n]);
    IngestEvents(c, fs[n]);
    if !Overflows(c) && Ingest(c, fs[n]).events != [] {
      EmptyOfferedExactly(c, fs[n]);
    }
  }

  function Repeat(f: Bytes, n: nat): (fs: seq<Bytes>)
    ensures |fs| == n && forall x | x in fs :: x == f
  {
    if n == 0 then [] else Repeat(f, n - 1) + [f]
  }

  /** A packet that spans no angle: its twelve points all lie at its start angle. */
  predicate Standstill(f: Bytes) {
    |f| == FRAME_SIZE && StartAngle(f) == EndAngle(f) < 36000
  }

  lemma StandstillAngles(f: Bytes)
    requires Standstill(f)
    ensures forall i | 0 <= i < POINTS_PER_PACK :: PointsOf(f)[i].angle == StartAngle(f)
  {
  }

  lemma StandstillStep(c: Cutter, f: Bytes)
    requires Standstill(f) && !Overflows(c) && c.last <= StartAngle(f) + 100
    ensures Ingest(c, f) == Step(c.(pending := c.pending + PointsOf(f), last := StartAngle(f)), [])
  {
    hide PointsOf;
    StandstillAngles(f);
  }

  lemma {:induction false} StandstillFills(f: Bytes, n: nat)
    requires Standstill(f) && 12 * n < CAPACITY
    ensures var c := IngestAll(ScanCutter.INIT, Repeat(f, n)).cutter;
            && |c.pending| == 12 * n
            && c.last == (if n == 0 then 0 else StartAngle(f))
            && c.scan.points == [] && c.head == 0 && !c.ready
  {
    hide PointsOf, Ingest;
    if n > 0 {
      StandstillFills(f, n - 1);
      IngestSnoc(ScanCutter.INIT, Repeat(f, n - 1), f);
      StandstillStep(IngestAll(ScanCutter.INIT, Repeat(f, n - 1)).cutter, f);
    }
  }

  lemma StandstillOverflows(f: Bytes)
    requires Standstill(f)
    ensures var c := IngestAll(ScanCutter.INIT, Repeat(f, 342)).cutter;
            Valid(c) && c.pending == [] && c.last == StartAngle(f) && c.head == 0
  {
    hide PointsOf, IngestAll;
    StandstillFills(f, 341);
    IngestSnoc(ScanCutter.INIT, Repeat(f, 341), f);
  }

  lemma StartsAtStartAngle(f: Bytes)
    requires |f| == FRAME_SIZE && StartAngle(f) < 36000
    ensures PointsOf(f)[0].angle == StartAngle(f)
  {
  }

  /**
    Packets stand still at an angle above one degree for long enough to overflow the array;
    the next one starts more than a degree lower.  The scan cut is empty, yet it is published,
    because its start angle is read from a slot that holds no point.  The blocking grab hands
    it out; the plain grab refuses it.
   */
  lemma EmptyScanHandedOut(f: Bytes, g: Bytes)
    requires Standstill(f) && |g| == FRAME_SIZE
    requires StartAngle(g) < 36000 && StartAngle(f) > StartAngle(g) + 100
    ensures var fs := Repeat(f, 342) + [g];
            && Sized(fs)
            && var c := IngestAll(ScanCutter.INIT, fs).cutter;
               && c.scan == Scan([], Speed(g))
               && GrabBlockingResult(c, true) == Some(c.scan)
               && GrabResult(c) == None
  {
    hide PointsOf, IngestAll, Ingest;
    var full := Repeat(f, 342);
    StandstillOverflows(f);
    var c := IngestAll(ScanCutter.INIT, full).cutter;
    IngestSnoc(ScanCutter.INIT, full, g);
    StartsAtStartAngle(g);
    EmptyCutExactly(c, g);
    IngestEvents(c, g);
    EmptyOfferedExactly(c, g);
  }

  // ---------------------------------------------------------------------------------
  // The same over the serial line
  // ---------------------------------------------------------------------------------

  /** One read per packet. */
  function ReadEach(fs: seq<Bytes>): (inputs: seq<Input>)
    ensures |inputs| == |fs|
    ensures forall i | 0 <= i < |fs| :: inputs[i] == Read(fs[i])
  {
    seq(|fs|, i requires 0 <= i < |fs| => Read(fs[i]))
  }

  lemma PerformConcat(d: Driver, a: seq<Input>, b: seq<Input>)
    requires Consistent(d.parser)
    ensures var first := PerformAll(d, a); var later := PerformAll(first.driver, b);
            PerformAll(d, a + b) == Run(later.driver, first.trace + later.trace)
    decreases |a|
  {
    hide Perform;
    if a == [] {
      assert a + b == b;
    } else {
      assert (a + b)[1..] == a[1..] + b;
      var one := Perform(d, a[0]);
      PerformConcat(one.driver, a[1..], b);
      var first := PerformAll(one.driver, a[1..]);
      var later := PerformAll(first.driver, b);
      assert one.trace + (first.trace + later.trace) == (one.trace + first.trace) + later.trace;
    }
  }

  lemma PerformOne(d: Driver, input: Input)
    requires Consistent(d.parser)
    ensures PerformAll(d, [input]) == Perform(d, input)
  {
    hide Perform;
    assert [input][1..] == [];
    var r := Perform(d, input);
    assert r.trace + [] == r.trace;
  }

  /** A packet that arrives alone is accepted at once. */
  lemma ReadFrame(c: Cutter, f: Bytes)
    requires ValidFrame(f)
    ensures var s := Ingest(c, f);
            Perform(Driver(StreamParser.INIT, c), Read(f)) ==
            Run(Driver(StreamParser.INIT, s.cutter), Observed(s.events))
  {
    hide Ingest, Parse, CrcOk;
    assert [] + (f + []) == f && StreamParser.INIT.buf + f == f;
    ParseFirst([], f, [], 0);
    IngestOne(c, f);
  }

  lemma {:induction false} ReadsOfReadEach(fs: seq<Bytes>)
    ensures Reads(ReadEach(fs)) == fs
    decreases |fs|
  {
    if fs != [] {
      assert ReadEach(fs)[1..] == ReadEach(fs[1..]);
      ReadsOfReadEach(fs[1..]);
    }
  }

  lemma ObservedConcat(a: seq<Event>, b: seq<Event>)
    ensures Observed(a) + Observed(b) == Observed(a + b)
  {
  }

  /** Packets that arrive one per read are ingested one after another. */
  lemma {:induction false} ReadEachFrame(c: Cutter, fs: seq<Bytes>)
    requires AllValid(fs)
    ensures Sized(fs)
    ensures var s := IngestAll(c, fs);
            PerformAll(Driver(StreamParser.INIT, c), ReadEach(fs)) ==
            Run(Driver(StreamParser.INIT, s.cutter), Observed(s.events))
    decreases |fs|
  {
    hide Ingest, Perform, CrcOk, Header;
    if fs != [] {
      assert ReadEach(fs)[1..] == ReadEach(fs[1..]);
      assert fs[0] in fs;
      var first := Ingest(c, fs[0]);
      ReadFrame(c, fs[0]);
      hide ValidFrame;
      ReadEachFrame(first.cutter, fs[1..]);
      ObservedConcat(first.events, IngestAll(first.cutter, fs[1..]).events);
    }
  }

  /**
    So the empty scan is handed out in a run from power-up, over packets a lidar can send: 342
    equal packets p that span no angle, one packet q that begins more than a degree lower, and
    a grab that waits.
   */
  lemma EmptyScanReceived(p: Packet, q: Packet)
    requires Encodable(p) && p.startAngle == p.endAngle < 36000
    requires Encodable(q) && q.startAngle < 36000 && p.startAngle > q.startAngle + 100
    ensures var calls := ReadEach(Repeat(Encode(p), 342) + [Encode(q)]);
            && ShortReads(Reads(calls))
            && var before := PerformAll(POWER_UP, calls).trace;
               PerformAll(POWER_UP, calls + [GrabBlocking(true)]).trace ==
               before + [Delivered(Scan([], q.speed), true)]
  {
    hide PerformAll, IngestAll, Encode, ReadEach, Reads, Speed, StartAngle, EndAngle, PointsOf, CrcOk, Receive;
    DecodeEncode(p);
    DecodeEncode(q);
    var fs := Repeat(Encode(p), 342) + [Encode(q)];
    EmptyScanHandedOut(Encode(p), Encode(q));
    ReadEachFrame(ScanCutter.INIT, fs);
    ReadsOfReadEach(fs);
    PerformConcat(POWER_UP, ReadEach(fs), [GrabBlocking(true)]);
    PerformOne(PerformAll(POWER_UP, ReadEach(fs)).driver, GrabBlocking(true));
  }

  ghost predicate HandsOutEmptyScan(trace: seq<Observation>) {
    exists o | o in trace && o.Delivered? :: o.scan.points == []
  }

  /** A packet with twelve equal readings. */
  function Plain(start: nat, end: nat): (p: Packet)
    requires start < 0x1_0000 && end < 0x1_0000
    ensures Encodable(p) && p.startAngle == start && p.endAngle == end
  {
    Packet(600, start, seq(POINTS_PER_PACK, i requires 0 <= i < POINTS_PER_PACK => Reading(1000, 50)), end, 0)
  }

  /** For example: packets that stand still at 90 degrees, then one from 10 degrees on. */
  lemma EmptyScanExample()
    ensures exists inputs :: ShortReads(Reads(inputs)) && HandsOutEmptyScan(PerformAll(POWER_UP, inputs).trace)
  {
    hide Encode, PerformAll, Reads, ShortReads, ReadEach, Repeat;
    var p, q := Plain(9000, 9000), Plain(1000, 2000);
    EmptyScanReceived(p, q);
    var calls := ReadEach(Repeat(Encode(p), 342) + [Encode(q)]);
    var trace := PerformAll(POWER_UP, calls + [GrabBlocking(true)]).trace;
    assert trace[|trace| - 1] in trace;
    ReadsWithGrab(calls, GrabBlocking(true));
  }

  lemma {:induction false} ReadsWithGrab(calls: seq<Input>, grab: Input)
    requires !grab.Read?
    ensures Reads(calls + [grab]) == Reads(calls)
    decreases |calls|
  {
    var all := calls + [grab];
    if calls == [] {
      assert all[1..] == [];
    } else {
      assert all[1..] == calls[1..] + [grab];
      ReadsWithGrab(calls[1..], grab);
    }
  }

  // ---------------------------------------------------------------------------------
  // A scan with an internal jump can be handed out
  // ---------------------------------------------------------------------------------

  /** A packet whose first point lies far behind is kept whole, and what was pending is cut off. */
  lemma CutAtFirst(c: Cutter, f: Bytes)
    requires |f| == FRAME_SIZE && !Overflows(c) && c.last - PointsOf(f)[0].angle > 100
    ensures var s := Ingest(c, f);
            s.cutter.pending == PointsOf(f) && s.cutter.last == PointsOf(f)[11].angle
            && s.cutter.scan == Scan(c.pending, Speed(f))
            && s.events == [Cut(s.cutter.scan)]
            && (c.pending != [] ==> (s.cutter.ready <==> c.pending[0].angle <= 1000))
  {
    hide PointAt, PointsOf;
    assert PointsOf(f)[0..] == PointsOf(f) && c.pending + PointsOf(f)[..0] == c.pending;
    assert Before(c.last, PointsOf(f), 0) == c.last;
  }

  /** Three packets: f stands still, g lies behind it, and h lies behind the end of g. */
  lemma ThreeCuts(f: Bytes, g: Bytes, h: Bytes)
    requires Standstill(f) && |g| == |h| == FRAME_SIZE
    requires StartAngle(f) - PointsOf(g)[0].angle > 100 && PointsOf(g)[11].angle - PointsOf(h)[0].angle > 100
    requires PointsOf(g)[0].angle <= 1000
    ensures Sized([f, g, h])
    ensures GrabResult(IngestAll(ScanCutter.INIT, [f, g, h]).cutter) == Some(Scan(PointsOf(g), Speed(h)))
  {
    hide PointsOf, Ingest, IngestAll, StartAngle, EndAngle, Speed;
    var c1 := Ingest(ScanCutter.INIT, f).cutter;
    var c2 := Ingest(c1, g).cutter;
    StandstillStep(ScanCutter.INIT, f);
    CutAtFirst(c1, g);
    CutAtFirst(c2, h);
    IngestOne(ScanCutter.INIT, f);
    IngestSnoc(ScanCutter.INIT, [f], g);
    IngestSnoc(ScanCutter.INIT, [f] + [g], h);
    assert [f] + [g] + [h] == [f, g, h];
  }

  /** The angles of a packet wrap around behind its point i. */
  predicate WrapsBehind(p: Packet, i: nat) {
    i < 11 && AngleAt(p.startAngle, p.endAngle, i) - AngleAt(p.startAngle, p.endAngle, i + 1) > 100
  }

  /**
    Packets a lidar can send, read one by one from power-up, after which the plain grab hands
    out a scan with an internal jump: p spans no angle, q begins more than a degree lower and
    wraps around behind its point i, and r begins more than a degree below the end of q.
   */
  lemma JumpingScanReceived(p: Packet, q: Packet, r: Packet, i: nat)
    requires Encodable(p) && p.startAngle == p.endAngle < 36000
    requires Encodable(q) && q.startAngle <= 1000 && p.startAngle > q.startAngle + 100
    requires Encodable(r) && r.startAngle < 36000
    ensures WrapsBehind(q, i) && AngleAt(q.startAngle, q.endAngle, 11) > r.startAngle + 100 ==>
              var calls := ReadEach([Encode(p), Encode(q), Encode(r)]);
              var scan := Scan(PointsOf(Encode(q)), r.speed);
              && ShortReads(Reads(calls)) && JumpAt(scan.points, i)
              && var before := PerformAll(POWER_UP, calls).trace;
                 PerformAll(POWER_UP, calls + [Grab]).trace == before + [Delivered(scan, false)]
  {
    hide PerformAll, IngestAll, Encode, ReadEach, Reads, Speed, StartAngle, EndAngle, PointsOf, CrcOk, Receive, AngleAt;
    if WrapsBehind(q, i) && AngleAt(q.startAngle, q.endAngle, 11) > r.startAngle + 100 {
      DecodeEncode(p);
      DecodeEncode(q);
      DecodeEncode(r);
      FirstAngle(q.startAngle, q.endAngle);
      FirstAngle(r.startAngle, r.endAngle);
      var fs := [Encode(p), Encode(q), Encode(r)];
      ThreeCuts(Encode(p), Encode(q), Encode(r));
      ReadEachFrame(ScanCutter.INIT, fs);
      ReadsOfReadEach(fs);
      PerformConcat(POWER_UP, ReadEach(fs), [Grab]);
      PerformOne(PerformAll(POWER_UP, ReadEach(fs)).driver, Grab);
    }
  }

  ghost predicate HandsOutJump(trace: seq<Observation>) {
    exists o | o in trace && o.Delivered? :: !o.blocking && !Smooth(o.scan.points)
  }

  /** For example: a packet at 10 degrees, one from 5 degrees once around to 4, and one at 1 degree. */
  lemma JumpingScanExample()
    ensures exists inputs :: ShortReads(Reads(inputs)) && HandsOutJump(PerformAll(POWER_UP, inputs).trace)
  {
    hide Encode, PerformAll, Reads, ShortReads, ReadEach, PointsOf;
    var p, q, r := Plain(1000, 1000), Plain(500, 400), Plain(100, 100);
    assert AngleAt(500, 400, 10) == 33130 && AngleAt(500, 400, 11) == 393;
    JumpingScanReceived(p, q, r, 10);
    var calls := ReadEach([Encode(p), Encode(q), Encode(r)]);
    var trace := PerformAll(POWER_UP, calls + [Grab]).trace;
    assert trace[|trace| - 1] in trace;
    ReadsWithGrab(calls, Grab);
  }

  // ---------------------------------------------------------------------------------
  // A complete packet can be kept back
  // ---------------------------------------------------------------------------------

  function Zeros(n: nat): (b: Bytes)
    ensures |b| == n && forall i | 0 <= i < n :: b[i] == 0
  {
    seq(n, _ => 0)
  }

  /** Of two packets behind 45 zero bytes, all in one read, only the first is handed over, whatever they say. */
  lemma PacketKeptBack(p: Packet, q: Packet)
    requires Encodable(p) && Encodable(q)
    ensures var data := Zeros(45) + Concat([Encode(p), Encode(q)]);
            && |data| <= READ_SIZE
            && var o := Receive(StreamParser.INIT, data);
               o.frames == [Encode(p)] && Frames(o.parser.buf) == [Encode(q)]
  {
    hide Encode, Receive, Frames, CrcOk;
    EncodeIsValid(p);
    EncodeIsValid(q);
    var fs := [Encode(p), Encode(q)];
    ConcatLength(fs);
    PromptExactly(Zeros(45), fs);
  }
}
