/**
  Whole runs of the driver: reads and grabs, interleaved in any order as atomic steps.
 */
module Delivery {
  import opened Framing
  import opened Decode
  import opened StreamParser
  import opened ScanCutter
  import opened ScanDivision
  import opened Wrappers

  datatype Driver = Driver(parser: Parser, cutter: Cutter)

  /** `GrabBlocking(false)` is a wait that timed out. */
  datatype Input = Read(data: Bytes) | Grab | GrabBlocking(signalled: bool)

  datatype Observation = Happened(event: Event) | Delivered(scan: Scan, blocking: bool)

  datatype Run = Run(driver: Driver, trace: seq<Observation>)

  const POWER_UP := Driver(StreamParser.INIT, ScanCutter.INIT)

  /** What `GrabFullScan` would hand out. */
  function GrabResult(c: Cutter): Option<Scan> {
    if |c.scan.points| == 0 || !c.ready then None else Some(c.scan)
  }

  /** `GrabFullScanBlocking` does not look at the number of points. */
  function GrabBlockingResult(c: Cutter, signalled: bool): Option<Scan> {
    if signalled && c.ready then Some(c.scan) else None
  }

  function HandOut(d: Driver, result: Option<Scan>, blocking: bool): Run {
    match result
    case None => Run(d, [])
    case Some(scan) => Run(d.(cutter := d.cutter.(ready := false)), [Delivered(scan, blocking)])
  }

  function Observed(events: seq<Event>): (os: seq<Observation>)
    ensures |os| == |events|
    ensures forall i | 0 <= i < |os| :: os[i] == Happened(events[i])
  {
    seq(|events|, i requires 0 <= i < |events| => Happened(events[i]))
  }

  function Perform(d: Driver, input: Input): (r: Run)
    requires Consistent(d.parser)
    ensures Consistent(r.driver.parser)
  {
    match input
    case Read(data) =>
      var o := Receive(d.parser, data);
      FramesAreSized(d.parser, data);
      var s := IngestAll(d.cutter, o.frames);
      Run(Driver(o.parser, s.cutter), Observed(s.events))
    case Grab => HandOut(d, GrabResult(d.cutter), false)
    case GrabBlocking(signalled) => HandOut(d, GrabBlockingResult(d.cutter, signalled), true)
  }

  /**
    What a grab does to the driver: a wait that timed out hands out nothing and leaves the flag;
    otherwise a ready scan is handed out and the flag cleared, except that the plain grab
    leaves an empty scan where it is.
   */
  lemma GrabMeaning(d: Driver)
    requires Consistent(d.parser)
    ensures var c := d.cutter; var taken := d.(cutter := c.(ready := false));
            && Perform(d, GrabBlocking(false)) == Run(d, [])
            && Perform(d, GrabBlocking(true)) == (if c.ready then Run(taken, [Delivered(c.scan, true)]) else Run(d, []))
            && Perform(d, Grab) ==
               if c.ready && c.scan.points != [] then Run(taken, [Delivered(c.scan, false)]) else Run(d, [])
  {
  }

  function PerformAll(d: Driver, inputs: seq<Input>): (r: Run)
    requires Consistent(d.parser)
    ensures Consistent(r.driver.parser)
    decreases |inputs|
  {
    if inputs == [] then Run(d, [])
    else
      var first := Perform(d, inputs[0]);
      var later := PerformAll(first.driver, inputs[1..]);
      Run(later.driver, first.trace + later.trace)
  }

  lemma {:induction false} ParseFramesAreSized(p: Parser, pos: nat)
    requires Consistent(p) && |p.buf| >= FRAME_SIZE - 2
    ensures Sized(Parse(p, pos).frames)
    decreases |p.buf|
  {
    hide CrcOk;
    if pos < |p.buf| - 2 {
      var q := Align(p);
      if |q.buf| < FRAME_SIZE {
      } else if !CrcOk(q.buf[..FRAME_SIZE]) {
        ParseFramesAreSized(Drop(q, 2), HeaderAt(p));
      } else if |q.buf| >= 2 * FRAME_SIZE {
        ParseFramesAreSized(Drop(q, FRAME_SIZE), HeaderAt(p));
      }
    }
  }

  lemma FramesAreSized(p: Parser, data: Bytes)
    requires Consistent(p)
    ensures Sized(Receive(p, data).frames)
  {
    if FRAME_SIZE <= |p.buf + data| <= FLUSH_LIMIT {
      ParseFramesAreSized(p.(buf := p.buf + data), 0);
    }
  }

  // ---------------------------------------------------------------------------------
  // Grabs do not disturb reception
  // ---------------------------------------------------------------------------------

  function Reads(inputs: seq<Input>): seq<Bytes> {
    if inputs == [] then []
    else (if inputs[0].Read? then [inputs[0].data] else []) + Reads(inputs[1..])
  }

  function EventsOf(trace: seq<Observation>): seq<Event> {
    if trace == [] then []
    else (if trace[0].Happened? then [trace[0].event] else []) + EventsOf(trace[1..])
  }

  /** The same scans, published or not. */
  predicate SameScans(a: Cutter, b: Cutter) {
    a.(ready := false) == b.(ready := false)
  }

  lemma {:induction false} IngestIgnoresReady(a: Cutter, b: Cutter, fs: seq<Bytes>)
    requires SameScans(a, b) && Sized(fs)
    ensures IngestAll(a, fs).events == IngestAll(b, fs).events
    ensures SameScans(IngestAll(a, fs).cutter, IngestAll(b, fs).cutter)
    decreases |fs|
  {
    hide PointsOf;
    if fs != [] {
      IngestIgnoresReady(Ingest(a, fs[0]).cutter, Ingest(b, fs[0]).cutter, fs[1..]);
    }
  }

  lemma {:induction false} EventsConcat(a: seq<Observation>, b: seq<Observation>)
    ensures EventsOf(a + b) == EventsOf(a) + EventsOf(b)
    decreases |a|
  {
    if a == [] {
      assert a + b == b;
    } else {
      var one := if a[0].Happened? then [a[0].event] else [];
      assert (a + b)[1..] == a[1..] + b;
      EventsConcat(a[1..], b);
      assert (one + EventsOf(a[1..])) + EventsOf(b) == one + (EventsOf(a[1..]) + EventsOf(b));
    }
  }

  lemma {:induction false} EventsObserved(events: seq<Event>)
    ensures EventsOf(Observed(events)) == events
    decreases |events|
  {
    if events != [] {
      assert Observed(events)[1..] == Observed(events[1..]);
      EventsObserved(events[1..]);
    }
  }

  lemma PerformWithoutGrab(d: Driver, input: Input)
    requires Consistent(d.parser)
    ensures var r := Perform(d, input);
            var o := if input.Read? then Receive(d.parser, input.data) else Outcome(d.parser, []);
            && r.driver.parser == o.parser && Sized(o.frames)
            && var s := IngestAll(d.cutter, o.frames);
               EventsOf(r.trace) == s.events && SameScans(r.driver.cutter, s.cutter)
  {
    hide Ingest, Receive;
    if input.Read? {
      FramesAreSized(d.parser, input.data);
      EventsObserved(IngestAll(d.cutter, Receive(d.parser, input.data).frames).events);
    }
  }

  /**
    However grabs are interleaved with reads, the scans cut are those of the accepted packets,
    and the packets accepted are those of the reads alone.
   */
  lemma {:induction false} GrabsDoNotInterfere(d: Driver, inputs: seq<Input>)
    requires Consistent(d.parser)
    ensures var r := PerformAll(d, inputs);
            var o := ReceiveAll(d.parser, Reads(inputs));
            && r.driver.parser == o.parser && Sized(o.frames)
            && var s := IngestAll(d.cutter, o.frames);
               EventsOf(r.trace) == s.events && SameScans(r.driver.cutter, s.cutter)
    decreases |inputs|
  {
    hide Perform, Receive, Ingest;
    if inputs == [] {
    } else {
      var first := Perform(d, inputs[0]);
      var later := PerformAll(first.driver, inputs[1..]);
      PerformWithoutGrab(d, inputs[0]);
      GrabsDoNotInterfere(first.driver, inputs[1..]);
      EventsConcat(first.trace, later.trace);
      var o1 := if inputs[0].Read? then Receive(d.parser, inputs[0].data) else Outcome(d.parser, []);
      var o2 := ReceiveAll(o1.parser, Reads(inputs[1..]));
      ReadsOf(d.parser, inputs);
      IngestConcat(d.cutter, o1.frames, o2.frames);
      IngestIgnoresReady(first.driver.cutter, IngestAll(d.cutter, o1.frames).cutter, o2.frames);
    }
  }

  lemma ReadsOf(p: Parser, inputs: seq<Input>)
    requires Consistent(p) && inputs != []
    ensures var o1 := if inputs[0].Read? then Receive(p, inputs[0].data) else Outcome(p, []);
            var o2 := ReceiveAll(o1.parser, Reads(inputs[1..]));
            ReceiveAll(p, Reads(inputs)) == Outcome(o2.parser, o1.frames + o2.frames)
  {
    hide Receive;
    if inputs[0].Read? {
      assert Reads(inputs)[1..] == Reads(inputs[1..]);
    } else {
      assert Reads(inputs) == Reads(inputs[1..]);
    }
  }

  // ---------------------------------------------------------------------------------
  // End to end: every point of every packet sent is accounted for
  // ---------------------------------------------------------------------------------

  lemma {:induction false} StreamFramesAreSized(b: Bytes)
    ensures Sized(Frames(b))
    decreases |b|
  {
    hide CrcOk;
    if |b| < FRAME_SIZE {
    } else if !Header(b) {
      StreamFramesAreSized(b[1..]);
    } else if CrcOk(b[..FRAME_SIZE]) {
      StreamFramesAreSized(b[FRAME_SIZE..]);
    } else {
      StreamFramesAreSized(b[2..]);
    }
  }

  /** The points of all packets in a stream. */
  function DecodeStream(b: Bytes): seq<Point> {
    StreamFramesAreSized(b);
    DecodeAll(Frames(b))
  }

  lemma {:induction false} DecodeConcat(a: seq<Bytes>, b: seq<Bytes>)
    requires Sized(a) && Sized(b)
    ensures Sized(a + b) && DecodeAll(a + b) == DecodeAll(a) + DecodeAll(b)
    decreases |a|
  {
    hide PointsOf;
    if a == [] {
      assert a + b == b;
    } else {
      TailOfConcat(a, b);
      DecodeConcat(a[1..], b);
      Associative(PointsOf(a[0]), DecodeAll(a[1..]), DecodeAll(b));
    }
  }

  /**
    From the serial line to the scans.  In every run from power-up, however the bytes were
    cut into reads and whenever scans were grabbed: the points of the scans cut and of the
    overflows discarded, the points pending, and the points of packets still in the buffer
    are, in this order, exactly the points of the packets in the bytes received.
   */
  lemma EndToEnd(inputs: seq<Input>)
    requires ShortReads(Reads(inputs))
    ensures var r := PerformAll(POWER_UP, inputs);
            Flow(EventsOf(r.trace)) + r.driver.cutter.pending + DecodeStream(r.driver.parser.buf)
            == DecodeStream(Concat(Reads(inputs)))
  {
    hide Frames, IngestAll, ReceiveAll, PerformAll, DecodeAll, Flow, EventsOf, Reads;
    var o := ReceiveAll(StreamParser.INIT, Reads(inputs));
    GrabsDoNotInterfere(POWER_UP, inputs);
    ChunkIndependence(Reads(inputs));
    Conservation(ScanCutter.INIT, o.frames);
    StreamFramesAreSized(o.parser.buf);
    DecodeConcat(o.frames, Frames(o.parser.buf));
  }

  /**
    Scans have the shape, and empty scans the cause, that packets give them, whatever the
    interleaving: a scan has an internal jump exactly when a packet that fits is masked and the
    next event is a cut, and an empty one is cut exactly by a packet far behind an overflow.
   */
  lemma ScansOfRun(inputs: seq<Input>)
    ensures var r := PerformAll(POWER_UP, inputs);
            var fs := ReceiveAll(StreamParser.INIT, Reads(inputs)).frames;
            var events := EventsOf(r.trace);
            && Sized(fs)
            && AllAlmostSmooth(events)
            && (NeverMasks(ScanCutter.INIT, fs) ==> AllSmooth(events) && Smooth(r.driver.cutter.pending))
            && (AllSmooth(events) <==> forall m | 0 <= m < |fs| :: !CutsTainted(ScanCutter.INIT, fs, m))
            && EmptyOnlyAfterDiscard(events, false)
            && (CutsEmptyScan(events) <==> exists n :: FarBehindOverflow(fs, n))
  {
    hide IngestAll, ReceiveAll, PerformAll, EmptyOnlyAfterDiscard, AllAlmostSmooth, AllSmooth, Smooth, CutsEmptyScan,
      FarBehindOverflow, NeverMasks, CutsTainted;
    var o := ReceiveAll(StreamParser.INIT, Reads(inputs));
    GrabsDoNotInterfere(POWER_UP, inputs);
    NothingIsSmooth();
    RunKeepsShape(ScanCutter.INIT, o.frames);
    RunSmoothExactly(ScanCutter.INIT, o.frames);
    ScansSmoothExactly(ScanCutter.INIT, o.frames);
    EmptyScansFromInit(o.frames);
    EmptyScansExactly(o.frames);
  }

  /**
    In a run, the scans cut and the points pending are the division of the points of all
    accepted packets at their jumps, exactly when every packet was ingested calmly.
   */
  lemma RunDivides(inputs: seq<Input>)
    ensures var r := PerformAll(POWER_UP, inputs);
            var fs := ReceiveAll(StreamParser.INIT, Reads(inputs)).frames;
            && Sized(fs)
            && (Division(Scans(EventsOf(r.trace)), r.driver.cutter.pending) == Divide(DecodeAll(fs))
                <==> Calm(ScanCutter.INIT, fs))
  {
    hide IngestAll, ReceiveAll, PerformAll, Divide, Calm, Scans;
    GrabsDoNotInterfere(POWER_UP, inputs);
    DividesExactly(ReceiveAll(StreamParser.INIT, Reads(inputs)).frames);
  }
}
