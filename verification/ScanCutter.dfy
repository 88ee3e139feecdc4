/**
  The scan cutter inside `uart_data_handle`: points of accepted packets pile up in one
  bounded array, and every backward jump of more than one degree cuts off a scan.
 */
module ScanCutter {
  import opened Framing
  import opened Decode

  const CAPACITY := 4096

  datatype Scan = Scan(points: seq<Point>, speed: nat)

  /**
    pending   the valid prefix of temp_data
    last      the static last_angle
    scan      the valid prefix of full_scan_data_, and its speed
    head      the angle in slot 0 of full_scan_data_, which an empty cut leaves untouched
    ready     full_scan_ready_
   */
  datatype Cutter = Cutter(pending: seq<Point>, last: nat, scan: Scan, head: nat, ready: bool)

  datatype Event = Cut(scan: Scan) | Discard(points: seq<Point>)
  datatype Step = Step(cutter: Cutter, events: seq<Event>)

  const INIT := Cutter([], 0, Scan([], 0), 0, false)

  predicate Valid(c: Cutter) {
    && |c.pending| < CAPACITY
    && (c.pending != [] ==> c.last == c.pending[|c.pending| - 1].angle)
    && (c.scan.points != [] ==> c.head == c.scan.points[0].angle)
  }

  /** The angle a point is compared with: that of the point before it, or `last` for the first one. */
  function Before(last: nat, ps: seq<Point>, i: nat): nat
    requires i < |ps|
  {
    if i == 0 then last else ps[i - 1].angle
  }

  /** The loop over the packet: the first point, from i on, that lies more than a degree behind its predecessor. */
  function CutIndex(last: nat, ps: seq<Point>, i: nat): (k: nat)
    requires i <= |ps|
    ensures i <= k <= |ps|
    ensures forall j | i <= j < k :: Before(last, ps, j) - ps[j].angle <= 100
    ensures k < |ps| ==> Before(last, ps, k) - ps[k].angle > 100
    decreases |ps| - i
  {
    if i == |ps| || Before(last, ps, i) - ps[i].angle > 100 then i else CutIndex(last, ps, i + 1)
  }

  predicate Overflows(c: Cutter) {
    |c.pending| + POINTS_PER_PACK >= CAPACITY
  }

  /** One accepted packet. */
  function Ingest(c: Cutter, f: Bytes): Step
    requires |f| == FRAME_SIZE
  {
    var ps := PointsOf(f);
    if Overflows(c) then Step(c.(pending := []), [Discard(c.pending + ps)])
    else
      var k := CutIndex(c.last, ps, 0);
      var last := ps[POINTS_PER_PACK - 1].angle;
      if k == POINTS_PER_PACK then Step(c.(pending := c.pending + ps, last := last), [])
      else
        var points := c.pending + ps[..k];
        var head := if points == [] then c.head else points[0].angle;
        var scan := Scan(points, Speed(f));
        Step(Cutter(ps[k..], last, scan, head, head <= 1000), [Cut(scan)])
  }

  /** A packet is discarded, with all that was pending, exactly when the array of 4096 points would be full. */
  lemma DiscardedExactly(c: Cutter, f: Bytes)
    requires |f| == FRAME_SIZE
    ensures Ingest(c, f) == Step(c.(pending := []), [Discard(c.pending + PointsOf(f))]) <==> |c.pending| + 12 >= 4096
  {
    hide PointsOf;
  }

  predicate Sized(fs: seq<Bytes>) {
    forall f | f in fs :: |f| == FRAME_SIZE
  }

  function IngestAll(c: Cutter, fs: seq<Bytes>): Step
    requires Sized(fs)
    decreases |fs|
  {
    if fs == [] then Step(c, [])
    else
      var first := Ingest(c, fs[0]);
      var later := IngestAll(first.cutter, fs[1..]);
      Step(later.cutter, first.events + later.events)
  }

  lemma IngestKeepsValid(c: Cutter, f: Bytes)
    requires Valid(c) && |f| == FRAME_SIZE
    ensures Valid(Ingest(c, f).cutter)
  {
    hide PointAt, PointsOf, Speed, Before, CutIndex;
  }

  lemma TailOfConcat<T>(a: seq<T>, b: seq<T>)
    requires a != []
    ensures (a + b)[1..] == a[1..] + b && (a + b)[0] == a[0]
  {
  }

  lemma Associative<T>(a: seq<T>, b: seq<T>, c: seq<T>)
    ensures (a + b) + c == a + (b + c)
  {
  }

  lemma {:induction false} IngestConcat(c: Cutter, a: seq<Bytes>, b: seq<Bytes>)
    requires Sized(a) && Sized(b)
    ensures Sized(a + b)
    ensures var s := IngestAll(c, a); var t := IngestAll(s.cutter, b);
            IngestAll(c, a + b) == Step(t.cutter, s.events + t.events)
    decreases |a|
  {
    hide Ingest;
    if a == [] {
      assert a + b == b;
    } else {
      TailOfConcat(a, b);
      var first := Ingest(c, a[0]);
      IngestConcat(first.cutter, a[1..], b);
      var s := IngestAll(first.cutter, a[1..]);
      var t := IngestAll(s.cutter, b);
      Associative(first.events, s.events, t.events);
    }
  }

  lemma IngestNothing(c: Cutter)
    ensures IngestAll(c, []) == Step(c, [])
  {
  }

  lemma IngestOne(c: Cutter, f: Bytes)
    requires |f| == FRAME_SIZE
    ensures IngestAll(c, [f]) == Ingest(c, f)
  {
    hide Ingest;
    assert [f][1..] == [];
    var s := Ingest(c, f);
    assert s.events + [] == s.events;
  }

  lemma IngestSnoc(c: Cutter, fs: seq<Bytes>, f: Bytes)
    requires Sized(fs) && |f| == FRAME_SIZE
    ensures Sized(fs + [f])
    ensures var s := IngestAll(c, fs); var t := Ingest(s.cutter, f);
            IngestAll(c, fs + [f]) == Step(t.cutter, s.events + t.events)
  {
    hide Ingest, IngestAll;
    IngestConcat(c, fs, [f]);
    IngestOne(IngestAll(c, fs).cutter, f);
  }

  /** The cutter after the first n packets. */
  function After(c: Cutter, fs: seq<Bytes>, n: nat): Cutter
    requires Sized(fs) && n <= |fs|
  {
    IngestAll(c, fs[..n]).cutter
  }

  lemma AfterNext(c: Cutter, fs: seq<Bytes>, n: nat)
    requires Sized(fs) && n < |fs|
    ensures After(c, fs, n + 1) == Ingest(After(c, fs, n), fs[n]).cutter
  {
    hide Ingest, IngestAll;
    assert fs[..n + 1] == fs[..n] + [fs[n]];
    IngestSnoc(c, fs[..n], fs[n]);
  }

  /** What packet n of a run sets off. */
  function EventsAt(c: Cutter, fs: seq<Bytes>, n: nat): seq<Event>
    requires Sized(fs) && n < |fs|
  {
    Ingest(After(c, fs, n), fs[n]).events
  }

  lemma EventsNext(c: Cutter, fs: seq<Bytes>, m: nat)
    requires Sized(fs) && m < |fs|
    ensures IngestAll(c, fs[..m + 1]).events == IngestAll(c, fs[..m]).events + EventsAt(c, fs, m)
  {
    hide Ingest, IngestAll;
    assert fs[..m + 1] == fs[..m] + [fs[m]];
    IngestSnoc(c, fs[..m], fs[m]);
  }

  lemma {:induction false} AfterIsValid(c: Cutter, fs: seq<Bytes>, n: nat)
    requires Valid(c) && Sized(fs) && n <= |fs|
    ensures Valid(After(c, fs, n))
  {
    hide Ingest, Valid;
    if n > 0 {
      AfterIsValid(c, fs, n - 1);
      AfterNext(c, fs, n - 1);
      IngestKeepsValid(After(c, fs, n - 1), fs[n - 1]);
    }
  }

  // ---------------------------------------------------------------------------------
  // Conservation
  // ---------------------------------------------------------------------------------

  function PointsIn(e: Event): seq<Point> {
    match e
    case Cut(scan) => scan.points
    case Discard(points) => points
  }

  /** All the points that left the cutter, in order. */
  function Flow(events: seq<Event>): seq<Point> {
    if events == [] then [] else PointsIn(events[0]) + Flow(events[1..])
  }

  function DecodeAll(fs: seq<Bytes>): seq<Point>
    requires Sized(fs)
    decreases |fs|
  {
    if fs == [] then [] else PointsOf(fs[0]) + DecodeAll(fs[1..])
  }

  lemma {:induction false} FlowConcat(a: seq<Event>, b: seq<Event>)
    ensures Flow(a + b) == Flow(a) + Flow(b)
    decreases |a|
  {
    if a == [] {
      assert a + b == b;
    } else {
      assert (a + b)[1..] == a[1..] + b;
      FlowConcat(a[1..], b);
    }
  }

  lemma IngestConserves(c: Cutter, f: Bytes)
    requires |f| == FRAME_SIZE
    ensures var s := Ingest(c, f); Flow(s.events) + s.cutter.pending == c.pending + PointsOf(f)
  {
    hide PointAt;
    var s := Ingest(c, f);
    var ps := PointsOf(f);
    if s.events != [] {
      assert s.events == [s.events[0]] && s.events[1..] == [];
      assert Flow(s.events) == PointsIn(s.events[0]);
    }
    assert forall k | 0 <= k <= |ps| :: (c.pending + ps[..k]) + ps[k..] == c.pending + ps;
  }

  lemma Regroup<T>(out1: seq<T>, out2: seq<T>, left: seq<T>, kept: seq<T>, in0: seq<T>, in1: seq<T>, in2: seq<T>)
    requires out1 + kept == in0 + in1
    requires out2 + left == kept + in2
    ensures (out1 + out2) + left == in0 + (in1 + in2)
  {
    assert (out1 + out2) + left == out1 + (out2 + left) == (out1 + kept) + in2;
  }

  /** No point is lost, duplicated or reordered: cut, discarded and pending points are the decoded points. */
  lemma {:induction false} Conservation(c: Cutter, fs: seq<Bytes>)
    requires Sized(fs)
    ensures var s := IngestAll(c, fs); Flow(s.events) + s.cutter.pending == c.pending + DecodeAll(fs)
    decreases |fs|
  {
    hide Ingest, PointsOf;
    if fs == [] {
    } else {
      var first := Ingest(c, fs[0]);
      var later := IngestAll(first.cutter, fs[1..]);
      IngestConserves(c, fs[0]);
      Conservation(first.cutter, fs[1..]);
      FlowConcat(first.events, later.events);
      Regroup(Flow(first.events), Flow(later.events), later.cutter.pending, first.cutter.pending,
              c.pending, PointsOf(fs[0]), DecodeAll(fs[1..]));
    }
  }

  // ---------------------------------------------------------------------------------
  // The shape of scans
  // ---------------------------------------------------------------------------------

  predicate JumpAt(s: seq<Point>, i: int) {
    0 <= i < |s| - 1 && Jump(s[i], s[i + 1])
  }

  ghost predicate Smooth(s: seq<Point>) {
    forall i :: !JumpAt(s, i)
  }

  /** At most one jump, and that among the points of the packet that opened the scan. */
  ghost predicate AlmostSmooth(s: seq<Point>) {
    && (forall i | JumpAt(s, i) :: i < POINTS_PER_PACK - 1)
    && (forall i, j | JumpAt(s, i) && JumpAt(s, j) :: i == j)
  }

  ghost predicate AllAlmostSmooth(events: seq<Event>) {
    forall e | e in events && e.Cut? :: AlmostSmooth(e.scan.points)
  }

  /** The packet jumps back from the points before it, and then wraps around inside: the second jump goes unseen. */
  ghost predicate Masked(c: Cutter, f: Bytes)
    requires |f| == FRAME_SIZE
  {
    c.last - PointsOf(f)[0].angle > 100 && !Smooth(PointsOf(f))
  }

  /** A jump inside a packet is where the loop stops, unless it stopped at the first point. */
  lemma PacketJumps(last: nat, f: Bytes, i: int)
    requires |f| == FRAME_SIZE
    ensures JumpAt(PointsOf(f), i) ==> var k := CutIndex(last, PointsOf(f), 0); k == 0 || k == i + 1
  {
    var ps := PointsOf(f);
    var k := CutIndex(last, ps, 0);
    if JumpAt(ps, i) {
      assert Before(last, ps, i + 1) == ps[i].angle;
      if 0 < k <= i + 1 {
        JumpsOfPacket(f, i, k - 1);
      }
    }
  }

  lemma AppendedJumps(c: Cutter, f: Bytes, k: nat, i: int)
    requires Valid(c) && |f| == FRAME_SIZE && k <= CutIndex(c.last, PointsOf(f), 0)
    ensures JumpAt(c.pending + PointsOf(f)[..k], i) <==> JumpAt(c.pending, i)
  {
    hide PointAt;
    var ps := PointsOf(f);
    var n := |c.pending|;
    if n <= i + 1 < n + k {
      assert Before(c.last, ps, i + 1 - n) - ps[i + 1 - n].angle <= 100;
    }
  }

  lemma CarriedJumps(f: Bytes, last: nat, i: int)
    requires |f| == FRAME_SIZE
    ensures JumpAt(PointsOf(f)[CutIndex(last, PointsOf(f), 0)..], i) ==>
              CutIndex(last, PointsOf(f), 0) == 0 && JumpAt(PointsOf(f), i)
  {
    hide PointAt;
    PacketJumps(last, f, i + CutIndex(last, PointsOf(f), 0));
  }

  lemma NothingIsSmooth()
    ensures Valid(INIT) && Smooth(INIT.pending) && AlmostSmooth(INIT.pending)
  {
  }

  /** One packet keeps the pending points almost smooth, and every scan it cuts is. */
  lemma IngestKeepsShape(c: Cutter, f: Bytes)
    requires Valid(c) && |f| == FRAME_SIZE && AlmostSmooth(c.pending)
    ensures AlmostSmooth(Ingest(c, f).cutter.pending)
    ensures AllAlmostSmooth(Ingest(c, f).events)
  {
    hide PointAt, PointsOf;
    var ps := PointsOf(f);
    var k := CutIndex(c.last, ps, 0);
    assert ps[..|ps|] == ps;
    forall i ensures JumpAt(c.pending + ps[..k], i) <==> JumpAt(c.pending, i) {
      AppendedJumps(c, f, k, i);
    }
    forall i ensures JumpAt(ps[k..], i) ==> k == 0 && JumpAt(ps, i) {
      CarriedJumps(f, c.last, i);
    }
    forall i, j | JumpAt(ps, i) && JumpAt(ps, j) ensures i == j {
      JumpsOfPacket(f, i, j);
    }
  }

  /** Every scan of every run has at most one internal jump, and only among its first twelve points. */
  lemma {:induction false} RunKeepsShape(c: Cutter, fs: seq<Bytes>)
    requires Valid(c) && Sized(fs) && AlmostSmooth(c.pending)
    ensures var s := IngestAll(c, fs); Valid(s.cutter) && AlmostSmooth(s.cutter.pending) && AllAlmostSmooth(s.events)
    decreases |fs|
  {
    hide Ingest, AlmostSmooth;
    if fs != [] {
      IngestKeepsValid(c, fs[0]);
      IngestKeepsShape(c, fs[0]);
      RunKeepsShape(Ingest(c, fs[0]).cutter, fs[1..]);
    }
  }

  ghost predicate AllSmooth(events: seq<Event>) {
    forall e | e in events && e.Cut? :: Smooth(e.scan.points)
  }

  /** For a packet that fits: the points stay without a jump exactly when the packet is not masked. */
  lemma IngestSmoothExactly(c: Cutter, f: Bytes)
    requires Valid(c) && |f| == FRAME_SIZE && Smooth(c.pending)
    ensures AllSmooth(Ingest(c, f).events)
    ensures Smooth(Ingest(c, f).cutter.pending) <==> Overflows(c) || !Masked(c, f)
  {
    hide Ingest, Smooth, Masked, AllSmooth;
    JumpsPassOn(c, f);
  }

  /** No packet that fits is masked. */
  ghost predicate NeverMasks(c: Cutter, fs: seq<Bytes>)
    requires Sized(fs)
    decreases |fs|
  {
    fs == [] || ((Overflows(c) || !Masked(c, fs[0])) && NeverMasks(Ingest(c, fs[0]).cutter, fs[1..]))
  }

  /** At no moment of the run do the pending points jump, and no scan that was cut does. */
  ghost predicate AlwaysSmooth(c: Cutter, fs: seq<Bytes>)
    requires Sized(fs)
    decreases |fs|
  {
    && Smooth(c.pending)
    && (fs != [] ==> AllSmooth(Ingest(c, fs[0]).events) && AlwaysSmooth(Ingest(c, fs[0]).cutter, fs[1..]))
  }

  /** Whatever overflows occur, a run is without internal jumps exactly when no packet that fits is masked. */
  lemma {:induction false} RunSmoothExactly(c: Cutter, fs: seq<Bytes>)
    requires Valid(c) && Sized(fs) && Smooth(c.pending)
    ensures AlwaysSmooth(c, fs) <==> NeverMasks(c, fs)
    ensures NeverMasks(c, fs) ==> AllSmooth(IngestAll(c, fs).events) && Smooth(IngestAll(c, fs).cutter.pending)
    decreases |fs|
  {
    hide Ingest, Smooth, Masked;
    if fs != [] {
      var next := Ingest(c, fs[0]).cutter;
      IngestKeepsValid(c, fs[0]);
      IngestSmoothExactly(c, fs[0]);
      if Smooth(next.pending) {
        RunSmoothExactly(next, fs[1..]);
      }
    }
  }

  // ---------------------------------------------------------------------------------
  // Which scans have an internal jump
  // ---------------------------------------------------------------------------------

  /**
    What a packet does to jumps, whatever was pending: an overflow removes them, a packet that
    cuts hands them over and leaves its own, and any other packet leaves them as they are.
   */
  lemma JumpsPassOn(c: Cutter, f: Bytes)
    requires Valid(c) && |f| == FRAME_SIZE
    ensures var s := Ingest(c, f);
            && (Overflows(c) ==> Smooth(s.cutter.pending))
            && (!Overflows(c) && s.events == [] ==> (Smooth(s.cutter.pending) <==> Smooth(c.pending)) && !Masked(c, f))
            && (!Overflows(c) && s.events != [] ==> (Smooth(s.cutter.pending) <==> !Masked(c, f)))
            && (AllSmooth(s.events) <==> Overflows(c) || s.events == [] || Smooth(c.pending))
  {
    hide PointAt, PointsOf, Speed;
    var ps := PointsOf(f);
    var k := CutIndex(c.last, ps, 0);
    assert ps[..|ps|] == ps && ps[0..] == ps;
    forall i ensures JumpAt(c.pending + ps[..k], i) <==> JumpAt(c.pending, i) {
      AppendedJumps(c, f, k, i);
    }
    forall i ensures JumpAt(ps[k..], i) ==> k == 0 && JumpAt(ps, i) {
      CarriedJumps(f, c.last, i);
    }
    assert Before(c.last, ps, 0) == c.last;
  }

  /** Packet n fits and is masked. */
  ghost predicate MaskedAt(c: Cutter, fs: seq<Bytes>, n: nat)
    requires Sized(fs) && n < |fs|
  {
    !Overflows(After(c, fs, n)) && Masked(After(c, fs, n), fs[n])
  }

  /** Packet n fits and is masked, and nothing is cut or discarded after it before packet m. */
  ghost predicate Taints(c: Cutter, fs: seq<Bytes>, n: nat, m: nat)
    requires Sized(fs)
  {
    && n < m <= |fs|
    && MaskedAt(c, fs, n)
    && forall j | n < j < m :: EventsAt(c, fs, j) == []
  }

  ghost predicate Tainted(c: Cutter, fs: seq<Bytes>, m: nat)
    requires Sized(fs)
  {
    exists n :: Taints(c, fs, n, m)
  }

  lemma TaintedNext(c: Cutter, fs: seq<Bytes>, m: nat)
    requires Sized(fs) && m < |fs|
    ensures Tainted(c, fs, m + 1) <==> MaskedAt(c, fs, m) || (EventsAt(c, fs, m) == [] && Tainted(c, fs, m))
  {
    hide MaskedAt, EventsAt;
    if MaskedAt(c, fs, m) {
      assert Taints(c, fs, m, m + 1);
    } else {
      if EventsAt(c, fs, m) == [] && Tainted(c, fs, m) {
        var n :| Taints(c, fs, n, m);
        assert Taints(c, fs, n, m + 1);
      }
      if Tainted(c, fs, m + 1) {
        var n :| Taints(c, fs, n, m + 1);
        assert Taints(c, fs, n, m);
      }
    }
  }

  /** After m packets the pending points jump exactly when they are tainted. */
  lemma {:induction false} PendingJumpsExactly(c: Cutter, fs: seq<Bytes>, m: nat)
    requires Valid(c) && Smooth(c.pending) && Sized(fs) && m <= |fs|
    ensures Smooth(After(c, fs, m).pending) <==> !Tainted(c, fs, m)
    decreases m
  {
    hide Smooth, Tainted, Masked, Ingest, Overflows, After;
    if m == 0 {
      NothingTainted(c, fs);
    } else {
      var n := m - 1;
      PendingJumpsExactly(c, fs, n);
      TaintedNext(c, fs, n);
      AfterNext(c, fs, n);
      AfterIsValid(c, fs, n);
      JumpsPassOn(After(c, fs, n), fs[n]);
      IngestEvents(After(c, fs, n), fs[n]);
    }
  }

  lemma NothingTainted(c: Cutter, fs: seq<Bytes>)
    requires Sized(fs)
    ensures !Tainted(c, fs, 0) && After(c, fs, 0) == c
  {
    assert fs[..0] == [];
  }

  /** Packet m cuts a scan while the pending points are tainted. */
  ghost predicate CutsTainted(c: Cutter, fs: seq<Bytes>, m: nat)
    requires Sized(fs) && m < |fs|
  {
    !Overflows(After(c, fs, m)) && EventsAt(c, fs, m) != [] && Tainted(c, fs, m)
  }

  lemma {:induction false} ScansSmoothUpTo(c: Cutter, fs: seq<Bytes>, k: nat)
    requires Valid(c) && Smooth(c.pending) && Sized(fs) && k <= |fs|
    ensures AllSmooth(IngestAll(c, fs[..k]).events) <==> forall m | 0 <= m < k :: !CutsTainted(c, fs, m)
    decreases k
  {
    hide Ingest, Overflows, Smooth, CutsTainted, After, AllSmooth;
    if k == 0 {
      NothingCut(c);
    } else {
      var m := k - 1;
      ScansSmoothUpTo(c, fs, m);
      EventsNext(c, fs, m);
      AllSmoothConcat(IngestAll(c, fs[..m]).events, EventsAt(c, fs, m));
      LastSmoothExactly(c, fs, m);
    }
  }

  /**
    Exactly which runs cut a scan with an internal jump: those in which a packet that fits is
    masked, and the next event is a cut.  A masked packet whose points are discarded harms no scan.
   */
  lemma ScansSmoothExactly(c: Cutter, fs: seq<Bytes>)
    requires Valid(c) && Smooth(c.pending) && Sized(fs)
    ensures AllSmooth(IngestAll(c, fs).events) <==> forall m | 0 <= m < |fs| :: !CutsTainted(c, fs, m)
  {
    hide IngestAll, Smooth, CutsTainted, AllSmooth;
    assert fs[..|fs|] == fs;
    ScansSmoothUpTo(c, fs, |fs|);
  }

  lemma NothingCut(c: Cutter)
    ensures AllSmooth(IngestAll(c, []).events)
  {
  }

  lemma AllSmoothConcat(a: seq<Event>, b: seq<Event>)
    ensures AllSmooth(a + b) <==> AllSmooth(a) && AllSmooth(b)
  {
    hide Smooth;
    assert forall e :: e in a + b <==> e in a || e in b;
  }

  lemma LastSmoothExactly(c: Cutter, fs: seq<Bytes>, m: nat)
    requires Valid(c) && Smooth(c.pending) && Sized(fs) && m < |fs|
    ensures AllSmooth(EventsAt(c, fs, m)) <==> !CutsTainted(c, fs, m)
  {
    hide Smooth, AllSmooth, Masked, Tainted, Overflows, Ingest, After;
    PendingJumpsExactly(c, fs, m);
    AfterIsValid(c, fs, m);
    JumpsPassOn(After(c, fs, m), fs[m]);
  }

  /** A cut separates points that jump; an empty scan is cut at a jump from the remembered angle. */
  lemma CutAtJump(c: Cutter, f: Bytes)
    requires Valid(c) && |f| == FRAME_SIZE && Ingest(c, f).events != [] && !Overflows(c)
    ensures var s := Ingest(c, f);
            && s.events == [Cut(s.cutter.scan)]
            && s.cutter.pending != []
            && var points := s.cutter.scan.points;
               if points == [] then c.pending == [] && c.last - s.cutter.pending[0].angle > 100
               else Jump(points[|points| - 1], s.cutter.pending[0])
  {
    hide PointAt;
    var ps := PointsOf(f);
    var k := CutIndex(c.last, ps, 0);
    assert Before(c.last, ps, k) - ps[k].angle > 100;
  }

  // ---------------------------------------------------------------------------------
  // Empty scans
  // ---------------------------------------------------------------------------------

  /**
    If event j cuts an empty scan, the event before it is an overflow; `discarded` speaks for
    the event before the first.
   */
  predicate EmptyExplained(events: seq<Event>, j: nat, discarded: bool)
    requires j < |events|
  {
    events[j].Cut? && events[j].scan.points == [] ==>
      if j == 0 then discarded else events[j - 1].Discard?
  }

  ghost predicate EmptyOnlyAfterDiscard(events: seq<Event>, discarded: bool) {
    forall j | 0 <= j < |events| :: EmptyExplained(events, j, discarded)
  }

  /** What one packet does to the trace: at most one event, and only an overflow leaves nothing pending. */
  lemma IngestEvents(c: Cutter, f: Bytes)
    requires Valid(c) && |f| == FRAME_SIZE
    ensures var s := Ingest(c, f);
            if Overflows(c) then s.cutter == c.(pending := []) && s.events == [Discard(c.pending + PointsOf(f))]
            else
              && s.cutter.pending != []
              && (s.events == [] || s.events == [Cut(s.cutter.scan)])
              && (s.events != [] && s.cutter.scan.points == [] ==> c.pending == [] && c.last > 100)
  {
    if Ingest(c, f).events != [] && !Overflows(c) {
      CutAtJump(c, f);
    }
  }

  lemma PrependEvents(one: seq<Event>, later: seq<Event>, discarded: bool)
    requires |one| <= 1
    requires EmptyOnlyAfterDiscard(one, discarded)
    requires EmptyOnlyAfterDiscard(later, if one == [] then discarded else one[0].Discard?)
    ensures EmptyOnlyAfterDiscard(one + later, discarded)
  {
    if one == [] {
      assert one + later == later;
    } else {
      var all := one + later;
      forall j | 0 <= j < |all| ensures EmptyExplained(all, j, discarded) {
        if j == 0 {
          assert EmptyExplained(one, 0, discarded);
        } else {
          assert EmptyExplained(later, j - 1, one[0].Discard?);
        }
      }
    }
  }

  lemma {:induction false} EmptyScans(c: Cutter, fs: seq<Bytes>, discarded: bool)
    requires Valid(c) && Sized(fs)
    requires c.pending == [] ==> discarded || c.last <= 100
    ensures EmptyOnlyAfterDiscard(IngestAll(c, fs).events, discarded)
    decreases |fs|
  {
    hide Ingest, PointsOf;
    if fs != [] {
      var first := Ingest(c, fs[0]);
      IngestKeepsValid(c, fs[0]);
      IngestEvents(c, fs[0]);
      var later := IngestAll(first.cutter, fs[1..]);
      EmptyScans(first.cutter, fs[1..], if Overflows(c) then true else if first.events == [] then discarded else false);
      PrependEvents(first.events, later.events, discarded);
    }
  }

  /** From power-up, every event that cuts an empty scan follows an overflow. */
  lemma EmptyScansFromInit(fs: seq<Bytes>)
    requires Sized(fs)
    ensures EmptyOnlyAfterDiscard(IngestAll(INIT, fs).events, false)
  {
    EmptyScans(INIT, fs, false);
  }

  /** A packet cuts an empty scan exactly when nothing is pending and it begins more than a degree behind `last`. */
  lemma EmptyCutExactly(c: Cutter, f: Bytes)
    requires Valid(c) && |f| == FRAME_SIZE
    ensures Ingest(c, f).events == [Cut(Scan([], Speed(f)))]
            <==> c.pending == [] && c.last - PointsOf(f)[0].angle > 100
  {
    hide PointAt;
    assert Before(c.last, PointsOf(f), 0) == c.last;
  }

  /** Nothing is pending exactly before the first packet and right after an overflow. */
  lemma PendingEmptyExactly(fs: seq<Bytes>)
    requires Sized(fs)
    ensures After(INIT, fs, |fs|).pending == [] <==> fs == [] || Overflows(After(INIT, fs, |fs| - 1))
  {
    hide Ingest, PointsOf;
    if fs != [] {
      var n := |fs| - 1;
      AfterNext(INIT, fs, n);
      AfterIsValid(INIT, fs, n);
      IngestEvents(After(INIT, fs, n), fs[n]);
    }
  }

  /** Packet n - 1 overflowed, and packet n begins more than a degree behind the last point that had fitted. */
  predicate FarBehindOverflow(fs: seq<Bytes>, n: nat)
    requires Sized(fs)
  {
    && 0 < n < |fs|
    && Overflows(After(INIT, fs, n - 1))
    && After(INIT, fs, n - 1).last - PointsOf(fs[n])[0].angle > 100
  }

  /** From power-up, packet n cuts an empty scan exactly when it is far behind an overflow. */
  lemma EmptyCutOfPacket(fs: seq<Bytes>, n: nat)
    requires Sized(fs) && n < |fs|
    ensures Ingest(After(INIT, fs, n), fs[n]).events == [Cut(Scan([], Speed(fs[n])))] <==> FarBehindOverflow(fs, n)
  {
    hide Ingest, PointsOf, IngestAll;
    var c := After(INIT, fs, n);
    AfterIsValid(INIT, fs, n);
    EmptyCutExactly(c, fs[n]);
    PendingEmptyExactly(fs[..n]);
    if n == 0 {
      assert fs[..0] == [];
      IngestNothing(INIT);
    } else {
      assert fs[..n][..n] == fs[..n] && fs[..n][..n - 1] == fs[..n - 1];
      AfterNext(INIT, fs, n - 1);
      AfterIsValid(INIT, fs, n - 1);
      IngestEvents(After(INIT, fs, n - 1), fs[n - 1]);
    }
  }

  ghost predicate CutsEmptyScan(events: seq<Event>) {
    exists e | e in events && e.Cut? :: e.scan.points == []
  }

  lemma OneEmptyCut(c: Cutter, f: Bytes)
    requires Valid(c) && |f| == FRAME_SIZE
    ensures CutsEmptyScan(Ingest(c, f).events) <==> Ingest(c, f).events == [Cut(Scan([], Speed(f)))]
  {
    hide PointsOf;
    IngestEvents(c, f);
  }

  lemma FarBehindOfPrefix(fs: seq<Bytes>, m: nat, n: nat)
    requires Sized(fs) && m <= |fs| && n < m
    ensures FarBehindOverflow(fs, n) <==> FarBehindOverflow(fs[..m], n)
  {
    if n > 0 {
      assert fs[..m][..n - 1] == fs[..n - 1];
    }
  }

  lemma CutsEmptyConcat(a: seq<Event>, b: seq<Event>)
    ensures CutsEmptyScan(a + b) <==> CutsEmptyScan(a) || CutsEmptyScan(b)
  {
    assert forall e :: e in a + b <==> e in a || e in b;
  }

  lemma FarBehindOfLast(fs: seq<Bytes>)
    requires Sized(fs) && fs != []
    ensures var last := |fs| - 1;
            (exists n :: FarBehindOverflow(fs, n))
            <==> (exists n :: FarBehindOverflow(fs[..last], n)) || FarBehindOverflow(fs, last)
  {
    hide After, Overflows, PointsOf;
    var last := |fs| - 1;
    forall n: nat | n < last ensures FarBehindOverflow(fs, n) <==> FarBehindOverflow(fs[..last], n) {
      FarBehindOfPrefix(fs, last, n);
    }
  }

  /** From power-up, a run cuts an empty scan exactly when one of its packets is far behind an overflow. */
  lemma {:induction false} EmptyScansExactly(fs: seq<Bytes>)
    requires Sized(fs)
    ensures CutsEmptyScan(IngestAll(INIT, fs).events) <==> exists n :: FarBehindOverflow(fs, n)
    decreases |fs|
  {
    hide Ingest, After, Overflows, PointsOf;
    if fs != [] {
      var last := |fs| - 1;
      EmptyScansExactly(fs[..last]);
      FarBehindOfLast(fs);
      EmptyCutOfPacket(fs, last);
      EventsNext(INIT, fs, last);
      assert fs[..last + 1] == fs;
      AfterIsValid(INIT, fs, last);
      OneEmptyCut(After(INIT, fs, last), fs[last]);
      hide IngestAll, CutsEmptyScan, FarBehindOverflow;
      CutsEmptyConcat(IngestAll(INIT, fs[..last]).events, Ingest(After(INIT, fs, last), fs[last]).events);
    }
  }
}
