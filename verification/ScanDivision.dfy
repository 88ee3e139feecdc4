/**
  What the scan cutter is for: dividing the stream of points at its backward jumps.  This
  module states that division directly and shows exactly when the cutter performs it.
 */
module ScanDivision {
  import opened Framing
  import opened Decode
  import opened ScanCutter

  /** The finished pieces, and the piece still growing. */
  datatype Division = Division(done: seq<seq<Point>>, open: seq<Point>)

  function Feed(d: Division, p: Point): Division {
    if d.open != [] && Jump(d.open[|d.open| - 1], p) then Division(d.done + [d.open], [p])
    else Division(d.done, d.open + [p])
  }

  function FeedAll(d: Division, ps: seq<Point>): Division
    decreases |ps|
  {
    if ps == [] then d else FeedAll(Feed(d, ps[0]), ps[1..])
  }

  /** Divide a sequence of points between every two that jump. */
  function Divide(ps: seq<Point>): Division {
    FeedAll(Division([], []), ps)
  }

  /** The scans that were cut, in order. */
  function Scans(events: seq<Event>): seq<seq<Point>> {
    if events == [] then []
    else (if events[0].Cut? then [events[0].scan.points] else []) + Scans(events[1..])
  }

  /** The cutter's own division: the scans of a run and the points still pending. */
  function Achieved(s: Step): Division {
    Division(Scans(s.events), s.cutter.pending)
  }

  // ---------------------------------------------------------------------------------
  // Divide divides at the jumps, and only there
  // ---------------------------------------------------------------------------------

  function Join(pieces: seq<seq<Point>>): seq<Point>
    decreases |pieces|
  {
    if pieces == [] then [] else Join(pieces[..|pieces| - 1]) + pieces[|pieces| - 1]
  }

  /** No piece has a jump inside, and a jump separates each piece from the next. */
  ghost predicate DividedAtJumps(d: Division) {
    && (forall i | 0 <= i < |d.done| :: d.done[i] != [] && Smooth(d.done[i]))
    && Smooth(d.open)
    && (forall i | 0 <= i < |d.done| :: JumpAfter(d, i))
  }

  /** A jump leads from piece i to the next piece. */
  predicate JumpAfter(d: Division, i: nat)
    requires i < |d.done|
  {
    var a, b := d.done[i], if i + 1 < |d.done| then d.done[i + 1] else d.open;
    a != [] && b != [] && Jump(a[|a| - 1], b[0])
  }

  lemma FeedKeepsDivision(d: Division, p: Point)
    requires DividedAtJumps(d)
    ensures DividedAtJumps(Feed(d, p))
    ensures Join(Feed(d, p).done) + Feed(d, p).open == (Join(d.done) + d.open) + [p]
  {
    var e := Feed(d, p);
    if d.open != [] && Jump(d.open[|d.open| - 1], p) {
      assert e.done[..|e.done| - 1] == d.done;
      forall i | 0 <= i < |e.done| ensures JumpAfter(e, i) {
        if i < |d.done| {
          assert JumpAfter(d, i);
        }
      }
    } else {
      forall i ensures !JumpAt(e.open, i) {
        assert !JumpAt(d.open, i);
      }
      forall i | 0 <= i < |e.done| ensures JumpAfter(e, i) {
        assert JumpAfter(d, i);
      }
    }
  }

  lemma {:induction false} FeedAllKeepsDivision(d: Division, ps: seq<Point>)
    requires DividedAtJumps(d)
    ensures DividedAtJumps(FeedAll(d, ps))
    ensures Join(FeedAll(d, ps).done) + FeedAll(d, ps).open == (Join(d.done) + d.open) + ps
    decreases |ps|
  {
    hide Feed, DividedAtJumps, Join;
    if ps == [] {
      assert (Join(d.done) + d.open) + [] == Join(d.done) + d.open;
    } else {
      FeedKeepsDivision(d, ps[0]);
      FeedAllKeepsDivision(Feed(d, ps[0]), ps[1..]);
      assert ((Join(d.done) + d.open) + [ps[0]]) + ps[1..] == (Join(d.done) + d.open) + ps;
    }
  }

  /** The reference: every point is in exactly one piece, in order, and the pieces end exactly at the jumps. */
  lemma DivideMeaning(ps: seq<Point>)
    ensures DividedAtJumps(Divide(ps))
    ensures Join(Divide(ps).done) + Divide(ps).open == ps
  {
    FeedAllKeepsDivision(Division([], []), ps);
    assert [] + [] + ps == ps;
  }

  // ---------------------------------------------------------------------------------
  // The cutter divides like the reference when nothing is masked or discarded
  // ---------------------------------------------------------------------------------

  lemma {:induction false} FeedAllConcat(d: Division, a: seq<Point>, b: seq<Point>)
    ensures FeedAll(d, a + b) == FeedAll(FeedAll(d, a), b)
    decreases |a|
  {
    if a == [] {
      assert a + b == b;
    } else {
      assert (a + b)[1..] == a[1..] + b;
      FeedAllConcat(Feed(d, a[0]), a[1..], b);
    }
  }

  lemma {:induction false} FeedWithoutJump(d: Division, ps: seq<Point>)
    requires d.open != [] && ps != [] ==> !Jump(d.open[|d.open| - 1], ps[0])
    requires Smooth(ps)
    ensures FeedAll(d, ps) == Division(d.done, d.open + ps)
    decreases |ps|
  {
    if ps == [] {
      assert d.open + ps == d.open;
    } else {
      if |ps| > 1 {
        assert !JumpAt(ps, 0);
      }
      forall i ensures !JumpAt(ps[1..], i) {
        assert !JumpAt(ps, i + 1);
      }
      FeedWithoutJump(Division(d.done, d.open + [ps[0]]), ps[1..]);
      assert (d.open + [ps[0]]) + ps[1..] == d.open + ps;
    }
  }

  /** Nothing pending means nothing yet received, so there is no jump to see. */
  predicate Settled(c: Cutter) {
    Valid(c) && (c.pending == [] ==> c.last <= 100)
  }

  lemma FeedUpToCut(c: Cutter, f: Bytes, done: seq<seq<Point>>)
    requires Settled(c) && |f| == FRAME_SIZE
    ensures var ps := PointsOf(f);
            var k := CutIndex(c.last, ps, 0);
            FeedAll(Division(done, c.pending), ps[..k]) == Division(done, c.pending + ps[..k])
  {
    hide PointAt;
    var ps := PointsOf(f);
    var k := CutIndex(c.last, ps, 0);
    forall i: int ensures !JumpAt(ps[..k], i) {
      if 0 <= i && i + 1 < k {
        assert Before(c.last, ps, i + 1) - ps[i + 1].angle <= 100;
      }
    }
    assert k > 0 ==> Before(c.last, ps, 0) - ps[0].angle <= 100;
    FeedWithoutJump(Division(done, c.pending), ps[..k]);
  }

  lemma FeedFromCut(c: Cutter, f: Bytes, done: seq<seq<Point>>)
    requires Settled(c) && |f| == FRAME_SIZE && !Masked(c, f)
    ensures var ps := PointsOf(f);
            var k := CutIndex(c.last, ps, 0);
            var open := c.pending + ps[..k];
            k < POINTS_PER_PACK ==> FeedAll(Division(done, open), ps[k..]) == Division(done + [open], ps[k..])
  {
    hide PointAt;
    if CutIndex(c.last, PointsOf(f), 0) == POINTS_PER_PACK {
      return;
    }
    var ps := PointsOf(f);
    var k := CutIndex(c.last, ps, 0);
    var open := c.pending + ps[..k];
    assert Before(c.last, ps, k) - ps[k].angle > 100;
    assert open != [] && Jump(open[|open| - 1], ps[k]);
    var d := Division(done + [open], [ps[k]]);
    assert Feed(Division(done, open), ps[k]) == d;
    assert ps[k..][1..] == ps[k + 1..];
    forall i: int ensures !JumpAt(ps[k..], i) {
      CarriedJumps(f, c.last, i);
    }
    var tail := ps[k + 1..];
    forall i: int ensures !JumpAt(tail, i) {
      assert !JumpAt(ps[k..], i + 1);
    }
    if k + 1 < |ps| {
      assert !JumpAt(ps[k..], 0);
    }
    FeedWithoutJump(d, tail);
    assert [ps[k]] + ps[k + 1..] == ps[k..];
  }

  /** One packet, fed point by point to the reference, ends in the cutter's next state. */
  lemma IngestDivides(c: Cutter, f: Bytes, done: seq<seq<Point>>)
    requires Settled(c) && |f| == FRAME_SIZE && !Overflows(c) && !Masked(c, f)
    ensures var s := Ingest(c, f);
            && Settled(s.cutter)
            && FeedAll(Division(done, c.pending), PointsOf(f)) == Division(done + Scans(s.events), s.cutter.pending)
  {
    hide PointAt, PointsOf, FeedAll;
    var ps := PointsOf(f);
    var k := CutIndex(c.last, ps, 0);
    var s := Ingest(c, f);
    IngestKeepsValid(c, f);
    FeedUpToCut(c, f, done);
    if k == POINTS_PER_PACK {
      assert ps[..k] == ps;
      assert done + Scans(s.events) == done;
    } else {
      FeedFromCut(c, f, done);
      FeedAllConcat(Division(done, c.pending), ps[..k], ps[k..]);
      assert ps[..k] + ps[k..] == ps;
      assert Scans(s.events) == [c.pending + ps[..k]];
    }
  }

  /** No packet of the run overflows the array or hides a jump behind another. */
  ghost predicate Calm(c: Cutter, fs: seq<Bytes>)
    requires Sized(fs)
    decreases |fs|
  {
    fs == [] || (!Overflows(c) && !Masked(c, fs[0]) && Calm(Ingest(c, fs[0]).cutter, fs[1..]))
  }

  lemma {:induction false} ScansConcat(a: seq<Event>, b: seq<Event>)
    ensures Scans(a + b) == Scans(a) + Scans(b)
    decreases |a|
  {
    if a == [] {
      assert a + b == b;
    } else {
      var one := if a[0].Cut? then [a[0].scan.points] else [];
      assert (a + b)[1..] == a[1..] + b;
      ScansConcat(a[1..], b);
      assert (one + Scans(a[1..])) + Scans(b) == one + (Scans(a[1..]) + Scans(b));
    }
  }

  lemma FeedInTwo(d: Division, x: seq<Point>, y: seq<Point>, a: seq<seq<Point>>, b: seq<seq<Point>>,
                  mid: seq<Point>, end: seq<Point>)
    requires FeedAll(d, x) == Division(d.done + a, mid)
    requires FeedAll(Division(d.done + a, mid), y) == Division((d.done + a) + b, end)
    ensures FeedAll(d, x + y) == Division(d.done + (a + b), end)
  {
    FeedAllConcat(d, x, y);
    assert (d.done + a) + b == d.done + (a + b);
  }

  lemma {:induction false} CalmRunDivides(c: Cutter, fs: seq<Bytes>, done: seq<seq<Point>>)
    requires Settled(c) && Sized(fs) && Calm(c, fs)
    ensures var s := IngestAll(c, fs);
            FeedAll(Division(done, c.pending), DecodeAll(fs)) == Division(done + Scans(s.events), s.cutter.pending)
    decreases |fs|
  {
    hide Ingest, PointsOf, Masked, Settled;
    if fs == [] {
      assert done + [] == done;
    } else {
      var first := Ingest(c, fs[0]);
      var later := IngestAll(first.cutter, fs[1..]);
      IngestDivides(c, fs[0], done);
      CalmRunDivides(first.cutter, fs[1..], done + Scans(first.events));
      ScansConcat(first.events, later.events);
      FeedInTwo(Division(done, c.pending), PointsOf(fs[0]), DecodeAll(fs[1..]),
                Scans(first.events), Scans(later.events), first.cutter.pending, later.cutter.pending);
    }
  }

  // ---------------------------------------------------------------------------------
  // ... and only then
  // ---------------------------------------------------------------------------------

  ghost predicate Flawed(d: Division) {
    (exists s | s in d.done :: !Smooth(s)) || !Smooth(d.open)
  }

  predicate NeverOverflows(c: Cutter, fs: seq<Bytes>)
    requires Sized(fs)
    decreases |fs|
  {
    fs == [] || (!Overflows(c) && NeverOverflows(Ingest(c, fs[0]).cutter, fs[1..]))
  }

  lemma PrefixFlaw(s: seq<Point>, more: seq<Point>)
    requires !Smooth(s)
    ensures !Smooth(s + more)
  {
    var i :| JumpAt(s, i);
    assert JumpAt(s + more, i);
  }

  /** A jump inside the pending points stays inside the piece they end up in. */
  lemma IngestKeepsFlaw(c: Cutter, f: Bytes)
    requires |f| == FRAME_SIZE && !Overflows(c) && !Smooth(c.pending)
    ensures Flawed(Achieved(Ingest(c, f)))
  {
    hide PointAt, Smooth;
    var ps := PointsOf(f);
    var k := CutIndex(c.last, ps, 0);
    var s := Ingest(c, f);
    if k == POINTS_PER_PACK {
      PrefixFlaw(c.pending, ps);
    } else {
      PrefixFlaw(c.pending, ps[..k]);
      assert s.cutter.scan.points in Scans(s.events);
    }
  }

  /** A masked jump is carried over into the pending points. */
  lemma MaskingMakesFlaw(c: Cutter, f: Bytes)
    requires |f| == FRAME_SIZE && !Overflows(c) && Masked(c, f)
    ensures !Smooth(Ingest(c, f).cutter.pending)
  {
    var ps := PointsOf(f);
    assert CutIndex(c.last, ps, 0) == 0;
    assert ps[0..] == ps;
  }

  lemma {:induction false} UncalmIsFlawed(c: Cutter, fs: seq<Bytes>)
    requires Sized(fs) && NeverOverflows(c, fs)
    requires !Smooth(c.pending) || !Calm(c, fs)
    ensures Flawed(Achieved(IngestAll(c, fs)))
    decreases |fs|
  {
    hide Ingest, Smooth, Masked;
    if fs != [] {
      var first := Ingest(c, fs[0]);
      var later := IngestAll(first.cutter, fs[1..]);
      ScansConcat(first.events, later.events);
      if !Smooth(c.pending) {
        IngestKeepsFlaw(c, fs[0]);
      } else if Masked(c, fs[0]) {
        MaskingMakesFlaw(c, fs[0]);
      }
      if !Smooth(first.cutter.pending) || !Calm(first.cutter, fs[1..]) {
        UncalmIsFlawed(first.cutter, fs[1..]);
      }
    }
  }

  lemma {:induction false} OverflowLosesPoints(c: Cutter, fs: seq<Bytes>)
    requires Sized(fs)
    ensures var s := IngestAll(c, fs);
            var kept := |Join(Scans(s.events))| + |s.cutter.pending|;
            var given := |c.pending| + |DecodeAll(fs)|;
            if NeverOverflows(c, fs) then kept == given else kept < given
    decreases |fs|
  {
    hide Ingest, PointAt, PointsOf;
    if fs == [] {
      assert Join([]) == [];
    } else {
      var first := Ingest(c, fs[0]);
      var later := IngestAll(first.cutter, fs[1..]);
      OverflowLosesPoints(first.cutter, fs[1..]);
      ScansConcat(first.events, later.events);
      JoinConcat(Scans(first.events), Scans(later.events));
      IngestKeepsCount(c, fs[0]);
    }
  }

  lemma IngestKeepsCount(c: Cutter, f: Bytes)
    requires |f| == FRAME_SIZE
    ensures var s := Ingest(c, f);
            var kept := |Join(Scans(s.events))| + |s.cutter.pending|;
            if Overflows(c) then kept < |c.pending| + POINTS_PER_PACK else kept == |c.pending| + POINTS_PER_PACK
  {
    hide PointAt;
    var s := Ingest(c, f);
    if s.events != [] {
      assert s.events[1..] == [];
      if s.events[0].Cut? {
        assert Scans(s.events) == [s.cutter.scan.points];
        assert Join([s.cutter.scan.points]) == s.cutter.scan.points by {
          assert [s.cutter.scan.points][..0] == [];
        }
      }
    }
  }

  lemma {:induction false} JoinConcat(a: seq<seq<Point>>, b: seq<seq<Point>>)
    ensures Join(a + b) == Join(a) + Join(b)
    decreases |b|
  {
    if b == [] {
      assert a + b == a;
    } else {
      var n := |b| - 1;
      var all := a + b;
      assert all[..|all| - 1] == a + b[..n] && all[|all| - 1] == b[n];
      JoinConcat(a, b[..n]);
      assert (Join(a) + Join(b[..n])) + b[n] == Join(a) + (Join(b[..n]) + b[n]);
    }
  }

  /**
    From power-up, the scans and the pending points are the division of all decoded points
    at their jumps, if and only if no packet overflowed the array and none jumped back at
    its start and again inside.
   */
  lemma DividesExactly(fs: seq<Bytes>)
    requires Sized(fs)
    ensures Achieved(IngestAll(INIT, fs)) == Divide(DecodeAll(fs)) <==> Calm(INIT, fs)
  {
    var s := IngestAll(INIT, fs);
    var ps := DecodeAll(fs);
    DivideMeaning(ps);
    if Calm(INIT, fs) {
      CalmRunDivides(INIT, fs, []);
      assert [] + Scans(s.events) == Scans(s.events);
    } else if NeverOverflows(INIT, fs) {
      UncalmIsFlawed(INIT, fs);
    } else {
      OverflowLosesPoints(INIT, fs);
      assert |Join(Divide(ps).done) + Divide(ps).open| == |ps|;
    }
  }
}
