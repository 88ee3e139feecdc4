/**
  The driver object: `uart_data_handle` and the grab functions, working in place on the
  receive buffer and on two point arrays, and proved against the specification functions
  of StreamParser, ScanCutter and Delivery.
 */
module OrdlidarDriver {
  import opened Framing
  import opened Decode
  import opened StreamParser
  import opened ScanCutter
  import Crc
  import Octet
  import Delivery
  import opened Wrappers

  /** The packet ps, stored behind n points, seen from its i-th point. */
  lemma PacketSlices(all: seq<Point>, n: nat, i: nat, ps: seq<Point>)
    requires n + POINTS_PER_PACK <= |all| && i < |ps| == POINTS_PER_PACK
    requires all[n..n + POINTS_PER_PACK] == ps
    ensures all[..n + i] == all[..n] + ps[..i]
    ensures all[n + i..n + i + (POINTS_PER_PACK - i)] == ps[i..]
    ensures all[n + POINTS_PER_PACK - 1] == ps[11]
  {
    assert all[n..n + POINTS_PER_PACK][..i] == all[n..n + i];
    assert all[n..n + POINTS_PER_PACK][i..] == all[n + i..n + POINTS_PER_PACK];
    assert all[n..n + POINTS_PER_PACK][11] == all[n + 11];
  }

  lemma SlotZeroAfterCopy(was: seq<Point>, now: seq<Point>, points: seq<Point>)
    requires |points| < |was| == |now|
    requires now[..|points|] == points && now[|points|..] == was[|points|..]
    ensures now[0] == if points == [] then was[0] else points[0]
  {
    if points == [] {
      assert now[0..] == now && was[0..] == was;
    } else {
      assert now[..|points|][0] == now[0];
    }
  }

  /** A run over `all` from p0 and c0 has accepted some packets, and goes on from p and c with the reads left. */
  ghost predicate Resumes(p0: Parser, c0: Cutter, all: seq<Bytes>, accepted: seq<Bytes>,
                          p: Parser, c: Cutter, left: seq<Bytes>)
    requires Consistent(p0) && Consistent(p)
  {
    var o := ReceiveAll(p, left);
    && ReceiveAll(p0, all) == Outcome(o.parser, accepted + o.frames)
    && Sized(accepted) && c == IngestAll(c0, accepted).cutter
  }

  lemma ResumesNext(p0: Parser, c0: Cutter, all: seq<Bytes>, accepted: seq<Bytes>, p: Parser, c: Cutter,
                    chunk: Bytes, left: seq<Bytes>)
    requires Consistent(p0) && Consistent(p)
    requires Resumes(p0, c0, all, accepted, p, c, [chunk] + left)
    requires Sized(Receive(p, chunk).frames)
    ensures var o := Receive(p, chunk);
            Resumes(p0, c0, all, accepted + o.frames, o.parser, IngestAll(c, o.frames).cutter, left)
  {
    hide Receive, ReceiveAll, IngestAll;
    ReceiveAllStep(p, [chunk] + left);
    assert ([chunk] + left)[1..] == left;
    var o := Receive(p, chunk);
    AppendLater(accepted, o.frames, ReceiveAll(o.parser, left).frames);
    IngestConcat(c0, accepted, o.frames);
  }

  lemma ResumesAtEnds(p0: Parser, c0: Cutter, all: seq<Bytes>, accepted: seq<Bytes>, p: Parser, c: Cutter)
    requires Consistent(p0) && Consistent(p)
    ensures Resumes(p0, c0, all, [], p0, c0, all)
    ensures Resumes(p0, c0, all, accepted, p, c, []) ==>
              && ReceiveAll(p0, all) == Outcome(p, accepted)
              && Sized(accepted) && c == IngestAll(c0, accepted).cutter
  {
    hide Receive;
    assert [] + ReceiveAll(p0, all).frames == ReceiveAll(p0, all).frames;
    ReceiveAllStep(p, []);
    IngestNothing(c0);
    assert accepted + [] == accepted;
  }

  /** How a wait for data ended. */
  datatype Arrival = Data(bytes: Bytes) | Timeout

  /** The reads that reach the parser. */
  function ReadsIn(arrivals: seq<Arrival>): seq<Bytes> {
    if arrivals == [] then []
    else
      match arrivals[0]
      case Data(bytes) =>
        if |bytes| > 0 then [bytes] + ReadsIn(arrivals[1..]) else ReadsIn(arrivals[1..])
      case Timeout => ReadsIn(arrivals[1..])
  }

  lemma ReadsInNext(arrivals: seq<Arrival>, i: nat)
    requires i < |arrivals|
    ensures var later := ReadsIn(arrivals[i + 1..]);
            ReadsIn(arrivals[i..]) ==
            if arrivals[i].Data? && |arrivals[i].bytes| > 0 then [arrivals[i].bytes] + later else later
  {
    assert arrivals[i..][1..] == arrivals[i + 1..];
  }

  /** Exactly the reads that brought bytes reach the parser, in order. */
  lemma {:induction false} ReadsInExactly(arrivals: seq<Arrival>, bytes: Bytes)
    ensures ReadsIn(arrivals + [Timeout]) == ReadsIn(arrivals)
    ensures ReadsIn(arrivals + [Data(bytes)]) == if bytes == [] then ReadsIn(arrivals) else ReadsIn(arrivals) + [bytes]
    decreases |arrivals|
  {
    if arrivals == [] {
      assert [Timeout][1..] == [] && [Data(bytes)][1..] == [];
    } else {
      assert (arrivals + [Timeout])[1..] == arrivals[1..] + [Timeout];
      assert (arrivals + [Data(bytes)])[1..] == arrivals[1..] + [Data(bytes)];
      ReadsInExactly(arrivals[1..], bytes);
    }
  }

  lemma ReadsInNothing()
    ensures ReadsIn([]) == []
  {
  }

  class OrdlidarDriver {
    var binBuf: Bytes
    var headFlag: HeadFlag
    var version: Version
    const tempData: array<Point>
    var tempCount: nat
    var lastAngle: nat
    const fullData: array<Point>
    var fullCount: nat
    var fullSpeed: nat
    var fullScanReady: bool
    var validData: bool

    ghost predicate Valid()
      reads this, tempData, fullData
    {
      && tempData != fullData
      && tempData.Length == fullData.Length == CAPACITY + 1
      && tempCount < CAPACITY && fullCount < CAPACITY
      && Consistent(ParserState())
    }

    ghost function ParserState(): Parser
      reads this
    {
      Parser(binBuf, headFlag, version)
    }

    ghost function CutterState(): Cutter
      requires tempCount <= tempData.Length && fullCount <= fullData.Length && 0 < fullData.Length
      reads this, tempData, fullData
    {
      Cutter(tempData[..tempCount], lastAngle, Scan(fullData[..fullCount], fullSpeed), fullData[0].angle, fullScanReady)
    }

    constructor ()
      ensures Valid() && fresh(tempData) && fresh(fullData)
      ensures ParserState() == StreamParser.INIT && CutterState() == ScanCutter.INIT
      ensures !validData
    {
      binBuf, headFlag, version := [], HeadNone, VersionNone;
      tempData := new Point[CAPACITY + 1](_ => Point(0, 0, 0));
      fullData := new Point[CAPACITY + 1](_ => Point(0, 0, 0));
      tempCount, lastAngle, fullCount, fullSpeed, fullScanReady := 0, 0, 0, 0, false;
      validData := false;
    }

    /** Erase n bytes from the front, one at a time. */
    method EraseFront(n: nat)
      requires n <= |binBuf|
      modifies this`binBuf
      ensures binBuf == old(binBuf)[n..]
    {
      var i := 0;
      while i < n
        invariant 0 <= i <= n
        invariant binBuf == old(binBuf)[i..]
      {
        binBuf := binBuf[1..];
        i := i + 1;
      }
    }

    /** The inner search loop. */
    method FindHeader() returns (pos: nat)
      requires Consistent(ParserState()) && |binBuf| >= FRAME_SIZE - 2
      modifies this`headFlag, this`version
      ensures pos == old(HeaderAt(ParserState()))
      ensures headFlag == old(Align(ParserState())).head && version == old(Align(ParserState())).version
    {
      pos := 0;
      while pos < |binBuf| - 2
        invariant pos <= |binBuf| - 2
        invariant headFlag == old(headFlag) && version == old(version)
        invariant headFlag.HeadOk? ==> pos == 0
        invariant headFlag.HeadNone? ==> Seek(binBuf, 0) == Seek(binBuf, pos)
        decreases |binBuf| - pos
      {
        if headFlag == HeadNone {
          if binBuf[pos] == 0x54 && binBuf[pos + 1] == 0x2C {
            headFlag := HeadOk;
            version := VersionMs200;
            break;
          }
        } else {
          break;
        }
        pos := pos + 1;
      }
    }

    /** Find a header and erase what lies before it. */
    method AlignBuffer() returns (pos: nat)
      requires Consistent(ParserState()) && |binBuf| >= FRAME_SIZE - 2
      modifies this`binBuf, this`headFlag, this`version
      ensures pos == old(HeaderAt(ParserState()))
      ensures ParserState() == old(Align(ParserState()))
    {
      pos := FindHeader();
      if pos != 0 {
        EraseFront(pos);
      }
    }

    /** memcpy between the two arrays. */
    method CopyToFull(n: nat)
      requires tempData != fullData && n <= tempData.Length <= fullData.Length
      modifies fullData
      ensures fullData[..n] == tempData[..n]
      ensures fullData[n..] == old(fullData[n..])
    {
      var i := 0;
      while i < n
        invariant 0 <= i <= n
        invariant fullData[..i] == tempData[..i]
        invariant fullData[i..] == old(fullData[i..])
      {
        fullData[i] := tempData[i];
        i := i + 1;
      }
    }

    /** memcpy of the tail of a packet to the front of the same array, lowest slot first. */
    method MoveToFront(from: nat, n: nat)
      requires from + n <= tempData.Length
      modifies tempData
      ensures tempData[..n] == old(tempData[from..from + n])
    {
      ghost var was := tempData[..];
      ghost var tail := tempData[from..from + n];
      var i := 0;
      while i < n
        invariant 0 <= i <= n
        invariant forall j | 0 <= j < i :: tempData[j] == tail[j]
        invariant forall j | i <= j < tempData.Length :: tempData[j] == was[j]
      {
        assert tail[i] == was[from + i];
        tempData[i] := tempData[from + i];
        i := i + 1;
      }
    }

    /** Store an accepted packet, and cut off a scan where the angle jumps back. */
    method StoreFrame(f: Bytes)
      requires Valid() && |f| == FRAME_SIZE
      modifies this`tempCount, this`lastAngle, this`fullCount, this`fullSpeed, this`fullScanReady, tempData, fullData
      ensures Valid()
      ensures CutterState() == Ingest(old(CutterState()), f).cutter
    {
      hide PointsOf, PointAt, Speed, CutIndex, Before, Consistent;
      ghost var c := CutterState();
      if tempCount + POINTS_PER_PACK < CAPACITY {
        ParseFrame(tempData, tempCount, f);
        assert tempData[..tempCount] == c.pending;
        var i := FindJump(f);
        if i < POINTS_PER_PACK {
          CutOff(f, i);
        } else {
          tempCount := tempCount + POINTS_PER_PACK;
          assert tempData[..tempCount] == c.pending + PointsOf(f);
        }
      } else {
        tempCount := 0;
      }
    }

    /** The loop over the points of the packet just stored; stops where the angle jumps back. */
    method FindJump(ghost f: Bytes) returns (i: nat)
      requires |f| == FRAME_SIZE && tempCount + POINTS_PER_PACK < tempData.Length
      requires tempData[tempCount..tempCount + POINTS_PER_PACK] == PointsOf(f)
      modifies this`lastAngle
      ensures i == CutIndex(old(lastAngle), PointsOf(f), 0)
      ensures i == POINTS_PER_PACK ==> lastAngle == PointsOf(f)[11].angle
    {
      hide PointsOf, PointAt;
      ghost var ps := PointsOf(f);
      i := 0;
      while i < POINTS_PER_PACK
        modifies this`lastAngle
        invariant 0 <= i <= POINTS_PER_PACK
        invariant lastAngle == if i == 0 then old(lastAngle) else ps[i - 1].angle
        invariant CutIndex(old(lastAngle), ps, 0) == CutIndex(old(lastAngle), ps, i)
      {
        var angle := tempData[tempCount + i].angle;
        assert tempData[tempCount..tempCount + POINTS_PER_PACK][i].angle == angle;
        if lastAngle - angle > 100 {
          return;
        }
        lastAngle := angle;
        i := i + 1;
      }
    }

    /** Copy the first n points out, and raise the flag if slot 0 then holds ten degrees or less. */
    method Publish(n: nat, speed: nat)
      requires Valid() && n < CAPACITY
      modifies this`fullCount, this`fullSpeed, this`fullScanReady, fullData
      ensures fullData[..n] == tempData[..n] && fullData[n..] == old(fullData[n..])
      ensures fullCount == n && fullSpeed == speed
      ensures fullScanReady <==> fullData[0].angle <= 1000
    {
      fullScanReady := false;
      CopyToFull(n);
      fullSpeed := speed;
      fullCount := n;
      if fullData[0].angle <= 1000 {
        fullScanReady := true;
      }
    }

    /** Publish the points before the i-th of the stored packet and keep the rest. */
    method CutOff(f: Bytes, i: nat)
      requires Valid() && |f| == FRAME_SIZE && i < POINTS_PER_PACK
      requires tempCount + POINTS_PER_PACK < CAPACITY
      requires tempData[tempCount..tempCount + POINTS_PER_PACK] == PointsOf(f)
      modifies this`tempCount, this`lastAngle, this`fullCount, this`fullSpeed, this`fullScanReady, tempData, fullData
      ensures Valid()
      ensures var points := old(tempData[..tempCount]) + PointsOf(f)[..i];
              var head := if points == [] then old(fullData[0].angle) else points[0].angle;
              var kept := PointsOf(f)[i..];
              CutterState() == Cutter(kept, PointsOf(f)[11].angle, Scan(points, Speed(f)), head, head <= 1000)
    {
      hide PointsOf, PointAt, Speed, Consistent;
      ghost var ps := PointsOf(f);
      ghost var n := tempCount + i;
      ghost var full := fullData[..];
      PacketSlices(tempData[..], tempCount, i, ps);
      ghost var points := tempData[..tempCount] + ps[..i];
      assert tempData[..n] == tempData[..][..n] == points;
      assert tempData[n..n + (POINTS_PER_PACK - i)] == ps[i..];
      Publish(tempCount + i, Speed(f));
      assert fullData[0] == if points == [] then full[0] else points[0] by {
        SlotZeroAfterCopy(full, fullData[..], points);
      }
      lastAngle := tempData[tempCount + POINTS_PER_PACK - 1].angle;
      MoveToFront(tempCount + i, POINTS_PER_PACK - i);
      tempCount := POINTS_PER_PACK - i;
    }

    /** The bytes of one read. */
    method UartDataHandle(data: Bytes) returns (answer: bool)
      requires Valid()
      modifies this`binBuf, this`headFlag, this`version, this`tempCount, this`lastAngle, this`fullCount, this`fullSpeed,
               this`fullScanReady, tempData, fullData
      ensures Valid()
      ensures answer == Answer(old(ParserState()), data)
      ensures ParserState() == Receive(old(ParserState()), data).parser
      ensures Sized(Receive(old(ParserState()), data).frames)
      ensures CutterState() == IngestAll(old(CutterState()), Receive(old(ParserState()), data).frames).cutter
    {
      Delivery.FramesAreSized(ParserState(), data);
      binBuf := binBuf + data;
      if |binBuf| < FRAME_SIZE {
        return false;
      }
      if |binBuf| > FRAME_SIZE * 100 {
        binBuf := [];
        return false;
      }
      answer := ParseLoop();
    }

    /** Does the first packet-sized stretch of the buffer end in its own checksum? */
    method ChecksumMatches() returns (ok: bool)
      requires |binBuf| >= FRAME_SIZE
      ensures ok == CrcOk(binBuf[..FRAME_SIZE])
    {
      var crc := Crc.TableLoop(binBuf, FRAME_SIZE - 1);
      assert binBuf[..FRAME_SIZE][..46] == binBuf[..46];
      Octet.OfInjective(crc, binBuf[46]);
      ok := crc == binBuf[46];
    }

    /**
      One round of the outer loop, entered with `pos` at `at`: find a header, and take a packet
      or step over the header.  `stop` tells that the call returns or leaves the loop here,
      and then `answer` is what it returns.
     */
    method Round(ghost at: nat) returns (pos: nat, stop: bool, answer: bool, ghost taken: seq<Bytes>)
      requires Valid() && |binBuf| >= FRAME_SIZE - 2 && at < |binBuf| - 2
      modifies this`binBuf, this`headFlag, this`version, this`tempCount, this`lastAngle, this`fullCount, this`fullSpeed,
               this`fullScanReady, tempData, fullData
      ensures Valid()
      ensures Sized(taken) && CutterState() == IngestAll(old(CutterState()), taken).cutter
      ensures |binBuf| + 2 <= old(|binBuf|) || stop
      ensures !stop ==> |binBuf| >= FRAME_SIZE - 2
      ensures Parse(old(ParserState()), at) ==
              if stop then Outcome(ParserState(), taken)
              else Outcome(Parse(ParserState(), pos).parser, taken + Parse(ParserState(), pos).frames)
      ensures ParseAnswer(old(ParserState()), at) == if stop then answer else ParseAnswer(ParserState(), pos)
    {
      hide CrcOk, Ingest, IngestAll, HeaderAt, Parse, ParseAnswer, Align;
      ghost var q := Align(ParserState());
      ParseRound(ParserState(), at);
      AnswerRound(ParserState(), at);
      IngestNothing(CutterState());
      stop, answer, taken := false, true, [];
      pos := AlignBuffer();
      if |binBuf| < FRAME_SIZE {
        stop, answer := true, false;
        return;
      }
      var ok := ChecksumMatches();
      if ok {
        IngestOne(CutterState(), binBuf[..FRAME_SIZE]);
        StoreFrame(binBuf[..FRAME_SIZE]);
        taken := [binBuf[..FRAME_SIZE]];
        headFlag, version := HeadNone, VersionNone;
        EraseFront(FRAME_SIZE);
        assert ParserState() == Drop(q, FRAME_SIZE);
        stop := |binBuf| < FRAME_SIZE;
      } else {
        headFlag, version := HeadNone, VersionNone;
        EraseFront(2);
        assert ParserState() == Drop(q, 2);
      }
    }

    /** The outer loop.  Its guard uses the position of the previous header. */
    method ParseLoop() returns (answer: bool)
      requires Valid() && |binBuf| >= FRAME_SIZE
      modifies this`binBuf, this`headFlag, this`version, this`tempCount, this`lastAngle, this`fullCount, this`fullSpeed,
               this`fullScanReady, tempData, fullData
      ensures Valid()
      ensures var o := Parse(old(ParserState()), 0);
              && ParserState() == o.parser && Sized(o.frames)
              && CutterState() == IngestAll(old(CutterState()), o.frames).cutter
      ensures answer == ParseAnswer(old(ParserState()), 0)
    {
      hide CrcOk, Ingest, HeaderAt, Align, IngestAll, Parse, ParseAnswer;
      ghost var p0, c0 := ParserState(), CutterState();
      ghost var accepted: seq<Bytes> := [];
      var pos: nat := 0;
      IngestNothing(c0);
      while pos < |binBuf| - 2
        invariant Valid() && |binBuf| >= FRAME_SIZE - 2
        invariant Sized(accepted) && CutterState() == IngestAll(c0, accepted).cutter
        invariant Parse(p0, 0) == Outcome(Parse(ParserState(), pos).parser, accepted + Parse(ParserState(), pos).frames)
        invariant ParseAnswer(p0, 0) == ParseAnswer(ParserState(), pos)
        decreases |binBuf|
      {
        var next, stop; ghost var taken;
        next, stop, answer, taken := Round(pos);
        IngestConcat(c0, accepted, taken);
        if stop {
          return;
        }
        pos := next;
        AppendLater(accepted, taken, Parse(ParserState(), pos).frames);
        accepted := accepted + taken;
      }
      ParseStops(ParserState(), pos);
      assert accepted + [] == accepted;
      answer := true;
    }

    /** The receive thread: one call for every read that brought bytes, until there are no more arrivals. */
    method RxThreadProc(arrivals: seq<Arrival>)
      requires Valid()
      modifies this, tempData, fullData
      ensures Valid()
      ensures validData == if arrivals == [] then old(validData) else arrivals[|arrivals| - 1].Data?
      ensures var o := ReceiveAll(old(ParserState()), ReadsIn(arrivals));
              && ParserState() == o.parser && Sized(o.frames)
              && CutterState() == IngestAll(old(CutterState()), o.frames).cutter
    {
      hide Receive, ReceiveAll, IngestAll, Answer, Resumes, ReadsIn, Consistent;
      ghost var p0, c0 := ParserState(), CutterState();
      ghost var accepted: seq<Bytes> := [];
      var i := 0;
      assert arrivals[0..] == arrivals;
      ResumesAtEnds(p0, c0, ReadsIn(arrivals), [], p0, c0);
      while i < |arrivals|
        invariant 0 <= i <= |arrivals| && Valid()
        invariant validData == if i == 0 then old(validData) else arrivals[i - 1].Data?
        invariant Resumes(p0, c0, ReadsIn(arrivals), accepted, ParserState(), CutterState(), ReadsIn(arrivals[i..]))
      {
        ghost var p, c := ParserState(), CutterState();
        ReadsInNext(arrivals, i);
        match arrivals[i] {
          case Data(bytes) =>
            validData := true;
            if |bytes| > 0 {
              var _ := UartDataHandle(bytes);
              ResumesNext(p0, c0, ReadsIn(arrivals), accepted, p, c, bytes, ReadsIn(arrivals[i + 1..]));
              accepted := accepted + Receive(p, bytes).frames;
            }
          case Timeout =>
            validData := false;
        }
        i := i + 1;
      }
      assert arrivals[i..] == [];
      ReadsInNothing();
      ResumesAtEnds(p0, c0, ReadsIn(arrivals), accepted, ParserState(), CutterState());
    }

    method GrabFullScan() returns (r: Option<Scan>)
      requires Valid()
      modifies this`fullScanReady
      ensures Valid()
      ensures r == Delivery.GrabResult(old(CutterState()))
      ensures CutterState() == if r.None? then old(CutterState()) else old(CutterState()).(ready := false)
    {
      if fullCount == 0 {
        return None;
      }
      if !fullScanReady {
        return None;
      }
      r := Some(Scan(fullData[..fullCount], fullSpeed));
      fullScanReady := false;
    }

    /** The wait itself is outside the model: `signalled` says how it ended. */
    method GrabFullScanBlocking(signalled: bool) returns (r: Option<Scan>)
      requires Valid()
      modifies this`fullScanReady
      ensures Valid()
      ensures r == Delivery.GrabBlockingResult(old(CutterState()), signalled)
      ensures r == if signalled && old(fullScanReady) then Some(old(CutterState()).scan) else None
      ensures CutterState() == if r.None? then old(CutterState()) else old(CutterState()).(ready := false)
    {
      r := None;
      if signalled {
        if fullScanReady {
          r := Some(Scan(fullData[..fullCount], fullSpeed));
          fullScanReady := false;
        }
      }
    }
  }
}
