/**
  The resumable stream parser inside `uart_data_handle`: bytes come in chunks of any size,
  packets go out.  The state kept between calls is the buffer and the two flags that
  remember a header already found.
 */
module StreamParser {
  import opened Framing

  datatype HeadFlag = HeadNone | HeadOk
  datatype Version = VersionNone | VersionMs200
  datatype Parser = Parser(buf: Bytes, head: HeadFlag, version: Version)
  datatype Outcome = Outcome(parser: Parser, frames: seq<Bytes>)

  /** A buffer longer than this after appending is thrown away. */
  const FLUSH_LIMIT := FRAME_SIZE * 100
  /** sizeof(readbuf): the most one call is given. */
  const READ_SIZE := 1024

  const INIT := Fresh([])

  /** The two flags are set and cleared together. */
  predicate Consistent(p: Parser) {
    p.head.HeadOk? <==> p.version.VersionMs200?
  }

  /** A header that was found is where the buffer begins. */
  predicate Aligned(p: Parser) {
    Consistent(p) && (p.head.HeadOk? ==> Header(p.buf))
  }

  /** The inner loop: the first header at or after pos, or the last two bytes. */
  function Seek(b: Bytes, pos: nat): (at: nat)
    requires pos <= |b| - 2
    ensures pos <= at <= |b| - 2
    ensures at < |b| - 2 ==> Header(b[at..])
    decreases |b| - pos
  {
    if pos == |b| - 2 then pos
    else if b[pos] == 0x54 && b[pos + 1] == 0x2C then pos
    else Seek(b, pos + 1)
  }

  /** Where the inner loop stops. */
  function HeaderAt(p: Parser): (at: nat)
    requires |p.buf| >= FRAME_SIZE - 2
    ensures at <= |p.buf| - 2
  {
    if p.head.HeadOk? then 0 else Seek(p.buf, 0)
  }

  /** The inner loop and the erasure of what it stepped over. */
  function Align(p: Parser): (q: Parser)
    requires Consistent(p) && |p.buf| >= FRAME_SIZE - 2
    ensures Consistent(q)
    ensures |q.buf| == |p.buf| - HeaderAt(p)
    ensures |q.buf| >= FRAME_SIZE ==> q.head.HeadOk?
  {
    if HeaderAt(p) == |p.buf| - 2 then p.(buf := p.buf[HeaderAt(p)..])
    else Parser(p.buf[HeaderAt(p)..], HeadOk, VersionMs200)
  }

  /** Looking for a header in b. */
  function Fresh(b: Bytes): Parser {
    Parser(b, HeadNone, VersionNone)
  }

  /** The buffer without its first n bytes, looking for a header again. */
  function Drop(p: Parser, n: nat): Parser
    requires n <= |p.buf|
  {
    Fresh(p.buf[n..])
  }

  /**
    The outer loop.  Its guard compares the bytes left with `pos`, the position at which the
    previous round found its header, so it can stop with complete packets still buffered.
   */
  function Parse(p: Parser, pos: nat): (o: Outcome)
    requires Consistent(p) && |p.buf| >= FRAME_SIZE - 2
    ensures Consistent(o.parser)
    decreases |p.buf|
  {
    if pos >= |p.buf| - 2 then Outcome(p, [])
    else
      var q := Align(p);
      if |q.buf| < FRAME_SIZE then Outcome(q, [])
      else if !CrcOk(q.buf[..FRAME_SIZE]) then Parse(Drop(q, 2), HeaderAt(p))
      else if |q.buf| < 2 * FRAME_SIZE then Outcome(Drop(q, FRAME_SIZE), [q.buf[..FRAME_SIZE]])
      else
        var o := Parse(Drop(q, FRAME_SIZE), HeaderAt(p));
        Outcome(o.parser, [q.buf[..FRAME_SIZE]] + o.frames)
  }

  predicate Flushes(p: Parser, data: Bytes) {
    |p.buf + data| > FLUSH_LIMIT
  }

  /** One call of `uart_data_handle`. */
  function Receive(p: Parser, data: Bytes): (o: Outcome)
    requires Consistent(p)
    ensures Consistent(o.parser)
  {
    var b := p.buf + data;
    if |b| < FRAME_SIZE then Outcome(p.(buf := b), [])
    else if |b| > FLUSH_LIMIT then Outcome(p.(buf := []), [])
    else Parse(p.(buf := b), 0)
  }

  /** Does the outer loop end by its guard or after a packet?  It is left early when less than a packet remains. */
  function ParseAnswer(p: Parser, pos: nat): bool
    requires Consistent(p) && |p.buf| >= FRAME_SIZE - 2
    decreases |p.buf|
  {
    if pos >= |p.buf| - 2 then true
    else
      var q := Align(p);
      if |q.buf| < FRAME_SIZE then false
      else if !CrcOk(q.buf[..FRAME_SIZE]) then ParseAnswer(Drop(q, 2), HeaderAt(p))
      else |q.buf| < 2 * FRAME_SIZE || ParseAnswer(Drop(q, FRAME_SIZE), HeaderAt(p))
  }

  /** What one call of `uart_data_handle` returns. */
  function Answer(p: Parser, data: Bytes): bool
    requires Consistent(p)
  {
    var b := p.buf + data;
    FRAME_SIZE <= |b| <= FLUSH_LIMIT && ParseAnswer(p.(buf := b), 0)
  }

  function ReceiveAll(p: Parser, chunks: seq<Bytes>): (o: Outcome)
    requires Consistent(p)
    ensures Consistent(o.parser)
    decreases |chunks|
  {
    if chunks == [] then Outcome(p, [])
    else
      var first := Receive(p, chunks[0]);
      var later := ReceiveAll(first.parser, chunks[1..]);
      Outcome(later.parser, first.frames + later.frames)
  }

  function Concat(chunks: seq<Bytes>): Bytes {
    if chunks == [] then [] else chunks[0] + Concat(chunks[1..])
  }

  lemma ReceiveAllStep(p: Parser, chunks: seq<Bytes>)
    requires Consistent(p)
    ensures chunks == [] ==> ReceiveAll(p, chunks) == Outcome(p, [])
    ensures chunks != [] ==> var first := Receive(p, chunks[0]);
                             var later := ReceiveAll(first.parser, chunks[1..]);
                             ReceiveAll(p, chunks) == Outcome(later.parser, first.frames + later.frames)
  {
  }

  /** One round of the outer loop. */
  lemma ParseRound(p: Parser, pos: nat)
    requires Consistent(p) && |p.buf| >= FRAME_SIZE - 2 && pos < |p.buf| - 2
    ensures var q := Align(p);
            Parse(p, pos) ==
            if |q.buf| < FRAME_SIZE then Outcome(q, [])
            else if !CrcOk(q.buf[..FRAME_SIZE]) then Parse(Drop(q, 2), HeaderAt(p))
            else if |q.buf| < 2 * FRAME_SIZE then Outcome(Drop(q, FRAME_SIZE), [q.buf[..FRAME_SIZE]])
            else
              var o := Parse(Drop(q, FRAME_SIZE), HeaderAt(p));
              Outcome(o.parser, [q.buf[..FRAME_SIZE]] + o.frames)
  {
  }

  lemma AnswerRound(p: Parser, pos: nat)
    requires Consistent(p) && |p.buf| >= FRAME_SIZE - 2 && pos < |p.buf| - 2
    ensures var q := Align(p);
            ParseAnswer(p, pos) ==
            if |q.buf| < FRAME_SIZE then false
            else if !CrcOk(q.buf[..FRAME_SIZE]) then ParseAnswer(Drop(q, 2), HeaderAt(p))
            else |q.buf| < 2 * FRAME_SIZE || ParseAnswer(Drop(q, FRAME_SIZE), HeaderAt(p))
  {
  }

  lemma ParseStops(p: Parser, pos: nat)
    requires Consistent(p) && |p.buf| >= FRAME_SIZE - 2 && pos >= |p.buf| - 2
    ensures Parse(p, pos) == Outcome(p, []) && ParseAnswer(p, pos)
  {
  }

  lemma AppendLater(accepted: seq<Bytes>, taken: seq<Bytes>, later: seq<Bytes>)
    ensures accepted + (taken + later) == (accepted + taken) + later
  {
  }

  // ---------------------------------------------------------------------------------
  // Alignment
  // ---------------------------------------------------------------------------------

  lemma AlignIsAligned(p: Parser)
    requires Aligned(p) && |p.buf| >= FRAME_SIZE - 2
    ensures Aligned(Align(p))
  {
  }

  lemma {:induction false} ParseKeepsAlignment(p: Parser, pos: nat)
    requires Aligned(p) && |p.buf| >= FRAME_SIZE - 2
    ensures Aligned(Parse(p, pos).parser)
    decreases |p.buf|
  {
    if pos < |p.buf| - 2 {
      AlignIsAligned(p);
      var q := Align(p);
      if |q.buf| < FRAME_SIZE {
      } else if !CrcOk(q.buf[..FRAME_SIZE]) {
        ParseKeepsAlignment(Drop(q, 2), HeaderAt(p));
      } else if |q.buf| >= 2 * FRAME_SIZE {
        ParseKeepsAlignment(Drop(q, FRAME_SIZE), HeaderAt(p));
      }
    }
  }

  /** Alignment is lost exactly when the buffer is flushed while a header is remembered. */
  lemma AlignmentKeptExactly(p: Parser, data: Bytes)
    requires Aligned(p)
    ensures Aligned(Receive(p, data).parser) <==> !(Flushes(p, data) && p.head.HeadOk?)
  {
    var b := p.buf + data;
    if FRAME_SIZE <= |b| <= FLUSH_LIMIT {
      ParseKeepsAlignment(p.(buf := b), 0);
    }
  }

  // ---------------------------------------------------------------------------------
  // Refinement: no packet is lost, invented or reordered, however the stream is chunked
  // ---------------------------------------------------------------------------------

  lemma {:induction false} SeekSkipsGarbage(b: Bytes, pos: nat)
    requires pos <= |b| - 2 && HeaderFree(b, pos)
    ensures HeaderFree(b, Seek(b, pos))
    decreases |b| - pos
  {
    if pos == |b| - 2 || (b[pos] == 0x54 && b[pos + 1] == 0x2C) {
    } else {
      assert !Header(b[pos..]);
      SeekSkipsGarbage(b, pos + 1);
    }
  }

  /** What is dropped in front of a header holds no packet, whatever bytes z are still to come. */
  lemma AlignRefines(p: Parser, z: Bytes)
    requires Aligned(p) && |p.buf| >= FRAME_SIZE - 2
    ensures Frames(p.buf + z) == Frames(Align(p).buf + z)
  {
    var at := HeaderAt(p);
    if p.head.HeadOk? {
      assert p.buf[0..] == p.buf;
    } else {
      SeekSkipsGarbage(p.buf, 0);
      forall i | 0 <= i < at ensures !Header((p.buf + z)[i..]) {
        assert !Header(p.buf[i..]);
        assert (p.buf + z)[i..][0] == p.buf[i..][0] && (p.buf + z)[i..][1] == p.buf[i..][1];
      }
      SkipGarbage(p.buf + z, at);
      assert (p.buf + z)[at..] == p.buf[at..] + z;
    }
  }

  /** At a header the reference takes the packet or steps over the header, with z still to come. */
  lemma FramesAtHeader(b: Bytes, z: Bytes)
    requires Header(b) && |b| >= FRAME_SIZE
    ensures Frames(b + z) ==
            if CrcOk(b[..FRAME_SIZE]) then [b[..FRAME_SIZE]] + Frames(b[FRAME_SIZE..] + z) else Frames(b[2..] + z)
  {
    assert (b + z)[..FRAME_SIZE] == b[..FRAME_SIZE];
    assert (b + z)[2..] == b[2..] + z;
    assert (b + z)[FRAME_SIZE..] == b[FRAME_SIZE..] + z;
  }

  lemma {:induction false} ParseRefines(p: Parser, pos: nat, z: Bytes)
    requires Aligned(p) && |p.buf| >= FRAME_SIZE - 2
    ensures var o := Parse(p, pos); Frames(p.buf + z) == o.frames + Frames(o.parser.buf + z)
    decreases |p.buf|
  {
    hide CrcOk, Align, Frames, HeaderAt;
    if pos < |p.buf| - 2 {
      AlignRefines(p, z);
      AlignIsAligned(p);
      var q := Align(p);
      if |q.buf| >= FRAME_SIZE {
        FramesAtHeader(q.buf, z);
        if !CrcOk(q.buf[..FRAME_SIZE]) {
          ParseRefines(Drop(q, 2), HeaderAt(p), z);
        } else if |q.buf| >= 2 * FRAME_SIZE {
          ParseRefines(Drop(q, FRAME_SIZE), HeaderAt(p), z);
        }
      }
    }
  }

  lemma ReceiveRefines(p: Parser, data: Bytes, z: Bytes)
    requires Aligned(p) && !Flushes(p, data)
    ensures var o := Receive(p, data); Frames(p.buf + (data + z)) == o.frames + Frames(o.parser.buf + z)
  {
    assert p.buf + (data + z) == p.buf + data + z;
    if |p.buf + data| >= FRAME_SIZE {
      ParseRefines(p.(buf := p.buf + data), 0, z);
    }
  }

  /** No call of the run throws its buffer away. */
  predicate NeverFlushes(p: Parser, chunks: seq<Bytes>)
    requires Consistent(p)
    decreases |chunks|
  {
    chunks == [] || (!Flushes(p, chunks[0]) && NeverFlushes(Receive(p, chunks[0]).parser, chunks[1..]))
  }

  lemma {:induction false} RunRefines(p: Parser, chunks: seq<Bytes>)
    requires Aligned(p) && NeverFlushes(p, chunks)
    ensures var o := ReceiveAll(p, chunks);
            Aligned(o.parser) && Frames(p.buf + Concat(chunks)) == o.frames + Frames(o.parser.buf)
    decreases |chunks|
  {
    hide Receive, Frames, Header;
    if chunks == [] {
      assert p.buf + [] == p.buf;
    } else {
      var first := Receive(p, chunks[0]);
      ReceiveRefines(p, chunks[0], Concat(chunks[1..]));
      AlignmentKeptExactly(p, chunks[0]);
      RunRefines(first.parser, chunks[1..]);
    }
  }

  // ---------------------------------------------------------------------------------
  // Backlog
  // ---------------------------------------------------------------------------------

  lemma {:induction false} ParseBacklog(p: Parser, pos: nat)
    requires Consistent(p) && |p.buf| >= FRAME_SIZE - 2
    ensures var left := |Parse(p, pos).parser.buf|;
            left < FRAME_SIZE || 2 * left <= |p.buf| || (left == |p.buf| && left <= pos + 2)
    decreases |p.buf|
  {
    if pos < |p.buf| - 2 {
      var q := Align(p);
      if |q.buf| < FRAME_SIZE {
      } else if !CrcOk(q.buf[..FRAME_SIZE]) {
        ParseBacklog(Drop(q, 2), HeaderAt(p));
      } else if |q.buf| >= 2 * FRAME_SIZE {
        ParseBacklog(Drop(q, FRAME_SIZE), HeaderAt(p));
      }
    }
  }

  /** A call leaves an incomplete packet, or at most half of what it had. */
  lemma ReceiveBacklog(p: Parser, data: Bytes)
    requires Consistent(p)
    ensures var left := |Receive(p, data).parser.buf|; left < FRAME_SIZE || 2 * left <= |p.buf + data|
  {
    if FRAME_SIZE <= |p.buf + data| <= FLUSH_LIMIT {
      ParseBacklog(p.(buf := p.buf + data), 0);
    }
  }

  /** Reads of at most r bytes, up to half the flush limit, never accumulate more than r bytes. */
  lemma {:induction false} BacklogBounded(p: Parser, chunks: seq<Bytes>, r: nat)
    requires Consistent(p)
    requires FRAME_SIZE <= r <= FLUSH_LIMIT / 2
    requires |p.buf| <= r && forall c | c in chunks :: |c| <= r
    ensures NeverFlushes(p, chunks)
    ensures |ReceiveAll(p, chunks).parser.buf| <= r
    decreases |chunks|
  {
    if chunks != [] {
      ReceiveBacklog(p, chunks[0]);
      BacklogBounded(Receive(p, chunks[0]).parser, chunks[1..], r);
    }
  }

  /** The guarantee of the receive thread, whose reads fit `readbuf`. */
  ghost predicate ShortReads(chunks: seq<Bytes>) {
    forall c | c in chunks :: |c| <= READ_SIZE
  }

  /**
    Chunk independence.  However a stream is cut into reads, the packets accepted so far,
    followed by those still sitting in the buffer, are exactly the packets of the stream.
   */
  lemma ChunkIndependence(chunks: seq<Bytes>)
    requires ShortReads(chunks)
    ensures var o := ReceiveAll(INIT, chunks);
            o.frames + Frames(o.parser.buf) == Frames(Concat(chunks))
            && Aligned(o.parser) && |o.parser.buf| <= READ_SIZE
  {
    BacklogBounded(INIT, chunks, READ_SIZE);
    RunRefines(INIT, chunks);
    assert INIT.buf + Concat(chunks) == Concat(chunks);
  }

  /** A clean or noisy transmission of packets is recovered in order from any chunking of it. */
  lemma TransmissionRecovered(chunks: seq<Bytes>, pieces: seq<Piece>, tail: Bytes)
    requires ShortReads(chunks) && Concat(chunks) == Assemble(pieces, tail)
    requires forall p | p in pieces :: Garbage(p.garbage) && ValidFrame(p.frame)
    requires Frames(tail) == []
    ensures var o := ReceiveAll(INIT, chunks); o.frames + Frames(o.parser.buf) == FramesOf(pieces)
  {
    ChunkIndependence(chunks);
    RoundTrip(pieces, tail);
  }
}
