/**
  When the packets that have arrived are handed over: how long a complete packet can stay in
  the buffer, exactly when one call leaves any behind, and what the answer of a call says.
 */
module Promptness {
  import opened Framing
  import opened StreamParser

  // ---------------------------------------------------------------------------------
  // Delay: how long a complete packet can stay in the buffer
  // ---------------------------------------------------------------------------------

  /** What is left of t when n bytes are taken from the front of a buffer that begins with t. */
  function Tail(t: Bytes, n: nat): Bytes {
    if n <= |t| then t[n..] else []
  }

  lemma TailTail(t: Bytes, m: nat, n: nat)
    ensures Tail(Tail(t, m), n) == Tail(t, m + n)
  {
  }

  lemma TailIsPrefix(t: Bytes, b: Bytes, n: nat)
    requires t <= b && n <= |b|
    ensures Tail(t, n) <= b[n..]
  {
  }

  /** What lies before the first header of a buffer holds no packet of any stretch that begins the buffer. */
  lemma AlignKeepsOld(p: Parser, t: Bytes)
    requires Aligned(p) && |p.buf| >= FRAME_SIZE - 2 && t <= p.buf
    ensures Frames(t) == Frames(Tail(t, HeaderAt(p)))
    ensures Align(p).buf == p.buf[HeaderAt(p)..]
  {
    hide Frames;
    var n := if HeaderAt(p) <= |t| then HeaderAt(p) else |t|;
    if p.head.HeadOk? {
      assert t[0..] == t && p.buf[0..] == p.buf;
    } else {
      SeekSkipsGarbage(p.buf, 0);
      forall i | 0 <= i < n ensures !Header(t[i..]) {
        assert !Header(p.buf[i..]);
        assert |t[i..]| >= 2 ==> t[i..][0] == p.buf[i..][0] && t[i..][1] == p.buf[i..][1];
      }
      SkipGarbage(t, n);
    }
    assert t[n..] == Tail(t, HeaderAt(p));
  }

  /** At a header: the packets of t are the one taken, if t holds it, and those of what is left of t. */
  lemma TakeKeepsOld(b: Bytes, t: Bytes)
    requires |b| >= FRAME_SIZE && Header(b) && t <= b
    ensures if CrcOk(b[..FRAME_SIZE]) then Frames(t) <= [b[..FRAME_SIZE]] + Frames(Tail(t, FRAME_SIZE))
            else Frames(t) == Frames(Tail(t, 2))
  {
    hide CrcOk;
    if |t| >= FRAME_SIZE {
      assert t[..FRAME_SIZE] == b[..FRAME_SIZE];
    }
  }

  lemma PrefixTrans(a: seq<Bytes>, taken: seq<Bytes>, b: seq<Bytes>, later: seq<Bytes>, c: seq<Bytes>)
    requires a <= taken + b && b <= later + c
    ensures a <= (taken + later) + c
  {
    assert (taken + later) + c == taken + (later + c);
  }

  /** One round of the loop. */
  lemma RoundKeepsOld(p: Parser, t: Bytes)
    requires Aligned(p) && |p.buf| >= FRAME_SIZE - 2 && t <= p.buf
    ensures var q, at := Align(p), HeaderAt(p);
            && q.buf == p.buf[at..]
            && (|q.buf| < FRAME_SIZE ==> Frames(t) == Frames(Tail(t, at)))
            && (|q.buf| >= FRAME_SIZE ==>
                  var f := q.buf[..FRAME_SIZE];
                  var step := if CrcOk(f) then FRAME_SIZE else 2;
                  Tail(t, at + step) <= q.buf[step..]
                  && Frames(t) <= (if CrcOk(f) then [f] else []) + Frames(Tail(t, at + step)))
  {
    hide CrcOk, Frames, Align, HeaderAt, Tail;
    AlignKeepsOld(p, t);
    AlignIsAligned(p);
    var q, at := Align(p), HeaderAt(p);
    var t1 := Tail(t, at);
    TailIsPrefix(t, p.buf, at);
    if |q.buf| >= FRAME_SIZE {
      TakeKeepsOld(q.buf, t1);
      var step := if CrcOk(q.buf[..FRAME_SIZE]) then FRAME_SIZE else 2;
      TailTail(t, at, step);
      TailIsPrefix(t1, q.buf, step);
    }
  }

  lemma SuffixOfSuffix(b: Bytes, i: nat, j: nat, k: nat)
    requires i + j + k <= |b|
    ensures b[i..][j..][k..] == b[i + j + k..]
  {
  }

  /** The loop takes bytes from the front only. */
  lemma {:induction false} ParseTakesFront(p: Parser, pos: nat)
    requires Consistent(p) && |p.buf| >= FRAME_SIZE - 2
    ensures var left := Parse(p, pos).parser.buf; |left| <= |p.buf| && left == p.buf[|p.buf| - |left|..]
    decreases |p.buf|
  {
    hide CrcOk, Parse, HeaderAt, Header, Seek;
    if pos >= |p.buf| - 2 {
      ParseStops(p, pos);
    } else {
      ParseRound(p, pos);
      var q, at := Align(p), HeaderAt(p);
      if |q.buf| >= FRAME_SIZE {
        var step := if CrcOk(q.buf[..FRAME_SIZE]) then FRAME_SIZE else 2;
        if step == 2 || |q.buf| >= 2 * FRAME_SIZE {
          var next := Drop(q, step);
          ParseTakesFront(next, at);
          SuffixOfSuffix(p.buf, at, step, |next.buf| - |Parse(next, at).parser.buf|);
        }
      }
    }
  }

  /** The loop hands over every packet of a stretch t that it takes. */
  lemma {:induction false} ParseKeepsOld(p: Parser, pos: nat, t: Bytes)
    requires Aligned(p) && |p.buf| >= FRAME_SIZE - 2 && t <= p.buf
    ensures var o := Parse(p, pos);
            |o.parser.buf| <= |p.buf| && Frames(t) <= o.frames + Frames(Tail(t, |p.buf| - |o.parser.buf|))
    decreases |p.buf|
  {
    hide CrcOk, Frames, Align, Parse, HeaderAt, Tail;
    if pos >= |p.buf| - 2 {
      ParseStops(p, pos);
      AllOfTail(t);
    } else {
      ParseRound(p, pos);
      RoundKeepsOld(p, t);
      var q, at := Align(p), HeaderAt(p);
      if |q.buf| >= FRAME_SIZE {
        var ok := CrcOk(q.buf[..FRAME_SIZE]);
        var step := if ok then FRAME_SIZE else 2;
        if !ok || |q.buf| >= 2 * FRAME_SIZE {
          var next := Drop(q, step);
          var t2 := Tail(t, at + step);
          ParseKeepsOld(next, at, t2);
          var later := Parse(next, at);
          TailTail(t, at + step, |next.buf| - |later.parser.buf|);
          PrefixTrans(Frames(t), if ok then [q.buf[..FRAME_SIZE]] else [], Frames(t2), later.frames,
                      Frames(Tail(t, |p.buf| - |later.parser.buf|)));
        }
      }
    }
  }

  lemma AllOfTail(t: Bytes)
    ensures Tail(t, 0) == t
  {
  }

  /** One call: the packets of t are handed over or left, and what is left of t halves or is less than a packet. */
  lemma ReceiveKeepsOld(p: Parser, data: Bytes, t: Bytes)
    requires Aligned(p) && !Flushes(p, data) && t <= p.buf
    ensures var o := Receive(p, data);
            && |o.parser.buf| <= |p.buf + data|
            && var left := Tail(t, |p.buf + data| - |o.parser.buf|);
               && left <= o.parser.buf && Frames(t) <= o.frames + Frames(left)
               && (|left| < FRAME_SIZE || 2 * |left| <= |t|)
  {
    hide CrcOk, Frames, Parse, Header, Tail;
    var b, o := p.buf + data, Receive(p, data);
    assert t <= b;
    TailLength(t, |b| - |o.parser.buf|);
    if |b| < FRAME_SIZE {
      AllOfTail(t);
    } else {
      AlignedExtends(p, data);
      ParseKeepsOld(p.(buf := b), 0, t);
      ParseTakesFront(p.(buf := b), 0);
      ReceiveBacklog(p, data);
      var n := |b| - |o.parser.buf|;
      TailIsPrefix(t, b, n);
    }
  }

  lemma TailLength(t: Bytes, n: int)
    ensures n >= 0 ==> |Tail(t, n)| == if n <= |t| then |t| - n else 0
  {
  }

  lemma AlignedExtends(p: Parser, data: Bytes)
    requires Aligned(p)
    ensures Aligned(p.(buf := p.buf + data))
  {
  }

  function Power(n: nat): (r: nat)
    ensures r >= 1
  {
    if n == 0 then 1 else 2 * Power(n - 1)
  }

  /** After n calls, whatever they bring, the packets of a stretch shorter than 47 * 2^n bytes are handed over. */
  lemma {:induction false} OldPacketsHandedOver(p: Parser, chunks: seq<Bytes>, t: Bytes)
    requires Aligned(p) && NeverFlushes(p, chunks) && t <= p.buf
    requires |t| < FRAME_SIZE * Power(|chunks|)
    ensures Frames(t) <= ReceiveAll(p, chunks).frames
    decreases |chunks|
  {
    hide Receive, Frames, Header, Tail;
    ShortHasNoFrames(t);
    if |t| >= FRAME_SIZE {
      var first := Receive(p, chunks[0]);
      ReceiveKeepsOld(p, chunks[0], t);
      AlignmentKeptExactly(p, chunks[0]);
      var left := Tail(t, |p.buf + chunks[0]| - |first.parser.buf|);
      OldPacketsHandedOver(first.parser, chunks[1..], left);
      var later := ReceiveAll(first.parser, chunks[1..]);
      assert later.frames <= later.frames + [];
      PrefixTrans(Frames(t), first.frames, Frames(left), later.frames, []);
    }
  }

  /**
    A packet that has arrived completely is handed over within the next five calls, whatever
    they bring: `before` are the reads up to then, `after` the reads since.
   */
  lemma HandedOverWithinFive(before: seq<Bytes>, after: seq<Bytes>)
    requires ShortReads(before) && ShortReads(after) && |after| >= 5
    ensures Frames(Concat(before)) <= ReceiveAll(INIT, before + after).frames
  {
    hide Receive, ReceiveAll, Frames, Power;
    var now := ReceiveAll(INIT, before);
    ChunkIndependence(before);
    BacklogBounded(now.parser, after, READ_SIZE);
    PowerOfFive(|after|);
    OldPacketsHandedOver(now.parser, after, now.parser.buf);
    ReceiveAllConcat(INIT, before, after);
  }

  lemma {:induction false} PowerOfFive(n: nat)
    requires n >= 5
    ensures Power(n) >= 32
  {
    if n == 5 {
      assert Power(5) == 2 * (2 * (2 * (2 * (2 * Power(0)))));
    } else {
      PowerOfFive(n - 1);
    }
  }

  lemma {:induction false} ReceiveAllConcat(p: Parser, a: seq<Bytes>, b: seq<Bytes>)
    requires Consistent(p)
    ensures var first := ReceiveAll(p, a); var later := ReceiveAll(first.parser, b);
            ReceiveAll(p, a + b) == Outcome(later.parser, first.frames + later.frames)
    decreases |a|
  {
    hide Receive;
    if a == [] {
      assert a + b == b;
      assert [] + ReceiveAll(p, b).frames == ReceiveAll(p, b).frames;
    } else {
      assert (a + b)[1..] == a[1..] + b;
      var one := Receive(p, a[0]);
      ReceiveAllConcat(one.parser, a[1..], b);
      var first := ReceiveAll(one.parser, a[1..]);
      AppendLater(one.frames, first.frames, ReceiveAll(first.parser, b).frames);
    }
  }

  /** Calls that bring nothing leave at most half of what there was, so five of them leave no packet. */
  lemma DrainedByFive(p: Parser)
    requires Aligned(p) && |p.buf| <= READ_SIZE
    ensures Frames(ReceiveAll(p, [[], [], [], [], []]).parser.buf) == []
  {
    hide Receive, Frames;
    DrainedBy(p, [[], [], [], [], []]);
    PowerOfFive(5);
  }

  lemma {:induction false} DrainedBy(p: Parser, chunks: seq<Bytes>)
    requires Consistent(p) && forall c | c in chunks :: c == []
    ensures |p.buf| < FRAME_SIZE * Power(|chunks|) ==> Frames(ReceiveAll(p, chunks).parser.buf) == []
    decreases |chunks|
  {
    hide Receive, Frames;
    if chunks == [] {
      ShortHasNoFrames(p.buf);
    } else {
      assert chunks[0] in chunks && forall c | c in chunks[1..] :: c in chunks;
      assert p.buf + [] == p.buf;
      ReceiveBacklog(p, chunks[0]);
      DrainedBy(Receive(p, chunks[0]).parser, chunks[1..]);
    }
  }

  // ---------------------------------------------------------------------------------
  // What the stale guard costs
  // ---------------------------------------------------------------------------------

  lemma {:induction false} SeekFindsHeader(b: Bytes, pos: nat, n: nat)
    requires pos <= n < |b| - 2
    requires HeaderFree(b, n) && Header(b[n..])
    ensures Seek(b, pos) == n
    decreases n - pos
  {
    if pos < n {
      assert !Header(b[pos..]);
      assert b[pos..][0] == b[pos] && b[pos..][1] == b[pos + 1];
      SeekFindsHeader(b, pos + 1, n);
    }
  }

  ghost predicate AllValid(fs: seq<Bytes>) {
    forall f | f in fs :: ValidFrame(f)
  }

  lemma {:induction false} ConcatLength(fs: seq<Bytes>)
    requires AllValid(fs)
    ensures |Concat(fs)| == 47 * |fs|
  {
    if fs != [] {
      assert fs[0] in fs;
      ConcatLength(fs[1..]);
    }
  }

  /** With n bytes of garbage in front, the first round takes the first packet. */
  lemma ParseFirst(g: Bytes, f: Bytes, rest: Bytes, pos: nat)
    requires Garbage(g) && ValidFrame(f)
    requires pos < |g + (f + rest)| - 2
    ensures var p := Fresh(g + (f + rest));
            Parse(p, pos) ==
            if |rest| < FRAME_SIZE then Outcome(Fresh(rest), [f])
            else
              var o := Parse(Fresh(rest), |g|);
              Outcome(o.parser, [f] + o.frames)
  {
    var p := Fresh(g + (f + rest));
    GarbageBeforeHeader(g, f + rest);
    SeekFindsHeader(p.buf, 0, |g|);
    var q := Align(p);
    assert q.buf == f + rest;
    assert q.buf[..FRAME_SIZE] == f && q.buf[FRAME_SIZE..] == rest;
  }

  /** Packets without garbage between them are all taken, provided the loop is entered at all. */
  lemma {:induction false} ParseBackToBack(fs: seq<Bytes>, b: Bytes, pos: nat)
    requires fs != [] && AllValid(fs) && b == Concat(fs)
    ensures |b| == 47 * |fs|
    ensures Parse(Fresh(b), pos) == if pos + 2 < 47 * |fs| then Outcome(INIT, fs) else Outcome(Fresh(b), [])
    decreases |fs|
  {
    hide Parse, ValidFrame, CrcOk;
    ConcatLength(fs);
    if pos + 2 >= 47 * |fs| {
      ParseStops(Fresh(b), pos);
    } else {
      var f, rest := fs[0], Concat(fs[1..]);
      assert f in fs;
      ConcatLength(fs[1..]);
      assert b == [] + (f + rest);
      ParseFirst([], f, rest, pos);
      if |fs| == 1 {
        assert rest == [] && fs == [f];
      } else {
        ParseBackToBack(fs[1..], rest, 0);
        assert fs == [f] + fs[1..];
      }
    }
  }

  lemma {:induction false} FramesOfBackToBack(fs: seq<Bytes>)
    requires AllValid(fs)
    ensures Frames(Concat(fs)) == fs
  {
    if fs != [] {
      assert fs[0] in fs;
      TakeFrame(fs[0], Concat(fs[1..]));
      FramesOfBackToBack(fs[1..]);
    }
  }

  lemma ParsePromptExactly(g: Bytes, fs: seq<Bytes>, b: Bytes, rest: Bytes)
    requires Garbage(g) && fs != [] && AllValid(fs)
    requires b == g + Concat(fs) && rest == Concat(fs[1..])
    ensures |b| == |g| + 47 * |fs|
    ensures Parse(Fresh(b), 0) ==
            if |fs| == 1 || |g| + 2 < 47 * (|fs| - 1) then Outcome(INIT, fs)
            else Outcome(Fresh(rest), [fs[0]])
  {
    hide Parse, ValidFrame, CrcOk, Frames, Garbage, Seek;
    var f := fs[0];
    assert f in fs;
    ConcatLength(fs);
    ConcatLength(fs[1..]);
    assert Concat(fs) == f + rest;
    ParseFirst(g, f, rest, 0);
    if |fs| == 1 {
      assert rest == [] && fs == [f];
    } else {
      ParseBackToBack(fs[1..], rest, |g|);
      assert fs == [f] + fs[1..];
    }
  }

  /**
    What the answer of a call means: false leaves less than a packet behind, and true no
    remembered header.
   */
  lemma AnswerMeaning(p: Parser, data: Bytes)
    requires Consistent(p)
    ensures var o := Receive(p, data);
            && (!Answer(p, data) ==> |o.parser.buf| < FRAME_SIZE)
            && (Answer(p, data) ==> o.parser.head.HeadNone?)
  {
    if FRAME_SIZE <= |p.buf + data| <= FLUSH_LIMIT {
      ParseAnswerMeaning(p.(buf := p.buf + data), 0);
    }
  }

  lemma {:induction false} ParseAnswerMeaning(p: Parser, pos: nat)
    requires Consistent(p) && |p.buf| >= FRAME_SIZE - 2
    requires p.head.HeadNone? || pos < |p.buf| - 2
    ensures var o := Parse(p, pos);
            && (!ParseAnswer(p, pos) ==> |o.parser.buf| < FRAME_SIZE)
            && (ParseAnswer(p, pos) ==> o.parser.head.HeadNone?)
    decreases |p.buf|
  {
    hide CrcOk;
    if pos < |p.buf| - 2 {
      var q := Align(p);
      if |q.buf| < FRAME_SIZE {
      } else if !CrcOk(q.buf[..FRAME_SIZE]) {
        ParseAnswerMeaning(Drop(q, 2), HeaderAt(p));
      } else if |q.buf| >= 2 * FRAME_SIZE {
        ParseAnswerMeaning(Drop(q, FRAME_SIZE), HeaderAt(p));
      }
    }
  }

  /** What one round leaves of b, when it finds a header with 47 bytes behind it: b without the packet or the header. */
  function AfterHeader(b: Bytes): (rest: Bytes)
    requires |b| >= FRAME_SIZE && |b| - Seek(b, 0) >= FRAME_SIZE
    ensures |b| - Seek(b, 0) - FRAME_SIZE <= |rest| < |b|
  {
    var q := b[Seek(b, 0)..];
    if CrcOk(q[..FRAME_SIZE]) then q[FRAME_SIZE..] else q[2..]
  }

  /**
    The guard never stops the reading of b early: behind every header found there is no packet
    left, or more bytes are left than were stepped over to find the header.
   */
  ghost predicate KeepsGoing(b: Bytes)
    decreases |b|
  {
    |b| < FRAME_SIZE || |b| - Seek(b, 0) < FRAME_SIZE
    || var rest := AfterHeader(b); Frames(rest) == [] || (Seek(b, 0) + 2 < |rest| && KeepsGoing(rest))
  }

  /** An aligned parser finds its header where a search from the front does. */
  lemma AlignedSeek(p: Parser)
    requires Aligned(p) && |p.buf| >= FRAME_SIZE - 2
    ensures HeaderAt(p) == Seek(p.buf, 0)
    ensures Align(p).buf == p.buf[Seek(p.buf, 0)..]
  {
  }

  /** The packets of b are those behind its first header, and that one. */
  lemma FramesAfterHeader(b: Bytes)
    requires |b| >= FRAME_SIZE
    ensures Frames(b) ==
            if |b| - Seek(b, 0) < FRAME_SIZE then []
            else
              var f := b[Seek(b, 0)..][..FRAME_SIZE];
              (if CrcOk(f) then [f] else []) + Frames(AfterHeader(b))
  {
    hide CrcOk;
    var at := Seek(b, 0);
    SeekSkipsGarbage(b, 0);
    SkipGarbage(b, at);
  }

  /** The loop, entered with any position, leaves no complete packet behind exactly under these conditions. */
  lemma {:induction false} ParsePrompt(p: Parser, pos: nat)
    requires Aligned(p) && |p.buf| >= FRAME_SIZE - 2
    ensures Frames(Parse(p, pos).parser.buf) == []
            <==> Frames(p.buf) == [] || (pos + 2 < |p.buf| && KeepsGoing(p.buf))
    decreases |p.buf|
  {
    hide CrcOk, Frames, Align, Parse, HeaderAt;
    if pos >= |p.buf| - 2 {
      ParseStops(p, pos);
    } else {
      ParseRound(p, pos);
      AlignedSeek(p);
      var q := Align(p);
      ShortHasNoFrames(p.buf);
      ShortHasNoFrames(q.buf);
      if |q.buf| >= FRAME_SIZE {
        FramesAfterHeader(p.buf);
        var rest := AfterHeader(p.buf);
        ShortHasNoFrames(rest);
        if !CrcOk(q.buf[..FRAME_SIZE]) {
          ParsePrompt(Drop(q, 2), HeaderAt(p));
        } else if |q.buf| >= 2 * FRAME_SIZE {
          ParsePrompt(Drop(q, FRAME_SIZE), HeaderAt(p));
        }
      } else if |p.buf| >= FRAME_SIZE {
        FramesAfterHeader(p.buf);
      }
    }
  }

  lemma ShortHasNoFrames(b: Bytes)
    ensures |b| < FRAME_SIZE ==> Frames(b) == []
  {
  }

  /**
    A call does not always hand over every complete packet it holds.  It does so, for every
    parser, every buffer left over and all new bytes, exactly when the guard never stops early.
   */
  lemma ReceivePromptExactly(p: Parser, data: Bytes)
    requires Aligned(p) && !Flushes(p, data)
    ensures var b := p.buf + data; var o := Receive(p, data);
            && (Frames(o.parser.buf) == [] <==> KeepsGoing(b))
            && (o.frames == Frames(b) <==> KeepsGoing(b))
  {
    hide CrcOk, Frames, Parse, KeepsGoing;
    var b := p.buf + data;
    ReceiveRefines(p, data, []);
    assert data + [] == data && Receive(p, data).parser.buf + [] == Receive(p, data).parser.buf;
    ShortHasNoFrames(b);
    NothingKeepsGoing(b);
    if |b| >= FRAME_SIZE {
      ParsePrompt(p.(buf := b), 0);
    }
  }

  lemma NothingKeepsGoing(b: Bytes)
    ensures Frames(b) == [] ==> KeepsGoing(b)
  {
    hide CrcOk, Frames;
    if |b| >= FRAME_SIZE {
      FramesAfterHeader(b);
    }
  }

  /** A search for a header that begins at `from`, finds one at `at`, and goes on at `next`. */
  datatype Search = Search(from: nat, at: nat, next: nat)

  /** No search from `from` finds a header with 47 bytes behind it. */
  predicate Ended(b: Bytes, from: nat)
    requires from <= |b|
  {
    |b| - from < FRAME_SIZE || |b| - from - Seek(b[from..], 0) < FRAME_SIZE
  }

  /** The first search from `from`. */
  function FirstOf(b: Bytes, from: nat): (s: Search)
    requires from <= |b| && !Ended(b, from)
    ensures from == s.from <= s.at < s.next <= |b|
  {
    var rest := b[from..];
    Search(from, from + Seek(rest, 0), |b| - |AfterHeader(rest)|)
  }

  /** The searches made from `from` on in the reading of b, as offsets. */
  function Searches(b: Bytes, from: nat): seq<Search>
    requires from <= |b|
    decreases |b| - from
  {
    if Ended(b, from) then [] else [FirstOf(b, from)] + Searches(b, FirstOf(b, from).next)
  }

  /** No header begins in b from offset i up to offset j. */
  ghost predicate NoHeader(b: Bytes, i: nat, j: int)
    requires j <= |b|
  {
    forall k | i <= k < j :: !Header(b[k..])
  }

  /** A search passes no header, finds one, and steps over the packet if it is one, and else over the header. */
  ghost predicate GoodSearch(b: Bytes, s: Search) {
    && s.from <= s.at <= |b| - FRAME_SIZE
    && NoHeader(b, s.from, s.at)
    && Header(b[s.at..])
    && s.next == s.at + if CrcOk(b[s.at..s.at + FRAME_SIZE]) then FRAME_SIZE else 2
  }

  /** One search follows the other from `from` on, until no header is left with 47 bytes behind it. */
  ghost predicate GoodSearches(b: Bytes, from: nat, ss: seq<Search>)
    decreases |ss|
  {
    if ss == [] then NoHeader(b, from, |b| - FRAME_SIZE + 1)
    else ss[0].from == from && GoodSearch(b, ss[0]) && GoodSearches(b, ss[0].next, ss[1..])
  }

  lemma SeekPassesNoHeader(b: Bytes, from: nat)
    requires from + 2 <= |b|
    ensures NoHeader(b, from, from + Seek(b[from..], 0))
  {
    var rest := b[from..];
    SeekSkipsGarbage(rest, 0);
    forall i | from <= i < from + Seek(rest, 0) ensures !Header(b[i..]) {
      assert b[i..] == rest[i - from..];
    }
  }

  lemma SuffixAt(b: Bytes, i: nat, j: nat)
    requires i + j + FRAME_SIZE <= |b|
    ensures b[i..][j..] == b[i + j..] && b[i..][j..][..FRAME_SIZE] == b[i + j..i + j + FRAME_SIZE]
    ensures b[i..][j..][2..] == b[i + j + 2..] && b[i..][j..][FRAME_SIZE..] == b[i + j + FRAME_SIZE..]
  {
  }

  lemma AfterHeaderAt(b: Bytes, from: nat)
    requires from <= |b| && !Ended(b, from)
    ensures var at := from + Seek(b[from..], 0);
            var next := at + if CrcOk(b[at..at + FRAME_SIZE]) then FRAME_SIZE else 2;
            Header(b[at..]) && AfterHeader(b[from..]) == b[next..]
  {
    hide CrcOk, Header, Seek;
    SuffixAt(b, from, Seek(b[from..], 0));
  }

  lemma FirstSearch(b: Bytes, from: nat)
    requires from <= |b| && !Ended(b, from)
    ensures GoodSearch(b, FirstOf(b, from)) && b[FirstOf(b, from).next..] == AfterHeader(b[from..])
  {
    hide CrcOk, NoHeader, Header, Seek, AfterHeader;
    SeekPassesNoHeader(b, from);
    AfterHeaderAt(b, from);
  }

  lemma EndedMeaning(b: Bytes, from: nat)
    requires from <= |b| && Ended(b, from)
    ensures NoHeader(b, from, |b| - FRAME_SIZE + 1)
  {
    if from + 2 <= |b| {
      SeekPassesNoHeader(b, from);
    }
  }

  lemma SearchesStep(b: Bytes, from: nat)
    requires from <= |b|
    ensures Searches(b, from) == if Ended(b, from) then [] else [FirstOf(b, from)] + Searches(b, FirstOf(b, from).next)
  {
    hide Ended, FirstOf;
  }

  lemma GoodPrepend(b: Bytes, s: Search, later: seq<Search>)
    requires GoodSearch(b, s) && GoodSearches(b, s.next, later)
    ensures GoodSearches(b, s.from, [s] + later)
  {
    hide GoodSearch;
    assert ([s] + later)[1..] == later;
  }

  lemma {:induction false} SearchesMeaning(b: Bytes, from: nat)
    requires from <= |b|
    ensures GoodSearches(b, from, Searches(b, from))
    decreases |b| - from
  {
    hide GoodSearch, Searches, Ended, NoHeader;
    SearchesStep(b, from);
    if Ended(b, from) {
      EndedMeaning(b, from);
    } else {
      var s := FirstOf(b, from);
      FirstSearch(b, from);
      SearchesMeaning(b, s.next);
      GoodPrepend(b, s, Searches(b, s.next));
    }
  }

  /** No packet lies behind the search, or more bytes do than were stepped over to find the header. */
  predicate Outpaced(b: Bytes, s: Search)
    requires s.from <= s.at && s.next <= |b|
  {
    Frames(b[s.next..]) == [] || s.at - s.from + 2 < |b| - s.next
  }

  ghost predicate AllOutpaced(b: Bytes, ss: seq<Search>) {
    forall s | s in ss :: s.from <= s.at && s.next <= |b| && Outpaced(b, s)
  }

  lemma OutpacedStep(b: Bytes, s: Search, later: seq<Search>)
    ensures AllOutpaced(b, [s] + later)
            <==> (s.from <= s.at && s.next <= |b| && Outpaced(b, s)) && AllOutpaced(b, later)
  {
    hide Outpaced;
    assert forall x :: x in [s] + later <==> x == s || x in later;
  }

  /** Behind the last packet every search is outpaced. */
  lemma {:induction false} NothingBehind(b: Bytes, from: nat)
    requires from <= |b|
    ensures Frames(b[from..]) == [] ==> AllOutpaced(b, Searches(b, from))
    decreases |b| - from
  {
    hide Frames, Searches, Ended, AllOutpaced, FirstOf;
    SearchesStep(b, from);
    if Ended(b, from) {
      NothingOutpaced(b);
    } else {
      var s := FirstOf(b, from);
      FramesBehindSearch(b, from);
      NothingBehind(b, s.next);
      OutpacedStep(b, s, Searches(b, s.next));
    }
  }

  lemma NothingOutpaced(b: Bytes)
    ensures AllOutpaced(b, [])
  {
  }

  lemma FramesBehindSearch(b: Bytes, from: nat)
    requires from <= |b| && !Ended(b, from)
    ensures Frames(b[from..]) == [] ==> Frames(b[FirstOf(b, from).next..]) == []
  {
    hide Frames, AfterHeader;
    FramesAfterHeader(b[from..]);
    FirstSearch(b, from);
  }

  lemma KeepsGoingStep(b: Bytes, from: nat)
    requires from <= |b|
    ensures Ended(b, from) ==> KeepsGoing(b[from..])
    ensures !Ended(b, from) ==>
              var s := FirstOf(b, from);
              KeepsGoing(b[from..])
              <==> Outpaced(b, s) && (Frames(b[s.next..]) == [] || KeepsGoing(b[s.next..]))
  {
    hide Frames, AfterHeader;
    if !Ended(b, from) {
      FirstSearch(b, from);
    }
  }

  /** The condition of promptness as a statement about every search made in the buffer. */
  lemma {:induction false} KeepsGoingExactly(b: Bytes, from: nat)
    requires from <= |b|
    ensures KeepsGoing(b[from..]) <==> AllOutpaced(b, Searches(b, from))
    decreases |b| - from
  {
    hide Frames, Searches, Ended, AllOutpaced, KeepsGoing, FirstOf;
    SearchesStep(b, from);
    KeepsGoingStep(b, from);
    if Ended(b, from) {
      NothingOutpaced(b);
    } else {
      var s := FirstOf(b, from);
      KeepsGoingExactly(b, s.next);
      NothingBehind(b, s.next);
      OutpacedStep(b, s, Searches(b, s.next));
    }
  }

  /** The same for one call. */
  lemma SearchesPromptExactly(p: Parser, data: Bytes)
    requires Aligned(p) && !Flushes(p, data)
    ensures var b := p.buf + data;
            && GoodSearches(b, 0, Searches(b, 0))
            && (Receive(p, data).frames == Frames(b) <==> AllOutpaced(b, Searches(b, 0)))
  {
    hide Frames, KeepsGoing, Receive, GoodSearches, AllOutpaced, Searches;
    var b := p.buf + data;
    assert b[0..] == b;
    SearchesMeaning(b, 0);
    KeepsGoingExactly(b, 0);
    ReceivePromptExactly(p, data);
  }

  // ---------------------------------------------------------------------------------
  // What a call answers
  // ---------------------------------------------------------------------------------

  /**
    The loop ends behind this search: a packet was taken and fewer than 47 bytes are left, or no
    more bytes are left than were stepped over, and two.
   */
  predicate Halts(b: Bytes, s: Search) {
    (s.next == s.at + 47 && |b| - s.next < 47) || |b| - s.next <= s.at - s.from + 2
  }

  ghost predicate SomeHalts(b: Bytes, ss: seq<Search>) {
    exists s | s in ss :: Halts(b, s)
  }

  lemma HaltsStep(b: Bytes, s: Search, later: seq<Search>)
    ensures SomeHalts(b, [s] + later) <==> Halts(b, s) || SomeHalts(b, later)
    ensures !SomeHalts(b, [])
  {
    hide Halts;
    assert forall x :: x in [s] + later <==> x == s || x in later;
  }

  /** One round of the loop in terms of the first search. */
  lemma RoundOfSearch(p: Parser, b: Bytes, from: nat)
    requires Aligned(p) && from <= |b| && p.buf == b[from..] && |p.buf| >= FRAME_SIZE - 2
    ensures var q := Align(p);
            && (|q.buf| < FRAME_SIZE <==> Ended(b, from))
            && (!Ended(b, from) ==>
                  var s := FirstOf(b, from);
                  var n := if CrcOk(q.buf[..FRAME_SIZE]) then FRAME_SIZE else 2;
                  && HeaderAt(p) == s.at - s.from && s.next == s.at + n && |q.buf| == |b| - s.at
                  && Drop(q, n) == Fresh(b[s.next..]))
  {
    hide CrcOk, Header, Seek;
    AlignedSeek(p);
    if !Ended(b, from) {
      SuffixAt(b, from, Seek(b[from..], 0));
    }
  }

  lemma {:induction false} ParseAnswerExactly(p: Parser, pos: nat, b: Bytes, from: nat)
    requires Aligned(p) && from <= |b| && p.buf == b[from..] && |p.buf| >= FRAME_SIZE - 2
    requires pos + 2 < |p.buf|
    ensures ParseAnswer(p, pos) <==> SomeHalts(b, Searches(b, from))
    decreases |p.buf|
  {
    hide CrcOk, Header, Align, HeaderAt, ParseAnswer, Searches, Ended, FirstOf, SomeHalts;
    AnswerRound(p, pos);
    RoundOfSearch(p, b, from);
    SearchesStep(b, from);
    if Ended(b, from) {
      HaltsStep(b, Search(0, 0, 0), []);
    } else {
      var s := FirstOf(b, from);
      var next := Fresh(b[s.next..]);
      HaltsStep(b, s, Searches(b, s.next));
      if |next.buf| >= FRAME_SIZE - 2 {
        if HeaderAt(p) + 2 < |next.buf| {
          ParseAnswerExactly(next, HeaderAt(p), b, s.next);
        } else {
          ParseStops(next, HeaderAt(p));
        }
      }
    }
  }

  /** A call answers true exactly when it has between 47 and 4700 bytes and the loop ends behind one of the searches. */
  lemma AnswerExactly(p: Parser, data: Bytes)
    requires Aligned(p)
    ensures var b := p.buf + data;
            && GoodSearches(b, 0, Searches(b, 0))
            && (Answer(p, data) <==> 47 <= |b| <= 4700 && SomeHalts(b, Searches(b, 0)))
  {
    hide CrcOk, Searches, SomeHalts, ParseAnswer, GoodSearches;
    var b := p.buf + data;
    SearchesMeaning(b, 0);
    if FRAME_SIZE <= |b| <= FLUSH_LIMIT {
      assert b[0..] == b;
      ParseAnswerExactly(p.(buf := b), 0, b, 0);
    }
  }

  /** For example: a read of exactly one packet is answered with true. */
  lemma OnePacketAnswer(f: Bytes)
    requires ValidFrame(f)
    ensures Answer(INIT, f)
  {
    hide CrcOk;
    assert INIT.buf + f == f && f[0..] == f && f[..FRAME_SIZE] == f;
  }

  /** What a call does with a buffer that is too short or too long, in numbers of bytes. */
  lemma ShortAndLongCalls(p: Parser, data: Bytes)
    requires Consistent(p)
    ensures var n := |p.buf| + |data|;
            && (n < 47 ==> Receive(p, data) == Outcome(p.(buf := p.buf + data), []))
            && (n > 4700 ==> Receive(p, data) == Outcome(p.(buf := []), []))
            && (Flushes(p, data) <==> n > 4700)
  {
  }

  /** More bytes follow piece i than the garbage in it, or it is the last. */
  predicate Outrun(pieces: seq<Piece>, tail: Bytes, i: nat)
    requires i < |pieces|
  {
    i == |pieces| - 1 || |pieces[i].garbage| + 2 < |Assemble(pieces[i + 1..], tail)|
  }

  ghost predicate AllOutrun(pieces: seq<Piece>, tail: Bytes) {
    forall i | 0 <= i < |pieces| :: Outrun(pieces, tail, i)
  }

  lemma OutrunStep(pieces: seq<Piece>, tail: Bytes)
    requires pieces != []
    ensures AllOutrun(pieces, tail) <==> Outrun(pieces, tail, 0) && AllOutrun(pieces[1..], tail)
  {
    var later := pieces[1..];
    forall i | 0 < i < |pieces| ensures Outrun(pieces, tail, i) <==> Outrun(later, tail, i - 1) {
      assert later[i..] == pieces[i + 1..];
    }
    if AllOutrun(pieces, tail) {
      forall i | 0 <= i < |later| ensures Outrun(later, tail, i) {
        assert Outrun(pieces, tail, i + 1);
      }
    }
  }

  lemma {:induction false} PiecesKeepGoing(pieces: seq<Piece>, tail: Bytes)
    requires forall p | p in pieces :: Garbage(p.garbage) && ValidFrame(p.frame)
    requires Frames(tail) == []
    ensures KeepsGoing(Assemble(pieces, tail)) <==> AllOutrun(pieces, tail)
    decreases |pieces|
  {
    hide CrcOk, Frames, KeepsGoing;
    var b := Assemble(pieces, tail);
    RoundTrip(pieces, tail);
    if pieces == [] {
      NothingKeepsGoing(b);
    } else {
      var later, rest := pieces[1..], Assemble(pieces[1..], tail);
      assert pieces[0] in pieces;
      PieceKeepsGoing(pieces[0].garbage, pieces[0].frame, rest);
      RoundTrip(later, tail);
      PiecesKeepGoing(later, tail);
      OutrunStep(pieces, tail);
    }
  }

  lemma PieceKeepsGoing(g: Bytes, f: Bytes, rest: Bytes)
    requires Garbage(g) && ValidFrame(f)
    ensures KeepsGoing(g + (f + rest)) <==> Frames(rest) == [] || (|g| + 2 < |rest| && KeepsGoing(rest))
  {
    hide CrcOk, Frames;
    var b := g + (f + rest);
    GarbageBeforeHeader(g, f + rest);
    SeekFindsHeader(b, 0, |g|);
    assert b[|g|..] == f + rest && (f + rest)[..FRAME_SIZE] == f && (f + rest)[FRAME_SIZE..] == rest;
  }

  /**
    For packets with garbage between them, wherever the buffer left over ends and the new bytes
    begin: a call hands over all of them exactly when the garbage in front of each one, except
    the last, is outrun by the bytes behind it.
   */
  lemma PiecesPromptExactly(p: Parser, data: Bytes, pieces: seq<Piece>, tail: Bytes)
    requires Aligned(p) && !Flushes(p, data)
    requires p.buf + data == Assemble(pieces, tail)
    requires forall piece | piece in pieces :: Garbage(piece.garbage) && ValidFrame(piece.frame)
    requires Frames(tail) == []
    ensures Receive(p, data).frames == FramesOf(pieces) <==> AllOutrun(pieces, tail)
  {
    hide CrcOk, Frames, KeepsGoing, Receive;
    RoundTrip(pieces, tail);
    PiecesKeepGoing(pieces, tail);
    ReceivePromptExactly(p, data);
  }

  /**
    In particular, for one stretch of garbage followed by packets: the call hands over all of
    them exactly when there is a single one, or when the bytes after the first outnumber the
    garbage; otherwise it stops after the first and keeps the others for a later call.
   */
  lemma PromptExactly(g: Bytes, fs: seq<Bytes>)
    requires Garbage(g) && fs != [] && AllValid(fs)
    requires |g + Concat(fs)| <= FLUSH_LIMIT
    ensures var o := Receive(INIT, g + Concat(fs));
            && (o.frames == fs <==> |fs| == 1 || |g| + 2 < 47 * (|fs| - 1))
            && (o.frames != fs ==> o.frames == [fs[0]] && Frames(o.parser.buf) == fs[1..])
  {
    var b := g + Concat(fs);
    assert INIT.buf + b == b;
    ParsePromptExactly(g, fs, b, Concat(fs[1..]));
    FramesOfBackToBack(fs[1..]);
  }
}
