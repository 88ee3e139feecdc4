/**
  The inertial sensor's byte machine: `handleSerialData` is given one byte at a time, keeps
  up to eleven of them in a dictionary, and publishes a message on every valid angle packet.

  Readings are the raw signed 16-bit values of the packets; the constant factors that turn
  them into physical units are not part of this model.
 */
module Imu {
  import opened Wrappers

  type Byte = x: int | 0 <= x < 256

  const PACKET_SIZE := 11
  const SYNC: Byte := 0x55

  datatype Readings = Readings(acceleration: seq<int>, velocity: seq<int>, angle: seq<int>, field: seq<int>)

  /** What one publication carries: the angle of the packet that triggered it, and the latest of the rest. */
  datatype Message = Message(angle: seq<int>, velocity: seq<int>, acceleration: seq<int>, field: seq<int>)

  const ZEROS: seq<int> := [0, 0, 0]
  const INITIAL := Readings(ZEROS, ZEROS, ZEROS, ZEROS)

  function Sum(s: seq<Byte>): nat {
    if s == [] then 0 else Sum(s[..|s| - 1]) + s[|s| - 1]
  }

  predicate CheckSum(s: seq<Byte>, check: Byte) {
    Sum(s) % 256 == check
  }

  /** A little-endian signed 16-bit value. */
  function Short(lo: Byte, hi: Byte): (r: int)
    ensures -0x8000 <= r < 0x8000
  {
    var v := lo + 256 * hi;
    if v >= 0x8000 then v - 0x1_0000 else v
  }

  function HexToShort(raw: seq<Byte>): seq<int>
    requires |raw| == 8
  {
    [Short(raw[0], raw[1]), Short(raw[2], raw[3]), Short(raw[4], raw[5]), Short(raw[6], raw[7])]
  }

  predicate Intact(p: seq<Byte>)
    requires |p| == PACKET_SIZE
  {
    CheckSum(p[..10], p[10])
  }

  function Axes(p: seq<Byte>): seq<int>
    requires |p| == PACKET_SIZE
  {
    HexToShort(p[2..10])[..3]
  }

  /** The values of a dictionary filled in the order of its keys 0..n. */
  function Values(m: map<nat, Byte>, n: nat): (s: seq<Byte>)
    requires forall i: nat :: i < n ==> i in m
    ensures |s| == n && forall i | 0 <= i < n :: s[i] == m[i]
  {
    seq(n, i requires 0 <= i < n => m[i])
  }

  // ---------------------------------------------------------------------------------
  // The byte machine
  // ---------------------------------------------------------------------------------

  class Reader {
    var buff: map<nat, Byte>
    var key: nat
    var acceleration: seq<int>
    var angularVelocity: seq<int>
    var magnetometer: seq<int>
    var angleDegree: seq<int>

    /** Between calls the dictionary holds bytes 0..key, and the first of them is the sync byte. */
    ghost predicate Valid()
      reads this
    {
      && key < PACKET_SIZE
      && (forall i: nat :: i < key ==> i in buff)
      && (forall i: nat :: i in buff && i != 0 ==> i < key)
      && (key > 0 ==> buff[0] == SYNC)
      && |magnetometer| >= 3
    }

    ghost function Held(): (s: seq<Byte>)
      requires Valid()
      reads this
    {
      Values(buff, key)
    }

    ghost function Latest(): Readings
      requires Valid()
      reads this
    {
      Readings(acceleration, angularVelocity, angleDegree, magnetometer[..3])
    }

    constructor ()
      ensures Valid() && Held() == [] && Latest() == INITIAL
    {
      buff, key := map[], 0;
      acceleration, angularVelocity, magnetometer, angleDegree := ZEROS, ZEROS, ZEROS, ZEROS;
    }

    method HandleSerialData(raw: Byte) returns (message: Option<Message>)
      requires Valid()
      modifies this
      ensures Valid()
      ensures Held() == Push(old(Held()), raw).held
      ensures Latest() == AfterAll(old(Latest()), Push(old(Held()), raw).packets)
      ensures (if message.Some? then [message.value] else [])
              == Published(old(Latest()), Push(old(Held()), raw).packets)
    {
      hide After, Intact;
      message := None;
      ghost var bytes := Held() + [raw];
      buff := buff[key := raw];
      key := key + 1;
      assert Values(buff, key) == bytes;
      if buff[0] != 0x55 {
        key := 0;
        return;
      }
      if key < 11 {
        return;
      }
      var data := Values(buff, 11);
      message := Dispatch(data);
      buff := map[];
      key := 0;
      ghost var one := [bytes];
      assert one[..0] == [] && one[0] == bytes;
    }

    /** The branches on the kind of a complete packet. */
    method Dispatch(data: seq<Byte>) returns (message: Option<Message>)
      requires |data| == PACKET_SIZE && |magnetometer| >= 3
      modifies this`acceleration, this`angularVelocity, this`magnetometer, this`angleDegree
      ensures |magnetometer| >= 3
      ensures Readings(acceleration, angularVelocity, angleDegree, magnetometer[..3]) ==
              After(old(Readings(acceleration, angularVelocity, angleDegree, magnetometer[..3])), data)
      ensures message == if Intact(data) && data[1] == 0x53
                         then Some(Message(angleDegree, angularVelocity, acceleration, magnetometer[..3])) else None
    {
      var angleFlag := false;
      if data[1] == 0x51 {
        if CheckSum(data[..10], data[10]) {
          acceleration := HexToShort(data[2..10])[..3];
        }
      } else if data[1] == 0x52 {
        if CheckSum(data[..10], data[10]) {
          angularVelocity := HexToShort(data[2..10])[..3];
        }
      } else if data[1] == 0x53 {
        if CheckSum(data[..10], data[10]) {
          angleDegree := HexToShort(data[2..10])[..3];
          angleFlag := true;
        }
      } else if data[1] == 0x54 {
        if CheckSum(data[..10], data[10]) {
          magnetometer := HexToShort(data[2..10]);
        }
      }
      message := None;
      if angleFlag {
        message := Some(Message(angleDegree, angularVelocity, acceleration, magnetometer[..3]));
      }
    }

    /** The loop of the node over the bytes that have arrived. */
    method HandleAll(data: seq<Byte>) returns (messages: seq<Message>)
      requires Valid()
      modifies this
      ensures Valid()
      ensures Held() == PushAll(old(Held()), data).held
      ensures Latest() == AfterAll(old(Latest()), PushAll(old(Held()), data).packets)
      ensures messages == Published(old(Latest()), PushAll(old(Held()), data).packets)
    {
      hide PushAll, Push, Published, AfterAll;
      messages := [];
      ghost var packets: seq<seq<Byte>> := [];
      NothingPushed(Held(), Latest());
      var i := 0;
      while i < |data|
        invariant 0 <= i <= |data| && Valid() && Packets(packets)
        invariant PushAll(old(Held()), data[..i]) == Progress(Held(), packets)
        invariant Latest() == AfterAll(old(Latest()), packets)
        invariant messages == Published(old(Latest()), packets)
      {
        ghost var one := Push(Held(), data[i]).packets;
        PushAllStep(old(Held()), data, i);
        PublishedConcat(old(Latest()), packets, one);
        var message := HandleSerialData(data[i]);
        if message.Some? {
          messages := messages + [message.value];
        }
        packets := packets + one;
        i := i + 1;
      }
      assert data[..|data|] == data;
    }
  }

  // ---------------------------------------------------------------------------------
  // Specification: bytes held, packets completed, messages published
  // ---------------------------------------------------------------------------------

  predicate Packets(ps: seq<seq<Byte>>) {
    forall p | p in ps :: |p| == PACKET_SIZE
  }

  datatype Progress = Progress(held: seq<Byte>, packets: seq<seq<Byte>>)

  function Push(held: seq<Byte>, b: Byte): (r: Progress)
    requires |held| < PACKET_SIZE
    ensures |r.held| < PACKET_SIZE && Packets(r.packets)
  {
    var s := held + [b];
    if s[0] != SYNC then Progress([], [])
    else if |s| < PACKET_SIZE then Progress(s, [])
    else Progress([], [s])
  }

  function PushAll(held: seq<Byte>, data: seq<Byte>): (r: Progress)
    requires |held| < PACKET_SIZE
    ensures |r.held| < PACKET_SIZE && Packets(r.packets)
  {
    if data == [] then Progress(held, [])
    else
      var before := PushAll(held, data[..|data| - 1]);
      var last := Push(before.held, data[|data| - 1]);
      Progress(last.held, before.packets + last.packets)
  }

  function After(r: Readings, p: seq<Byte>): Readings
    requires |p| == PACKET_SIZE
  {
    if !Intact(p) then r
    else if p[1] == 0x51 then r.(acceleration := Axes(p))
    else if p[1] == 0x52 then r.(velocity := Axes(p))
    else if p[1] == 0x53 then r.(angle := Axes(p))
    else if p[1] == 0x54 then r.(field := Axes(p))
    else r
  }

  function AfterAll(r: Readings, ps: seq<seq<Byte>>): Readings
    requires Packets(ps)
    decreases |ps|
  {
    if ps == [] then r else After(AfterAll(r, ps[..|ps| - 1]), ps[|ps| - 1])
  }

  function Published(r: Readings, ps: seq<seq<Byte>>): seq<Message>
    requires Packets(ps)
    decreases |ps|
  {
    if ps == [] then []
    else
      var front, p := ps[..|ps| - 1], ps[|ps| - 1];
      Published(r, front) + PublishedOne(AfterAll(r, front), p)
  }

  /** The message, if any, that packet p publishes when the readings are r. */
  function PublishedOne(r: Readings, p: seq<Byte>): seq<Message>
    requires |p| == PACKET_SIZE
  {
    var now := After(r, p);
    if Intact(p) && p[1] == 0x53 then [Message(now.angle, now.velocity, now.acceleration, now.field)] else []
  }

  lemma {:induction false} AfterConcat(r: Readings, a: seq<seq<Byte>>, b: seq<seq<Byte>>)
    requires Packets(a) && Packets(b)
    ensures Packets(a + b) && AfterAll(r, a + b) == AfterAll(AfterAll(r, a), b)
    decreases |b|
  {
    hide After;
    if b == [] {
      assert a + b == a;
    } else {
      var n := |b| - 1;
      var all := a + b;
      assert all[..|all| - 1] == a + b[..n] && all[|all| - 1] == b[n];
      AfterConcat(r, a, b[..n]);
    }
  }

  lemma {:induction false} PublishedConcat(r: Readings, a: seq<seq<Byte>>, b: seq<seq<Byte>>)
    requires Packets(a) && Packets(b)
    ensures Packets(a + b)
    ensures AfterAll(r, a + b) == AfterAll(AfterAll(r, a), b)
    ensures Published(r, a + b) == Published(r, a) + Published(AfterAll(r, a), b)
    decreases |b|
  {
    hide PublishedOne, AfterAll;
    AfterConcat(r, a, b);
    if b == [] {
      assert a + b == a;
    } else {
      var n := |b| - 1;
      var all := a + b;
      assert all[..|all| - 1] == a + b[..n] && all[|all| - 1] == b[n];
      AfterConcat(r, a, b[..n]);
      PublishedConcat(r, a, b[..n]);
    }
  }

  lemma NothingPushed(held: seq<Byte>, r: Readings)
    requires |held| < PACKET_SIZE
    ensures PushAll(held, []) == Progress(held, []) && AfterAll(r, []) == r && Published(r, []) == []
  {
  }

  lemma SliceNext<T>(s: seq<T>, i: nat)
    requires i < |s|
    ensures s[..i + 1] == s[..i] + [s[i]]
  {
  }

  lemma PushAllLast(held: seq<Byte>, data: seq<Byte>, front: seq<Byte>, b: Byte)
    requires |held| < PACKET_SIZE && data == front + [b]
    ensures var before := PushAll(held, front);
            var last := Push(before.held, b);
            PushAll(held, data) == Progress(last.held, before.packets + last.packets)
  {
    hide Push, Packets;
    assert data[..|data| - 1] == front;
  }

  lemma PushAllStep(held: seq<Byte>, data: seq<Byte>, i: nat)
    requires |held| < PACKET_SIZE && i < |data|
    ensures var before := PushAll(held, data[..i]);
            var last := Push(before.held, data[i]);
            PushAll(held, data[..i + 1]) == Progress(last.held, before.packets + last.packets)
  {
    hide PushAll, Push, Packets;
    SliceNext(data, i);
    PushAllLast(held, data[..i + 1], data[..i], data[i]);
  }

  // ---------------------------------------------------------------------------------
  // The byte machine against the batch reading of the whole stream
  // ---------------------------------------------------------------------------------

  /** The packets of a stream: skip to a sync byte, take eleven bytes, repeat. */
  function Batch(s: seq<Byte>): Progress
    decreases |s|
  {
    if s == [] then Progress([], [])
    else if s[0] != SYNC then Batch(s[1..])
    else if |s| < PACKET_SIZE then Progress(s, [])
    else
      var rest := Batch(s[PACKET_SIZE..]);
      Progress(rest.held, [s[..PACKET_SIZE]] + rest.packets)
  }

  ghost predicate WellHeld(held: seq<Byte>) {
    |held| < PACKET_SIZE && (held != [] ==> held[0] == SYNC)
  }

  lemma {:induction false} BatchExtends(s: seq<Byte>, b: Byte)
    ensures WellHeld(Batch(s).held)
    ensures var r := Push(Batch(s).held, b);
            Batch(s + [b]) == Progress(r.held, Batch(s).packets + r.packets)
    decreases |s|
  {
    var t := s + [b];
    if s == [] {
      assert t[1..] == [];
    } else if s[0] != SYNC {
      assert t[1..] == s[1..] + [b];
      BatchExtends(s[1..], b);
    } else if |s| < PACKET_SIZE {
      if |t| == PACKET_SIZE {
        assert t[..PACKET_SIZE] == t && t[PACKET_SIZE..] == [];
      }
    } else {
      assert t[..PACKET_SIZE] == s[..PACKET_SIZE];
      assert t[PACKET_SIZE..] == s[PACKET_SIZE..] + [b];
      BatchExtends(s[PACKET_SIZE..], b);
      assert [s[..PACKET_SIZE]] + (Batch(s[PACKET_SIZE..]).packets + Push(Batch(s).held, b).packets)
             == Batch(s).packets + Push(Batch(s).held, b).packets;
    }
  }

  /**
    Fed one byte at a time, the machine completes exactly the packets of the stream, and holds
    exactly its unfinished tail.
   */
  lemma {:induction false} MachineIsBatch(s: seq<Byte>)
    ensures PushAll([], s) == Batch(s) && WellHeld(Batch(s).held)
    decreases |s|
  {
    if s != [] {
      var n := |s| - 1;
      MachineIsBatch(s[..n]);
      BatchExtends(s[..n], s[n]);
      assert s[..n] + [s[n]] == s;
      if n == 0 {
        BatchExtends([], s[0]);
      }
    }
  }

  // ---------------------------------------------------------------------------------
  // What a message carries
  // ---------------------------------------------------------------------------------

  /** Packet i is the latest intact packet of the given kind among the first n. */
  ghost predicate LatestOfKind(ps: seq<seq<Byte>>, n: nat, kind: Byte, i: nat)
    requires Packets(ps) && n <= |ps|
  {
    i < n && IsKind(ps[i], kind) && forall j | i < j < n :: !IsKind(ps[j], kind)
  }

  predicate IsKind(p: seq<Byte>, kind: Byte)
    requires |p| == PACKET_SIZE
  {
    Intact(p) && p[1] == kind
  }

  /** The reading of a kind: that of the latest intact packet, or zeros if there is none. */
  ghost predicate IsLatest(ps: seq<seq<Byte>>, n: nat, kind: Byte, reading: seq<int>)
    requires Packets(ps) && n <= |ps|
  {
    || (exists i: nat :: LatestOfKind(ps, n, kind, i) && reading == Axes(ps[i]))
    || ((forall i | 0 <= i < n :: !IsKind(ps[i], kind)) && reading == ZEROS)
  }

  lemma LatestStep(ps: seq<seq<Byte>>, n: nat, kind: Byte, reading: seq<int>)
    requires Packets(ps) && n < |ps| && IsLatest(ps, n, kind, reading)
    ensures IsLatest(ps, n + 1, kind, if IsKind(ps[n], kind) then Axes(ps[n]) else reading)
  {
    hide Axes, Intact;
    if IsKind(ps[n], kind) {
      assert LatestOfKind(ps, n + 1, kind, n);
    } else if exists i: nat :: LatestOfKind(ps, n, kind, i) && reading == Axes(ps[i]) {
      var i: nat :| LatestOfKind(ps, n, kind, i) && reading == Axes(ps[i]);
      assert LatestOfKind(ps, n + 1, kind, i);
    }
  }

  ghost predicate AllLatest(ps: seq<seq<Byte>>, n: nat, r: Readings)
    requires Packets(ps) && n <= |ps|
  {
    && IsLatest(ps, n, 0x51, r.acceleration)
    && IsLatest(ps, n, 0x52, r.velocity)
    && IsLatest(ps, n, 0x53, r.angle)
    && IsLatest(ps, n, 0x54, r.field)
  }

  lemma {:induction false} ReadingsAreLatest(ps: seq<seq<Byte>>, n: nat)
    requires Packets(ps) && n <= |ps|
    ensures AllLatest(ps, n, AfterAll(INITIAL, ps[..n]))
  {
    hide IsLatest, Axes, Intact;
    if n == 0 {
      assert AllLatest(ps, 0, INITIAL) by { NoneYet(ps); }
    } else {
      var before := AfterAll(INITIAL, ps[..n - 1]);
      ReadingsAreLatest(ps, n - 1);
      assert ps[..n][..n - 1] == ps[..n - 1];
      LatestStep(ps, n - 1, 0x51, before.acceleration);
      LatestStep(ps, n - 1, 0x52, before.velocity);
      LatestStep(ps, n - 1, 0x53, before.angle);
      LatestStep(ps, n - 1, 0x54, before.field);
    }
  }

  lemma NoneYet(ps: seq<seq<Byte>>)
    requires Packets(ps)
    ensures forall kind: Byte :: IsLatest(ps, 0, kind, ZEROS)
  {
  }

  /** The indices of the intact angle packets among the first n. */
  function AnglePackets(ps: seq<seq<Byte>>, n: nat): seq<nat>
    requires Packets(ps) && n <= |ps|
  {
    if n == 0 then []
    else AnglePackets(ps, n - 1) + if IsKind(ps[n - 1], 0x53) then [n - 1] else []
  }

  /** Message m is published on packet i. */
  ghost predicate Carries(ps: seq<seq<Byte>>, i: nat, m: Message)
    requires Packets(ps)
  {
    && i < |ps|
    && IsKind(ps[i], 0x53) && m.angle == Axes(ps[i])
    && IsLatest(ps, i, 0x52, m.velocity)
    && IsLatest(ps, i, 0x51, m.acceleration)
    && IsLatest(ps, i, 0x54, m.field)
  }

  lemma PublishedNext(ps: seq<seq<Byte>>, i: nat)
    requires Packets(ps) && i < |ps|
    ensures Published(INITIAL, ps[..i + 1]) ==
            Published(INITIAL, ps[..i]) + PublishedOne(AfterAll(INITIAL, ps[..i]), ps[i])
  {
    hide PublishedOne, AfterAll;
    assert ps[..i + 1][..i] == ps[..i];
  }

  /**
    One message for every intact angle packet, in order: it carries that packet's angles and,
    of each other kind, the latest intact packet before it.
   */
  lemma {:induction false} MessagesCarryLatest(ps: seq<seq<Byte>>, n: nat)
    requires Packets(ps) && n <= |ps|
    ensures var ms, at := Published(INITIAL, ps[..n]), AnglePackets(ps, n);
            |ms| == |at| && forall k | 0 <= k < |ms| :: Carries(ps, at[k], ms[k])
  {
    hide IsLatest, Axes, Intact, AfterAll;
    if n > 0 {
      var i := n - 1;
      MessagesCarryLatest(ps, i);
      ReadingsAreLatest(ps, i);
      PublishedNext(ps, i);
      hide Published;
      var before := AfterAll(INITIAL, ps[..i]);
      if IsKind(ps[i], 0x53) {
        assert Carries(ps, i, Message(Axes(ps[i]), before.velocity, before.acceleration, before.field));
      }
    }
  }

  /** For every byte stream: what a fresh reader publishes is determined by the packets of the stream as a whole. */
  lemma StreamPublishes(s: seq<Byte>)
    ensures var ps := Batch(s).packets;
            && Packets(ps)
            && var ms, at := Published(INITIAL, PushAll([], s).packets), AnglePackets(ps, |ps|);
               |ms| == |at| && forall k | 0 <= k < |ms| :: Carries(ps, at[k], ms[k])
  {
    hide Carries;
    MachineIsBatch(s);
    var ps := Batch(s).packets;
    MessagesCarryLatest(ps, |ps|);
    assert ps[..|ps|] == ps;
  }

  // ---------------------------------------------------------------------------------
  // The sensor's side: what a packet built from values does
  // ---------------------------------------------------------------------------------

  predicate IsShort(v: int) {
    -32768 <= v < 32768
  }

  /** The low byte of a value in two's complement. */
  function LowByte(v: int): Byte {
    v % 256
  }

  function HighByte(v: int): Byte {
    (v / 256) % 256
  }

  /** The sum of all bytes of a packet but the last, modulo 256. */
  function Total(kind: Byte, x: int, y: int, z: int, extra: int): Byte {
    (0x55 + kind + LowByte(x) + HighByte(x) + LowByte(y) + HighByte(y) + LowByte(z) + HighByte(z)
     + LowByte(extra) + HighByte(extra)) % 256
  }

  /** A packet of a kind, with three values, one that is not read, and a last byte. */
  function Build(kind: Byte, x: int, y: int, z: int, extra: int, last: Byte): (p: seq<Byte>)
    ensures |p| == PACKET_SIZE
  {
    [0x55, kind, LowByte(x), HighByte(x), LowByte(y), HighByte(y), LowByte(z), HighByte(z),
     LowByte(extra), HighByte(extra), last]
  }

  lemma ShortReadBack(v: int)
    requires IsShort(v)
    ensures Short(LowByte(v), HighByte(v)) == v
  {
    if v < 0 {
      assert v / 256 % 256 == v / 256 + 256;
    }
    assert v == 256 * (v / 256) + v % 256;
  }

  lemma SumLast(s: seq<Byte>, b: Byte)
    ensures Sum(s + [b]) == Sum(s) + b
  {
    assert (s + [b])[..|s|] == s;
  }

  lemma SumOfTen(a: seq<Byte>)
    requires |a| == 10
    ensures Sum(a) == (a[0] as int) + a[1] + a[2] + a[3] + a[4] + a[5] + a[6] + a[7] + a[8] + a[9]
  {
    SumOfFive(a[..5]);
    assert a == a[..5] + [a[5]] + [a[6]] + [a[7]] + [a[8]] + [a[9]];
    hide Sum;
    SumLast(a[..5], a[5]);
    SumLast(a[..5] + [a[5]], a[6]);
    SumLast(a[..5] + [a[5]] + [a[6]], a[7]);
    SumLast(a[..5] + [a[5]] + [a[6]] + [a[7]], a[8]);
    SumLast(a[..5] + [a[5]] + [a[6]] + [a[7]] + [a[8]], a[9]);
  }

  lemma SumOfFive(a: seq<Byte>)
    requires |a| == 5
    ensures Sum(a) == (a[0] as int) + a[1] + a[2] + a[3] + a[4]
  {
    assert a == [] + [a[0]] + [a[1]] + [a[2]] + [a[3]] + [a[4]];
    assert Sum([]) == 0;
    hide Sum;
    SumLast([], a[0]);
    SumLast([] + [a[0]], a[1]);
    SumLast([] + [a[0]] + [a[1]], a[2]);
    SumLast([] + [a[0]] + [a[1]] + [a[2]], a[3]);
    SumLast([] + [a[0]] + [a[1]] + [a[2]] + [a[3]], a[4]);
  }

  /** A packet is intact exactly when its last byte is the sum of the others, and its values are read back. */
  lemma BuildReadBack(kind: Byte, x: int, y: int, z: int, extra: int, last: Byte)
    requires IsShort(x) && IsShort(y) && IsShort(z) && IsShort(extra)
    ensures var p := Build(kind, x, y, z, extra, last);
            && (Intact(p) <==> last == Total(kind, x, y, z, extra))
            && Axes(p) == [x, y, z]
  {
    hide LowByte, HighByte, Sum, Short;
    var p := Build(kind, x, y, z, extra, last);
    SumOfTen(p[..10]);
    ShortReadBack(x);
    ShortReadBack(y);
    ShortReadBack(z);
    ShortReadBack(extra);
  }

  /** Every packet that begins with the sync byte is built so, from exactly one list of values. */
  lemma EveryPacketIsBuilt(p: seq<Byte>)
    requires |p| == PACKET_SIZE && p[0] == 0x55
    ensures var x, y, z, extra := Short(p[2], p[3]), Short(p[4], p[5]), Short(p[6], p[7]), Short(p[8], p[9]);
            p == Build(p[1], x, y, z, extra, p[10])
  {
    BytesReadBack(p[2], p[3]);
    BytesReadBack(p[4], p[5]);
    BytesReadBack(p[6], p[7]);
    BytesReadBack(p[8], p[9]);
    hide LowByte, HighByte, Short;
  }

  lemma BytesReadBack(lo: Byte, hi: Byte)
    ensures LowByte(Short(lo, hi)) == lo && HighByte(Short(lo, hi)) == hi
  {
  }

  /** The readings after a packet of a kind with the values v. */
  function Updated(r: Readings, kind: Byte, v: seq<int>): Readings {
    if kind == 0x51 then r.(acceleration := v)
    else if kind == 0x52 then r.(velocity := v)
    else if kind == 0x53 then r.(angle := v)
    else if kind == 0x54 then r.(field := v)
    else r
  }

  /**
    A packet sent to a machine that holds no bytes: if the last byte is right, the reading of its
    kind takes exactly the values sent, and an angle packet publishes them with the latest other
    readings; with any other last byte nothing changes and nothing is published.
   */
  lemma PacketReceived(r: Readings, kind: Byte, x: int, y: int, z: int, extra: int, last: Byte)
    requires IsShort(x) && IsShort(y) && IsShort(z) && IsShort(extra)
    ensures var packets := PushAll([], Build(kind, x, y, z, extra, last)).packets;
            && PushAll([], Build(kind, x, y, z, extra, last)).held == []
            && (if last == Total(kind, x, y, z, extra) then
                  && AfterAll(r, packets) == Updated(r, kind, [x, y, z])
                  && Published(r, packets) ==
                     if kind == 0x53 then [Message([x, y, z], r.velocity, r.acceleration, r.field)] else []
                else AfterAll(r, packets) == r && Published(r, packets) == [])
  {
    var p := Build(kind, x, y, z, extra, last);
    BuildReadBack(kind, x, y, z, extra, last);
    PushPacket(p);
    hide PushAll, Intact, Axes, Build, Total, AfterAll, Published;
    OnePacket(r, p);
  }

  lemma PushPacket(p: seq<Byte>)
    requires |p| == PACKET_SIZE && p[0] == SYNC
    ensures PushAll([], p) == Progress([], [p])
  {
    MachineIsBatch(p);
    assert p[..PACKET_SIZE] == p && Batch(p[PACKET_SIZE..]) == Progress([], []);
  }

  lemma OnePacket(r: Readings, p: seq<Byte>)
    requires |p| == PACKET_SIZE
    ensures AfterAll(r, [p]) == After(r, p) && Published(r, [p]) == PublishedOne(r, p)
  {
    hide After, PublishedOne;
    assert [p][..0] == [];
  }

  /** For example: raw angle 16 on the first axis. */
  lemma AngleSixteen()
    ensures Published(INITIAL, PushAll([], [0x55, 0x53, 0x10, 0, 0, 0, 0, 0, 0, 0, 0xB8]).packets)
            == [Message([16, 0, 0], ZEROS, ZEROS, ZEROS)]
  {
    hide PushAll, Published, Intact, Axes;
    assert LowByte(16) == 16 && HighByte(16) == 0 && LowByte(0) == HighByte(0) == 0;
    assert Total(0x53, 16, 0, 0, 0) == 0xB8;
    assert Build(0x53, 16, 0, 0, 0, 0xB8) == [0x55, 0x53, 0x10, 0, 0, 0, 0, 0, 0, 0, 0xB8];
    PacketReceived(INITIAL, 0x53, 16, 0, 0, 0, 0xB8);
  }
}
