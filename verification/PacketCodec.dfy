/**
  The packet layout seen from the other side: what the lidar has to send so that the driver
  reads back given values.  The encoder is not part of the repository; it is the inverse
  against which the decoder is checked.
 */
module PacketCodec {
  import opened Framing
  import opened Decode
  import Crc
  import opened Octet

  datatype Reading = Reading(distance: nat, confidence: nat)
  datatype Packet = Packet(speed: nat, startAngle: nat, readings: seq<Reading>, endAngle: nat, timestamp: nat)

  /** The values fit their fields. */
  predicate Encodable(p: Packet) {
    && p.speed < 0x1_0000 && p.startAngle < 0x1_0000 && p.endAngle < 0x1_0000 && p.timestamp < 0x1_0000
    && |p.readings| == POINTS_PER_PACK
    && forall i | 0 <= i < POINTS_PER_PACK :: p.readings[i].distance < 0x1_0000 && p.readings[i].confidence < 0x100
  }

  function ToByte(v: nat): (b: bv8)
    requires v < 0x100
    ensures b as int == v
  {
    assert v % 0x100 == v;
    v as bv8
  }

  function Low(v: nat): bv8 {
    ToByte(v % 256)
  }

  function High(v: nat): bv8
    requires v < 0x1_0000
  {
    ToByte(v / 256)
  }

  /** The byte whose bits are x. */
  function ByteOf(x: Octet): bv8 {
    (if x.b7 then 0x80 else 0) | (if x.b6 then 0x40 else 0) | (if x.b5 then 0x20 else 0) | (if x.b4 then 0x10 else 0)
    | (if x.b3 then 0x08 else 0) | (if x.b2 then 0x04 else 0) | (if x.b1 then 0x02 else 0) | (if x.b0 then 0x01 else 0)
  }

  lemma ByteOfIsInverse(x: Octet)
    ensures Of(ByteOf(x)) == x
  {
  }

  function BodyByte(p: Packet, k: nat): bv8
    requires Encodable(p) && k < 46
  {
    if k == 0 then 0x54
    else if k == 1 then 0x2C
    else if k < 4 then (if k == 2 then Low(p.speed) else High(p.speed))
    else if k < 6 then (if k == 4 then Low(p.startAngle) else High(p.startAngle))
    else if k < 42 then ReadingByte(p.readings[(k - 6) / 3], (k - 6) % 3)
    else if k < 44 then (if k == 42 then Low(p.endAngle) else High(p.endAngle))
    else if k == 44 then Low(p.timestamp) else High(p.timestamp)
  }

  function ReadingByte(r: Reading, k: nat): bv8
    requires r.distance < 0x1_0000 && r.confidence < 0x100
  {
    if k == 0 then Low(r.distance) else if k == 1 then High(r.distance) else Low(r.confidence)
  }

  function Body(p: Packet): (b: Bytes)
    requires Encodable(p)
    ensures |b| == 46 && forall k | 0 <= k < 46 :: b[k] == BodyByte(p, k)
  {
    seq(46, k requires 0 <= k < 46 => BodyByte(p, k))
  }

  function Encode(p: Packet): (f: Bytes)
    requires Encodable(p)
    ensures |f| == FRAME_SIZE
  {
    Body(p) + [ByteOf(Crc.Checksum(Crc.Octets(Body(p))))]
  }

  lemma EncodeByte(p: Packet, k: nat)
    requires Encodable(p) && k < 46
    ensures Encode(p)[k] == BodyByte(p, k)
  {
  }

  lemma EncodeIsValid(p: Packet)
    requires Encodable(p)
    ensures ValidFrame(Encode(p))
  {
    assert Encode(p)[..46] == Body(p);
    EncodeByte(p, 0);
    EncodeByte(p, 1);
    ByteOfIsInverse(Crc.Checksum(Crc.Octets(Body(p))));
  }

  /** The two bytes of a field, wherever they stand. */
  lemma FieldReadBack(f: Bytes, k: nat, v: nat)
    requires v < 0x1_0000 && k + 1 < |f| && f[k] == Low(v) && f[k + 1] == High(v)
    ensures U16(f, k) == v
  {
  }

  lemma HeadersReadBack(p: Packet)
    requires Encodable(p)
    ensures Speed(Encode(p)) == p.speed && StartAngle(Encode(p)) == p.startAngle && EndAngle(Encode(p)) == p.endAngle
  {
    hide Encode, Low, High, U16;
    EncodeByte(p, 2);
    EncodeByte(p, 3);
    FieldReadBack(Encode(p), 2, p.speed);
    EncodeByte(p, 4);
    EncodeByte(p, 5);
    FieldReadBack(Encode(p), 4, p.startAngle);
    EncodeByte(p, 42);
    EncodeByte(p, 43);
    FieldReadBack(Encode(p), 42, p.endAngle);
  }

  lemma ReadingByteAt(p: Packet, i: nat, k: nat)
    requires Encodable(p) && i < POINTS_PER_PACK && k < 3
    ensures BodyByte(p, 6 + 3 * i + k) == ReadingByte(p.readings[i], k)
  {
    hide ReadingByte, Low, High;
    assert (6 + 3 * i + k - 6) / 3 == i && (6 + 3 * i + k - 6) % 3 == k;
  }

  lemma ReadingReadBack(p: Packet, i: nat)
    requires Encodable(p) && i < POINTS_PER_PACK
    ensures U16(Encode(p), 6 + 3 * i) == p.readings[i].distance
    ensures Encode(p)[8 + 3 * i] as int == p.readings[i].confidence
  {
    hide Encode, BodyByte, U16;
    EncodeByte(p, 6 + 3 * i);
    EncodeByte(p, 7 + 3 * i);
    EncodeByte(p, 8 + 3 * i);
    ReadingByteAt(p, i, 0);
    ReadingByteAt(p, i, 1);
    ReadingByteAt(p, i, 2);
    FieldReadBack(Encode(p), 6 + 3 * i, p.readings[i].distance);
  }

  /** An encoded packet is accepted, and every field is read back. */
  lemma DecodeEncode(p: Packet)
    requires Encodable(p)
    ensures ValidFrame(Encode(p))
    ensures Speed(Encode(p)) == p.speed && StartAngle(Encode(p)) == p.startAngle && EndAngle(Encode(p)) == p.endAngle
    ensures forall i | 0 <= i < POINTS_PER_PACK ::
              PointsOf(Encode(p))[i] ==
              Point(p.readings[i].distance, p.readings[i].confidence, AngleAt(p.startAngle, p.endAngle, i))
  {
    hide Encode, ValidFrame, Speed, StartAngle, EndAngle, U16, AngleAt;
    EncodeIsValid(p);
    HeadersReadBack(p);
    forall i | 0 <= i < POINTS_PER_PACK
      ensures PointsOf(Encode(p))[i] ==
              Point(p.readings[i].distance, p.readings[i].confidence, AngleAt(p.startAngle, p.endAngle, i))
    {
      ReadingReadBack(p, i);
    }
  }
}
