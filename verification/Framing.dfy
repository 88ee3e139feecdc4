/**
  The MS200 packet as it appears in the byte stream, and the reference reading of a stream:
  which packets does a stream contain when it is looked at as a whole?
 */
module Framing {
  import Crc
  import Octet

  type Bytes = seq<bv8>

  /** sizeof(OradarLidarFrame): header 2, speed 2, start angle 2, 12 points of 3, end angle 2, timestamp 2, CRC 1. */
  const FRAME_SIZE := 47

  predicate Header(b: Bytes) {
    |b| >= 2 && b[0] == 0x54 && b[1] == 0x2C
  }

  /** The last byte of a packet is the checksum of the 46 bytes before it. */
  predicate CrcOk(f: Bytes)
    requires |f| == FRAME_SIZE
  {
    Octet.Of(f[46]) == Crc.Checksum(Crc.Octets(f[..46]))
  }

  predicate ValidFrame(f: Bytes) {
    |f| == FRAME_SIZE && Header(f) && CrcOk(f)
  }

  /**
    The packets of a stream: scan for a header, take 47 bytes if their checksum is right,
    and otherwise skip the two header bytes only.
   */
  function Frames(b: Bytes): seq<Bytes>
    decreases |b|
  {
    if |b| < FRAME_SIZE then []
    else if !Header(b) then Frames(b[1..])
    else if CrcOk(b[..FRAME_SIZE]) then [b[..FRAME_SIZE]] + Frames(b[FRAME_SIZE..])
    else Frames(b[2..])
  }

  // ---------------------------------------------------------------------------------
  // Garbage
  // ---------------------------------------------------------------------------------

  /** No header begins before offset n. */
  ghost predicate HeaderFree(b: Bytes, n: nat)
    requires n <= |b|
  {
    forall i | 0 <= i < n :: !Header(b[i..])
  }

  /** Bytes at which no header begins do not matter. */
  lemma {:induction false} SkipGarbage(b: Bytes, n: nat)
    requires n <= |b| && HeaderFree(b, n)
    ensures Frames(b) == Frames(b[n..])
  {
    if n == 0 {
      assert b[0..] == b;
    } else {
      assert b[0..] == b;
      forall i | 0 <= i < n - 1 ensures !Header(b[1..][i..]) {
        assert b[1..][i..] == b[i + 1..];
      }
      SkipGarbage(b[1..], n - 1);
      assert b[1..][n - 1..] == b[n..];
    }
  }

  /** Garbage in front of a packet: no header pair inside it. */
  ghost predicate Garbage(g: Bytes) {
    HeaderFree(g, |g|)
  }

  /** The seam between garbage and packet cannot form a header, because a packet begins with 54, not 2C. */
  lemma GarbageBeforeHeader(g: Bytes, rest: Bytes)
    requires Garbage(g) && Header(rest)
    ensures HeaderFree(g + rest, |g|)
    ensures (g + rest)[|g|..] == rest
  {
    forall i | 0 <= i < |g| ensures !Header((g + rest)[i..]) {
      assert !Header(g[i..]);
      if i + 1 < |g| {
        assert (g + rest)[i..][0] == g[i..][0] && (g + rest)[i..][1] == g[i..][1];
      } else {
        assert (g + rest)[i..][1] == rest[0];
      }
    }
  }

  // ---------------------------------------------------------------------------------
  // Round trip
  // ---------------------------------------------------------------------------------

  datatype Piece = Piece(garbage: Bytes, frame: Bytes)

  function Assemble(pieces: seq<Piece>, tail: Bytes): Bytes {
    if pieces == [] then tail
    else pieces[0].garbage + (pieces[0].frame + Assemble(pieces[1..], tail))
  }

  function FramesOf(pieces: seq<Piece>): seq<Bytes> {
    if pieces == [] then [] else [pieces[0].frame] + FramesOf(pieces[1..])
  }

  lemma TakeFrame(f: Bytes, rest: Bytes)
    requires ValidFrame(f)
    ensures Frames(f + rest) == [f] + Frames(rest)
  {
    assert (f + rest)[..FRAME_SIZE] == f;
    assert (f + rest)[FRAME_SIZE..] == rest;
  }

  /**
    Valid packets with garbage before and between them are read back exactly, in order, when no
    packet is complete in the tail; it may be garbage, or end inside a packet.
   */
  lemma {:induction false} RoundTrip(pieces: seq<Piece>, tail: Bytes)
    requires forall p | p in pieces :: Garbage(p.garbage) && ValidFrame(p.frame)
    requires Frames(tail) == []
    ensures Frames(Assemble(pieces, tail)) == FramesOf(pieces)
  {
    if pieces != [] {
      var g, f, rest := pieces[0].garbage, pieces[0].frame, Assemble(pieces[1..], tail);
      GarbageBeforeHeader(g, f + rest);
      SkipGarbage(g + (f + rest), |g|);
      TakeFrame(f, rest);
      RoundTrip(pieces[1..], tail);
    }
  }

  // ---------------------------------------------------------------------------------
  // Resynchronisation after arbitrary noise
  // ---------------------------------------------------------------------------------

  /** Somewhere in noise that is followed by f there begins a packet-shaped window that reaches into f. */
  ghost predicate Collision(noise: Bytes, rest: Bytes) {
    exists k | 0 <= k < |noise| :: Overlaps(noise, rest, k)
  }

  ghost predicate Overlaps(noise: Bytes, rest: Bytes, k: nat) {
    k < |noise| < k + FRAME_SIZE <= |noise + rest| && ValidFrame((noise + rest)[k..k + FRAME_SIZE])
  }

  ghost predicate EndsWith<T(!new)>(s: seq<T>, end: seq<T>) {
    |end| <= |s| && s[|s| - |end|..] == end
  }

  /** How far the reading of b moves on in one step. */
  function Stride(b: Bytes): nat
    requires |b| >= FRAME_SIZE
  {
    if !Header(b) then 1 else if CrcOk(b[..FRAME_SIZE]) then FRAME_SIZE else 2
  }

  lemma FramesEndWithRest(b: Bytes)
    requires |b| >= FRAME_SIZE
    ensures EndsWith(Frames(b), Frames(b[Stride(b)..]))
  {
  }

  lemma StrideStaysInNoise(noise: Bytes, f: Bytes, rest: Bytes)
    requires noise != [] && ValidFrame(f)
    requires !Overlaps(noise, f + rest, 0)
    ensures Stride(noise + (f + rest)) <= |noise|
  {
    var all := noise + (f + rest);
    if |noise| == 1 {
      assert all[1] == f[0];
    }
    assert all[0..FRAME_SIZE] == all[..FRAME_SIZE];
  }

  lemma CollisionFreeSuffix(noise: Bytes, rest: Bytes, n: nat)
    requires n <= |noise|
    requires !Collision(noise, rest)
    ensures !Collision(noise[n..], rest)
  {
    forall k | 0 <= k < |noise[n..]|
      ensures !Overlaps(noise[n..], rest, k)
    {
      assert !Overlaps(noise, rest, n + k);
      if n + k + FRAME_SIZE <= |noise + rest| {
        assert (noise[n..] + rest)[k..k + FRAME_SIZE] == (noise + rest)[n + k..n + k + FRAME_SIZE];
      }
    }
  }

  /**
    After any noise whatsoever (headers and broken packets included) a valid packet is still
    found, and reading continues right behind it, unless a window that begins in the noise
    and runs into the packet happens to carry a correct checksum itself.
   */
  lemma {:induction false} Resync(noise: Bytes, f: Bytes, rest: Bytes)
    requires ValidFrame(f)
    requires !Collision(noise, f + rest)
    ensures EndsWith(Frames(noise + (f + rest)), [f] + Frames(rest))
    decreases |noise|
  {
    var all := noise + (f + rest);
    if noise == [] {
      assert all == f + rest;
      TakeFrame(f, rest);
    } else {
      assert !Overlaps(noise, f + rest, 0);
      StrideStaysInNoise(noise, f, rest);
      var n := Stride(all);
      FramesEndWithRest(all);
      assert all[n..] == noise[n..] + (f + rest);
      CollisionFreeSuffix(noise, f + rest, n);
      Resync(noise[n..], f, rest);
      EndsWithTransitive(Frames(all), Frames(all[n..]), [f] + Frames(rest));
    }
  }

  lemma EndsWithTransitive<T(!new)>(a: seq<T>, b: seq<T>, c: seq<T>)
    requires EndsWith(a, b) && EndsWith(b, c)
    ensures EndsWith(a, c)
  {
  }

  // ---------------------------------------------------------------------------------
  // Corruption
  // ---------------------------------------------------------------------------------

  /** A packet is valid exactly when the checksum over all of its 47 bytes is zero. */
  lemma ValidIffChecksumZero(f: Bytes)
    requires |f| == FRAME_SIZE
    ensures CrcOk(f) <==> Crc.Checksum(Crc.Octets(f)) == Octet.ZERO
  {
    assert Crc.Octets(f) == Crc.Octets(f[..46]) + [Octet.Of(f[46])];
    Crc.ClosedByChecksum(Crc.Octets(f[..46]), Octet.Of(f[46]));
  }

  /** A valid packet hit by a burst of at most eight bits, wherever it strikes, is not accepted. */
  lemma CorruptedFrameRejected(f: Bytes, hit: Bytes, i: nat, k: nat)
    requires ValidFrame(f) && |hit| == FRAME_SIZE && i < FRAME_SIZE
    requires Crc.Burst(Crc.Zip(Octet.Xor, Crc.Octets(f), Crc.Octets(hit)), i, k)
    ensures CrcOk(hit) <==> hit == f
  {
    ValidIffChecksumZero(f);
    ValidIffChecksumZero(hit);
    Crc.BurstDetected(Crc.Octets(f), Crc.Octets(hit), i, k);
    OctetsInjective(f, hit);
  }

  lemma OctetsInjective(a: Bytes, b: Bytes)
    requires |a| == |b|
    ensures Crc.Octets(a) == Crc.Octets(b) <==> a == b
  {
    if Crc.Octets(a) == Crc.Octets(b) {
      forall i | 0 <= i < |a| ensures a[i] == b[i] {
        assert Crc.Octets(a)[i] == Octet.Of(a[i]) && Crc.Octets(b)[i] == Octet.Of(b[i]);
        Octet.OfInjective(a[i], b[i]);
      }
    }
  }
}
