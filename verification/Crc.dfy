/**
  The CRC-8 that closes every MS200 packet.

  The driver folds its table over the first 46 bytes of a packet.  This module shows what
  the loop computes (the remainder of a polynomial division) and which transmission errors
  it is certain to notice.
 */
module Crc {
  import CrcTable
  import opened Octet

  /** Long division of polynomials over GF(2), one bit at a time. */
  function Divide(r: Octet, bits: seq<bool>): Octet
    decreases |bits|
  {
    if bits == [] then r else Divide(BringDown(r, bits[0]), bits[1..])
  }

  function Bits(x: Octet): seq<bool> {
    [x.b7, x.b6, x.b5, x.b4, x.b3, x.b2, x.b1, x.b0]
  }

  /** The bits of a message, most significant bit of each byte first. */
  function BitsOf(bytes: seq<Octet>): seq<bool> {
    if |bytes| == 0 then [] else BitsOf(bytes[..|bytes| - 1]) + Bits(bytes[|bytes| - 1])
  }

  /** The remainder of message(x) * x^8 divided by the generator. */
  function Remainder(bytes: seq<Octet>): Octet {
    Divide(ZERO, BitsOf(bytes) + Bits(ZERO))
  }

  /** The same remainder, computed a byte at a time. */
  function Checksum(bytes: seq<Octet>): Octet {
    Fold(Round, ZERO, bytes)
  }

  function Round(r: Octet, x: Octet): Octet {
    Shift8(Xor(r, x))
  }

  function Fold<T>(next: (T, T) -> T, r: T, xs: seq<T>): T {
    if |xs| == 0 then r else next(Fold(next, r, xs[..|xs| - 1]), xs[|xs| - 1])
  }

  function Octets(bytes: seq<bv8>): (r: seq<Octet>)
    ensures |r| == |bytes|
    ensures forall i | 0 <= i < |bytes| :: r[i] == Of(bytes[i])
  {
    seq(|bytes|, i requires 0 <= i < |bytes| => Of(bytes[i]))
  }

  // ---------------------------------------------------------------------------------
  // The table loop is polynomial division
  // ---------------------------------------------------------------------------------

  lemma {:induction false} DivideConcat(r: Octet, xs: seq<bool>, ys: seq<bool>)
    ensures Divide(r, xs + ys) == Divide(Divide(r, xs), ys)
    decreases |xs|
  {
    if xs == [] {
      assert xs + ys == ys;
    } else {
      assert (xs + ys)[1..] == xs[1..] + ys;
      DivideConcat(BringDown(r, xs[0]), xs[1..], ys);
    }
  }

  lemma DivideStep(r: Octet, bit: bool, rest: seq<bool>)
    ensures Divide(r, [bit] + rest) == Divide(BringDown(r, bit), rest)
  {
    assert ([bit] + rest)[1..] == rest;
  }

  lemma DivideFour(r: Octet, fed: Octet, x3: bool, x2: bool, x1: bool, x0: bool)
    requires LeadingClear(fed, 4)
    ensures Divide(Xor(r, fed), [x3, x2, x1, x0])
            == Xor(Shift4(r), Octet(fed.b3, fed.b2, fed.b1, fed.b0, x3, x2, x1, x0))
  {
    var q := Xor(r, fed);
    DivideStep(q, x3, [x2, x1, x0]);
    DivideStep(BringDown(q, x3), x2, [x1, x0]);
    DivideStep(BringDown(BringDown(q, x3), x2), x1, [x0]);
    DivideStep(BringDown(BringDown(BringDown(q, x3), x2), x1), x0, []);
    assert [x3] + [x2, x1, x0] == [x3, x2, x1, x0] && [x2] + [x1, x0] == [x2, x1, x0];
    assert [x1] + [x0] == [x1, x0] && [x0] + [] == [x0];
    FeedFour(r, fed, x3, x2, x1, x0);
  }

  function HighBits(x: Octet): seq<bool> {
    [x.b7, x.b6, x.b5, x.b4]
  }

  function LowBits(x: Octet): seq<bool> {
    [x.b3, x.b2, x.b1, x.b0]
  }

  lemma DivideHigh(r: Octet, x: Octet)
    ensures Divide(r, HighBits(x)) == Xor(Shift4(r), Octet(false, false, false, false, x.b7, x.b6, x.b5, x.b4))
  {
    assert Xor(r, ZERO) == r;
    DivideFour(r, ZERO, x.b7, x.b6, x.b5, x.b4);
  }

  lemma DivideLow(r: Octet, x: Octet)
    ensures Divide(Xor(Shift4(r), Octet(false, false, false, false, x.b7, x.b6, x.b5, x.b4)), LowBits(x))
            == Xor(Shift8(r), x)
  {
    DivideFour(Shift4(r), Octet(false, false, false, false, x.b7, x.b6, x.b5, x.b4), x.b3, x.b2, x.b1, x.b0);
  }

  lemma DivideHalves(r: Octet, x: Octet)
    ensures Divide(r, Bits(x)) == Divide(Divide(r, HighBits(x)), LowBits(x))
  {
    assert Bits(x) == HighBits(x) + LowBits(x);
    DivideConcat(r, HighBits(x), LowBits(x));
  }

  /** Eight steps of the division shift the register by a byte and add the byte brought down. */
  lemma DivideByte(r: Octet, x: Octet)
    ensures Divide(r, Bits(x)) == Xor(Shift8(r), x)
  {
    DivideHalves(r, x);
    DivideHigh(r, x);
    DivideLow(r, x);
  }

  lemma ChecksumSnoc(front: seq<Octet>, x: Octet)
    ensures Checksum(front + [x]) == Round(Checksum(front), x)
  {
    assert (front + [x])[..|front|] == front;
  }

  lemma {:induction false} ChecksumIsShiftedDivision(bytes: seq<Octet>)
    ensures Checksum(bytes) == Shift8(Divide(ZERO, BitsOf(bytes)))
  {
    if |bytes| == 0 {
    } else {
      var front, x := bytes[..|bytes| - 1], bytes[|bytes| - 1];
      ChecksumIsShiftedDivision(front);
      DivideConcat(ZERO, BitsOf(front), Bits(x));
      DivideByte(Divide(ZERO, BitsOf(front)), x);
    }
  }

  lemma ChecksumIsRemainder(bytes: seq<Octet>)
    ensures Checksum(bytes) == Remainder(bytes)
  {
    ChecksumIsShiftedDivision(bytes);
    DivideConcat(ZERO, BitsOf(bytes), Bits(ZERO));
    DivideByte(Divide(ZERO, BitsOf(bytes)), ZERO);
  }

  /** One round of the table loop. */
  method LookUp(crc: bv8, b: bv8) returns (next: bv8)
    ensures Of(next) == Round(Of(crc), Of(b))
  {
    OfXor(crc, b);
    TableEntryIsShift8(crc ^ b);
    next := CrcTable.TableEntry(crc ^ b);
  }

  /** The loop of the driver over the first n bytes of its buffer. */
  method TableLoop(buffer: seq<bv8>, n: nat) returns (crc: bv8)
    requires n <= |buffer|
    ensures Of(crc) == Remainder(Octets(buffer[..n])) == Checksum(Octets(buffer[..n]))
  {
    crc := 0;
    var i := 0;
    while i < n
      invariant 0 <= i <= n
      invariant Of(crc) == Checksum(Octets(buffer[..i]))
    {
      ChecksumSnoc(Octets(buffer[..i]), Of(buffer[i]));
      assert Octets(buffer[..i + 1]) == Octets(buffer[..i]) + [Of(buffer[i])];
      crc := LookUp(crc, buffer[i]);
      i := i + 1;
    }
    ChecksumIsRemainder(Octets(buffer[..n]));
  }

  // ---------------------------------------------------------------------------------
  // Linearity and error detection
  // ---------------------------------------------------------------------------------

  function Zip<T>(plus: (T, T) -> T, a: seq<T>, b: seq<T>): (d: seq<T>)
    requires |a| == |b|
    ensures |d| == |a|
    ensures forall i | 0 <= i < |a| :: d[i] == plus(a[i], b[i])
  {
    seq(|a|, i requires 0 <= i < |a| => plus(a[i], b[i]))
  }

  lemma {:induction false} FoldLinear<T(!new)>(next: (T, T) -> T, plus: (T, T) -> T, p: T, q: T, a: seq<T>, b: seq<T>)
    requires |a| == |b|
    requires forall r, s, x, y :: next(plus(r, s), plus(x, y)) == plus(next(r, x), next(s, y))
    ensures Fold(next, plus(p, q), Zip(plus, a, b)) == plus(Fold(next, p, a), Fold(next, q, b))
  {
    if |a| == 0 {
    } else {
      var n := |a| - 1;
      FoldLinear(next, plus, p, q, a[..n], b[..n]);
      assert Zip(plus, a, b)[..n] == Zip(plus, a[..n], b[..n]);
    }
  }

  lemma RoundLinear(p: Octet, q: Octet, x: Octet, y: Octet)
    ensures Round(Xor(p, q), Xor(x, y)) == Xor(Round(p, x), Round(q, y))
  {
    assert Xor(Xor(p, q), Xor(x, y)) == Xor(Xor(p, x), Xor(q, y)) by { XorExchange(p, q, x, y); }
    Shift8Linear(Xor(p, x), Xor(q, y));
  }

  /** The checksum is linear: the checksum of a difference is the difference of the checksums. */
  lemma ChecksumLinear(a: seq<Octet>, b: seq<Octet>)
    requires |a| == |b|
    ensures Checksum(Zip(Xor, a, b)) == Xor(Checksum(a), Checksum(b))
  {
    forall r, s, x, y
      ensures Round(Xor(r, s), Xor(x, y)) == Xor(Round(r, x), Round(s, y))
    {
      RoundLinear(r, s, x, y);
    }
    FoldLinear(Round, Xor, ZERO, ZERO, a, b);
    assert Xor(ZERO, ZERO) == ZERO;
  }

  lemma {:induction false} FoldOfZeros<T(!new)>(next: (T, T) -> T, zero: T, d: seq<T>)
    requires next(zero, zero) == zero
    requires forall j | 0 <= j < |d| :: d[j] == zero
    ensures Fold(next, zero, d) == zero
  {
    if |d| != 0 {
      FoldOfZeros(next, zero, d[..|d| - 1]);
    }
  }

  /** Once the register is off, error-free bytes do not bring it back. */
  lemma {:induction false} FoldPersists<T(!new)>(next: (T, T) -> T, zero: T, d: seq<T>, n: nat)
    requires n <= |d|
    requires forall r :: next(r, zero) == zero <==> r == zero
    requires forall j | n <= j < |d| :: d[j] == zero
    ensures Fold(next, zero, d) == zero <==> Fold(next, zero, d[..n]) == zero
  {
    if n == |d| {
      assert d[..n] == d;
    } else {
      var front := d[..|d| - 1];
      assert front[..n] == d[..n];
      FoldPersists(next, zero, front, n);
    }
  }

  lemma FoldOfBurst<T(!new)>(next: (T, T) -> T, zero: T, d: seq<T>, i: nat)
    requires i < |d|
    requires forall r :: next(r, zero) == zero <==> r == zero
    requires forall j | 0 <= j < |d| && j != i && j != i + 1 :: d[j] == zero
    ensures Fold(next, zero, d) == zero <==>
            next(next(zero, d[i]), if i + 1 < |d| then d[i + 1] else zero) == zero
  {
    FoldOfZeros(next, zero, d[..i]);
    assert d[..i + 1][..i] == d[..i];
    if i + 1 < |d| {
      assert d[..i + 2][..i + 1] == d[..i + 1];
      FoldPersists(next, zero, d, i + 2);
    } else {
      assert d[..i + 1] == d;
    }
  }

  /** The error pattern d lies inside the eight consecutive bits that start at bit k of byte i. */
  ghost predicate Burst(d: seq<Octet>, i: nat, k: nat)
    requires i < |d|
  {
    && k < 8
    && (forall j | 0 <= j < |d| && j != i && j != i + 1 :: d[j] == ZERO)
    && LeadingClear(d[i], k)
    && (i + 1 < |d| ==> TrailingClear(d[i + 1], k))
  }

  lemma RoundFixpoint()
    ensures forall r :: Round(r, ZERO) == ZERO <==> r == ZERO
  {
    forall r
      ensures Round(r, ZERO) == ZERO <==> r == ZERO
    {
      assert Xor(r, ZERO) == r;
      Shift8Injective(r);
    }
  }

  lemma ZipZero(a: seq<Octet>, b: seq<Octet>)
    requires |a| == |b|
    ensures a == b <==> forall j | 0 <= j < |a| :: Zip(Xor, a, b)[j] == ZERO
  {
    forall j | 0 <= j < |a| ensures a[j] == b[j] <==> Zip(Xor, a, b)[j] == ZERO {
      XorZero(a[j], b[j]);
    }
  }

  lemma BurstChangesRegister(hi: Octet, lo: Octet, k: nat)
    requires k < 8 && LeadingClear(hi, k) && TrailingClear(lo, k)
    ensures Round(Round(ZERO, hi), lo) == ZERO <==> hi == lo == ZERO
  {
    assert Xor(ZERO, hi) == hi;
    XorZero(Shift8(hi), lo);
    Shift8Injective(hi);
    Shift8Injective(Xor(Shift8(hi), lo));
    if Shift8(hi) == lo {
      BurstLeavesRemainder(hi, lo, k);
    }
  }

  /**
    Every error confined to one byte, or to any eight consecutive bits across a byte
    boundary, changes the checksum.
   */
  lemma BurstDetected(a: seq<Octet>, b: seq<Octet>, i: nat, k: nat)
    requires |a| == |b| && i < |a|
    requires Burst(Zip(Xor, a, b), i, k)
    ensures Checksum(a) == Checksum(b) <==> a == b
  {
    var d := Zip(Xor, a, b);
    ChecksumLinear(a, b);
    XorZero(Checksum(a), Checksum(b));
    RoundFixpoint();
    FoldOfBurst(Round, ZERO, d, i);
    BurstChangesRegister(d[i], if i + 1 < |d| then d[i + 1] else ZERO, k);
    ZipZero(a, b);
  }

  /** A message followed by its own checksum, and by no other byte, has checksum zero. */
  lemma ClosedByChecksum(message: seq<Octet>, crc: Octet)
    ensures crc == Checksum(message) <==> Checksum(message + [crc]) == ZERO
  {
    ChecksumSnoc(message, crc);
    XorZero(Checksum(message), crc);
    Shift8Injective(Xor(Checksum(message), crc));
  }
}
