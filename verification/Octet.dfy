/**
  A byte taken apart into its bits.  The driver computes on machine bytes; the algebra of
  its CRC is done here, where exclusive-or is inequality of booleans.
 */
module Octet {
  import CrcTable

  datatype Octet = Octet(b7: bool, b6: bool, b5: bool, b4: bool, b3: bool, b2: bool, b1: bool, b0: bool)

  const ZERO := Octet(false, false, false, false, false, false, false, false)

  function Of(b: bv8): Octet {
    Octet((b >> 7) & 1 == 1, (b >> 6) & 1 == 1, (b >> 5) & 1 == 1, (b >> 4) & 1 == 1,
          (b >> 3) & 1 == 1, (b >> 2) & 1 == 1, (b >> 1) & 1 == 1, b & 1 == 1)
  }

  function Xor(x: Octet, y: Octet): Octet {
    Octet(x.b7 != y.b7, x.b6 != y.b6, x.b5 != y.b5, x.b4 != y.b4,
          x.b3 != y.b3, x.b2 != y.b2, x.b1 != y.b1, x.b0 != y.b0)
  }

  /** One step of the division: bring down a bit, and subtract the generator when the leading bit is set. */
  function BringDown(r: Octet, bit: bool): Octet {
    Octet(r.b6, r.b5 != r.b7, r.b4, r.b3, r.b2 != r.b7, r.b1 != r.b7, r.b0, r.b7 != bit)
  }

  function Shift(r: Octet): Octet {
    BringDown(r, false)
  }

  function Shift4(r: Octet): Octet {
    Shift(Shift(Shift(Shift(r))))
  }

  function Shift8(r: Octet): Octet {
    Shift4(Shift4(r))
  }

  lemma OfXor(a: bv8, b: bv8)
    ensures Of(a ^ b) == Xor(Of(a), Of(b))
  {
  }

  lemma OfInjective(a: bv8, b: bv8)
    ensures Of(a) == Of(b) <==> a == b
  {
  }

  lemma OfShiftBit(r: bv8)
    ensures Of(CrcTable.ShiftBit(r)) == Shift(Of(r))
  {
  }

  /** A table look-up divides by eight more bits. */
  lemma TableEntryIsShift8(r: bv8)
    ensures Of(CrcTable.TableEntry(r)) == Shift8(Of(r))
  {
    CrcTable.TableEntryIsShift(r);
    var r1 := CrcTable.ShiftBit(r);
    var r2 := CrcTable.ShiftBit(r1);
    var r3 := CrcTable.ShiftBit(r2);
    var r4 := CrcTable.ShiftBit(r3);
    var r5 := CrcTable.ShiftBit(r4);
    var r6 := CrcTable.ShiftBit(r5);
    var r7 := CrcTable.ShiftBit(r6);
    OfShiftBit(r);
    OfShiftBit(r1);
    OfShiftBit(r2);
    OfShiftBit(r3);
    OfShiftBit(r4);
    OfShiftBit(r5);
    OfShiftBit(r6);
    OfShiftBit(r7);
  }

  lemma XorExchange(a: Octet, b: Octet, c: Octet, d: Octet)
    ensures Xor(Xor(a, b), Xor(c, d)) == Xor(Xor(a, c), Xor(b, d))
  {
  }

  lemma ShiftLinear(x: Octet, y: Octet)
    ensures Shift(Xor(x, y)) == Xor(Shift(x), Shift(y))
  {
  }

  lemma Shift4Linear(x: Octet, y: Octet)
    ensures Shift4(Xor(x, y)) == Xor(Shift4(x), Shift4(y))
  {
    var x1, y1 := Shift(x), Shift(y);
    var x2, y2 := Shift(x1), Shift(y1);
    var x3, y3 := Shift(x2), Shift(y2);
    ShiftLinear(x, y);
    ShiftLinear(x1, y1);
    ShiftLinear(x2, y2);
    ShiftLinear(x3, y3);
  }

  lemma Shift8Linear(x: Octet, y: Octet)
    ensures Shift8(Xor(x, y)) == Xor(Shift8(x), Shift8(y))
  {
    Shift4Linear(x, y);
    Shift4Linear(Shift4(x), Shift4(y));
  }

  /** A bit brought down does not disturb the bits brought down before it. */
  lemma BringDownLinear(r: Octet, fed: Octet, bit: bool)
    requires !fed.b7
    ensures BringDown(Xor(r, fed), bit) == Xor(Shift(r), BringDown(fed, bit))
  {
  }

  /** Four bits brought down, on top of what was brought down before. */
  lemma FeedFour(r: Octet, fed: Octet, x3: bool, x2: bool, x1: bool, x0: bool)
    requires LeadingClear(fed, 4)
    ensures BringDown(BringDown(BringDown(BringDown(Xor(r, fed), x3), x2), x1), x0)
            == Xor(Shift4(r), Octet(fed.b3, fed.b2, fed.b1, fed.b0, x3, x2, x1, x0))
  {
    var s1 := Shift(r);
    var s2 := Shift(s1);
    var s3 := Shift(s2);
    var f1 := BringDown(fed, x3);
    var f2 := BringDown(f1, x2);
    var f3 := BringDown(f2, x1);
    BringDownLinear(r, fed, x3);
    BringDownLinear(s1, f1, x2);
    BringDownLinear(s2, f2, x1);
    BringDownLinear(s3, f3, x0);
    assert BringDown(f3, x0) == Octet(fed.b3, fed.b2, fed.b1, fed.b0, x3, x2, x1, x0);
  }

  lemma XorZero(x: Octet, y: Octet)
    ensures Xor(x, y) == ZERO <==> x == y
  {
  }

  lemma Shift8Injective(x: Octet)
    ensures Shift8(x) == ZERO <==> x == ZERO
  {
  }

  /** The leading k bits of x are clear. */
  predicate LeadingClear(x: Octet, k: nat) {
    && (k > 0 ==> !x.b7) && (k > 1 ==> !x.b6) && (k > 2 ==> !x.b5) && (k > 3 ==> !x.b4)
    && (k > 4 ==> !x.b3) && (k > 5 ==> !x.b2) && (k > 6 ==> !x.b1) && (k > 7 ==> !x.b0)
  }

  /** Beyond its leading k bits, x is clear. */
  predicate TrailingClear(x: Octet, k: nat) {
    && (k < 8 ==> !x.b0) && (k < 7 ==> !x.b1) && (k < 6 ==> !x.b2) && (k < 5 ==> !x.b3)
    && (k < 4 ==> !x.b4) && (k < 3 ==> !x.b5) && (k < 2 ==> !x.b6) && (k < 1 ==> !x.b7)
  }

  /** An eight-bit pattern across a byte boundary is never a multiple of the generator. */
  lemma BurstLeavesRemainder(hi: Octet, lo: Octet, k: nat)
    requires k < 8 && LeadingClear(hi, k) && TrailingClear(lo, k)
    requires Shift8(hi) == lo
    ensures hi == ZERO
  {
  }
}
