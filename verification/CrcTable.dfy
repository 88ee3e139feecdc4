/**
  The driver's CRC look-up table, and the eight steps of polynomial division that each of
  its 256 entries stands for.  The generator is x^8 + x^6 + x^3 + x^2 + 1, which is 0x4D
  without its leading term.
 */
module CrcTable {

  /** `CrcTable`, looked up by high and then by low half-byte. */
  function TableEntry(i: bv8): bv8 {
    match i >> 4
    case 0x0 => Row0(i & 0x0F)
    case 0x1 => Row1(i & 0x0F)
    case 0x2 => Row2(i & 0x0F)
    case 0x3 => Row3(i & 0x0F)
    case 0x4 => Row4(i & 0x0F)
    case 0x5 => Row5(i & 0x0F)
    case 0x6 => Row6(i & 0x0F)
    case 0x7 => Row7(i & 0x0F)
    case 0x8 => Row8(i & 0x0F)
    case 0x9 => Row9(i & 0x0F)
    case 0xA => RowA(i & 0x0F)
    case 0xB => RowB(i & 0x0F)
    case 0xC => RowC(i & 0x0F)
    case 0xD => RowD(i & 0x0F)
    case 0xE => RowE(i & 0x0F)
    case _ => RowF(i & 0x0F)
  }

  function Row0(l: bv8): bv8 {
    match l
    case 0x0 => 0x00 case 0x1 => 0x4D case 0x2 => 0x9A case 0x3 => 0xD7
    case 0x4 => 0x79 case 0x5 => 0x34 case 0x6 => 0xE3 case 0x7 => 0xAE
    case 0x8 => 0xF2 case 0x9 => 0xBF case 0xA => 0x68 case 0xB => 0x25
    case 0xC => 0x8B case 0xD => 0xC6 case 0xE => 0x11 case _ => 0x5C
  }

  function Row1(l: bv8): bv8 {
    match l
    case 0x0 => 0xA9 case 0x1 => 0xE4 case 0x2 => 0x33 case 0x3 => 0x7E
    case 0x4 => 0xD0 case 0x5 => 0x9D case 0x6 => 0x4A case 0x7 => 0x07
    case 0x8 => 0x5B case 0x9 => 0x16 case 0xA => 0xC1 case 0xB => 0x8C
    case 0xC => 0x22 case 0xD => 0x6F case 0xE => 0xB8 case _ => 0xF5
  }

  function Row2(l: bv8): bv8 {
    match l
    case 0x0 => 0x1F case 0x1 => 0x52 case 0x2 => 0x85 case 0x3 => 0xC8
    case 0x4 => 0x66 case 0x5 => 0x2B case 0x6 => 0xFC case 0x7 => 0xB1
    case 0x8 => 0xED case 0x9 => 0xA0 case 0xA => 0x77 case 0xB => 0x3A
    case 0xC => 0x94 case 0xD => 0xD9 case 0xE => 0x0E case _ => 0x43
  }

  function Row3(l: bv8): bv8 {
    match l
    case 0x0 => 0xB6 case 0x1 => 0xFB case 0x2 => 0x2C case 0x3 => 0x61
    case 0x4 => 0xCF case 0x5 => 0x82 case 0x6 => 0x55 case 0x7 => 0x18
    case 0x8 => 0x44 case 0x9 => 0x09 case 0xA => 0xDE case 0xB => 0x93
    case 0xC => 0x3D case 0xD => 0x70 case 0xE => 0xA7 case _ => 0xEA
  }

  function Row4(l: bv8): bv8 {
    match l
    case 0x0 => 0x3E case 0x1 => 0x73 case 0x2 => 0xA4 case 0x3 => 0xE9
    case 0x4 => 0x47 case 0x5 => 0x0A case 0x6 => 0xDD case 0x7 => 0x90
    case 0x8 => 0xCC case 0x9 => 0x81 case 0xA => 0x56 case 0xB => 0x1B
    case 0xC => 0xB5 case 0xD => 0xF8 case 0xE => 0x2F case _ => 0x62
  }

  function Row5(l: bv8): bv8 {
    match l
    case 0x0 => 0x97 case 0x1 => 0xDA case 0x2 => 0x0D case 0x3 => 0x40
    case 0x4 => 0xEE case 0x5 => 0xA3 case 0x6 => 0x74 case 0x7 => 0x39
    case 0x8 => 0x65 case 0x9 => 0x28 case 0xA => 0xFF case 0xB => 0xB2
    case 0xC => 0x1C case 0xD => 0x51 case 0xE => 0x86 case _ => 0xCB
  }

  function Row6(l: bv8): bv8 {
    match l
    case 0x0 => 0x21 case 0x1 => 0x6C case 0x2 => 0xBB case 0x3 => 0xF6
    case 0x4 => 0x58 case 0x5 => 0x15 case 0x6 => 0xC2 case 0x7 => 0x8F
    case 0x8 => 0xD3 case 0x9 => 0x9E case 0xA => 0x49 case 0xB => 0x04
    case 0xC => 0xAA case 0xD => 0xE7 case 0xE => 0x30 case _ => 0x7D
  }

  function Row7(l: bv8): bv8 {
    match l
    case 0x0 => 0x88 case 0x1 => 0xC5 case 0x2 => 0x12 case 0x3 => 0x5F
    case 0x4 => 0xF1 case 0x5 => 0xBC case 0x6 => 0x6B case 0x7 => 0x26
    case 0x8 => 0x7A case 0x9 => 0x37 case 0xA => 0xE0 case 0xB => 0xAD
    case 0xC => 0x03 case 0xD => 0x4E case 0xE => 0x99 case _ => 0xD4
  }

  function Row8(l: bv8): bv8 {
    match l
    case 0x0 => 0x7C case 0x1 => 0x31 case 0x2 => 0xE6 case 0x3 => 0xAB
    case 0x4 => 0x05 case 0x5 => 0x48 case 0x6 => 0x9F case 0x7 => 0xD2
    case 0x8 => 0x8E case 0x9 => 0xC3 case 0xA => 0x14 case 0xB => 0x59
    case 0xC => 0xF7 case 0xD => 0xBA case 0xE => 0x6D case _ => 0x20
  }

  function Row9(l: bv8): bv8 {
    match l
    case 0x0 => 0xD5 case 0x1 => 0x98 case 0x2 => 0x4F case 0x3 => 0x02
    case 0x4 => 0xAC case 0x5 => 0xE1 case 0x6 => 0x36 case 0x7 => 0x7B
    case 0x8 => 0x27 case 0x9 => 0x6A case 0xA => 0xBD case 0xB => 0xF0
    case 0xC => 0x5E case 0xD => 0x13 case 0xE => 0xC4 case _ => 0x89
  }

  function RowA(l: bv8): bv8 {
    match l
    case 0x0 => 0x63 case 0x1 => 0x2E case 0x2 => 0xF9 case 0x3 => 0xB4
    case 0x4 => 0x1A case 0x5 => 0x57 case 0x6 => 0x80 case 0x7 => 0xCD
    case 0x8 => 0x91 case 0x9 => 0xDC case 0xA => 0x0B case 0xB => 0x46
    case 0xC => 0xE8 case 0xD => 0xA5 case 0xE => 0x72 case _ => 0x3F
  }

  function RowB(l: bv8): bv8 {
    match l
    case 0x0 => 0xCA case 0x1 => 0x87 case 0x2 => 0x50 case 0x3 => 0x1D
    case 0x4 => 0xB3 case 0x5 => 0xFE case 0x6 => 0x29 case 0x7 => 0x64
    case 0x8 => 0x38 case 0x9 => 0x75 case 0xA => 0xA2 case 0xB => 0xEF
    case 0xC => 0x41 case 0xD => 0x0C case 0xE => 0xDB case _ => 0x96
  }

  function RowC(l: bv8): bv8 {
    match l
    case 0x0 => 0x42 case 0x1 => 0x0F case 0x2 => 0xD8 case 0x3 => 0x95
    case 0x4 => 0x3B case 0x5 => 0x76 case 0x6 => 0xA1 case 0x7 => 0xEC
    case 0x8 => 0xB0 case 0x9 => 0xFD case 0xA => 0x2A case 0xB => 0x67
    case 0xC => 0xC9 case 0xD => 0x84 case 0xE => 0x53 case _ => 0x1E
  }

  function RowD(l: bv8): bv8 {
    match l
    case 0x0 => 0xEB case 0x1 => 0xA6 case 0x2 => 0x71 case 0x3 => 0x3C
    case 0x4 => 0x92 case 0x5 => 0xDF case 0x6 => 0x08 case 0x7 => 0x45
    case 0x8 => 0x19 case 0x9 => 0x54 case 0xA => 0x83 case 0xB => 0xCE
    case 0xC => 0x60 case 0xD => 0x2D case 0xE => 0xFA case _ => 0xB7
  }

  function RowE(l: bv8): bv8 {
    match l
    case 0x0 => 0x5D case 0x1 => 0x10 case 0x2 => 0xC7 case 0x3 => 0x8A
    case 0x4 => 0x24 case 0x5 => 0x69 case 0x6 => 0xBE case 0x7 => 0xF3
    case 0x8 => 0xAF case 0x9 => 0xE2 case 0xA => 0x35 case 0xB => 0x78
    case 0xC => 0xD6 case 0xD => 0x9B case 0xE => 0x4C case _ => 0x01
  }

  function RowF(l: bv8): bv8 {
    match l
    case 0x0 => 0xF4 case 0x1 => 0xB9 case 0x2 => 0x6E case 0x3 => 0x23
    case 0x4 => 0x8D case 0x5 => 0xC0 case 0x6 => 0x17 case 0x7 => 0x5A
    case 0x8 => 0x06 case 0x9 => 0x4B case 0xA => 0x9C case 0xB => 0xD1
    case 0xC => 0x7F case 0xD => 0x32 case 0xE => 0xE5 case _ => 0xA8
  }

  /** Shift the register by one bit, and subtract the generator when the bit that falls out is 1. */
  function ShiftBit(r: bv8): bv8 {
    (r << 1) ^ ((r >> 7) * 0x4D)
  }

  function ShiftByte(r: bv8): bv8 {
    ShiftBit(ShiftBit(ShiftBit(ShiftBit(ShiftBit(ShiftBit(ShiftBit(ShiftBit(r))))))))
  }

  lemma TableEntryIsShift(i: bv8)
    ensures TableEntry(i) == ShiftByte(i)
  {
  }
}
