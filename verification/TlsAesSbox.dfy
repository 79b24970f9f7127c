/** The S-box of AES and its inverse, as the two tables of the TLS client. */
module TlsAesSbox {
  import opened Bytes

  function SubRow0(x: byte): byte {
    match x
    case 0x00 => 0x63 case 0x01 => 0x7C case 0x02 => 0x77 case 0x03 => 0x7B case 0x04 => 0xF2
    case 0x05 => 0x6B case 0x06 => 0x6F case 0x07 => 0xC5 case 0x08 => 0x30 case 0x09 => 0x01
    case 0x0A => 0x67 case 0x0B => 0x2B case 0x0C => 0xFE case 0x0D => 0xD7 case 0x0E => 0xAB
    case _ => 0x76
  }

  function SubRow1(x: byte): byte {
    match x
    case 0x10 => 0xCA case 0x11 => 0x82 case 0x12 => 0xC9 case 0x13 => 0x7D case 0x14 => 0xFA
    case 0x15 => 0x59 case 0x16 => 0x47 case 0x17 => 0xF0 case 0x18 => 0xAD case 0x19 => 0xD4
    case 0x1A => 0xA2 case 0x1B => 0xAF case 0x1C => 0x9C case 0x1D => 0xA4 case 0x1E => 0x72
    case _ => 0xC0
  }

  function SubRow2(x: byte): byte {
    match x
    case 0x20 => 0xB7 case 0x21 => 0xFD case 0x22 => 0x93 case 0x23 => 0x26 case 0x24 => 0x36
    case 0x25 => 0x3F case 0x26 => 0xF7 case 0x27 => 0xCC case 0x28 => 0x34 case 0x29 => 0xA5
    case 0x2A => 0xE5 case 0x2B => 0xF1 case 0x2C => 0x71 case 0x2D => 0xD8 case 0x2E => 0x31
    case _ => 0x15
  }

  function SubRow3(x: byte): byte {
    match x
    case 0x30 => 0x04 case 0x31 => 0xC7 case 0x32 => 0x23 case 0x33 => 0xC3 case 0x34 => 0x18
    case 0x35 => 0x96 case 0x36 => 0x05 case 0x37 => 0x9A case 0x38 => 0x07 case 0x39 => 0x12
    case 0x3A => 0x80 case 0x3B => 0xE2 case 0x3C => 0xEB case 0x3D => 0x27 case 0x3E => 0xB2
    case _ => 0x75
  }

  function SubRow4(x: byte): byte {
    match x
    case 0x40 => 0x09 case 0x41 => 0x83 case 0x42 => 0x2C case 0x43 => 0x1A case 0x44 => 0x1B
    case 0x45 => 0x6E case 0x46 => 0x5A case 0x47 => 0xA0 case 0x48 => 0x52 case 0x49 => 0x3B
    case 0x4A => 0xD6 case 0x4B => 0xB3 case 0x4C => 0x29 case 0x4D => 0xE3 case 0x4E => 0x2F
    case _ => 0x84
  }

  function SubRow5(x: byte): byte {
    match x
    case 0x50 => 0x53 case 0x51 => 0xD1 case 0x52 => 0x00 case 0x53 => 0xED case 0x54 => 0x20
    case 0x55 => 0xFC case 0x56 => 0xB1 case 0x57 => 0x5B case 0x58 => 0x6A case 0x59 => 0xCB
    case 0x5A => 0xBE case 0x5B => 0x39 case 0x5C => 0x4A case 0x5D => 0x4C case 0x5E => 0x58
    case _ => 0xCF
  }

  function SubRow6(x: byte): byte {
    match x
    case 0x60 => 0xD0 case 0x61 => 0xEF case 0x62 => 0xAA case 0x63 => 0xFB case 0x64 => 0x43
    case 0x65 => 0x4D case 0x66 => 0x33 case 0x67 => 0x85 case 0x68 => 0x45 case 0x69 => 0xF9
    case 0x6A => 0x02 case 0x6B => 0x7F case 0x6C => 0x50 case 0x6D => 0x3C case 0x6E => 0x9F
    case _ => 0xA8
  }

  function SubRow7(x: byte): byte {
    match x
    case 0x70 => 0x51 case 0x71 => 0xA3 case 0x72 => 0x40 case 0x73 => 0x8F case 0x74 => 0x92
    case 0x75 => 0x9D case 0x76 => 0x38 case 0x77 => 0xF5 case 0x78 => 0xBC case 0x79 => 0xB6
    case 0x7A => 0xDA case 0x7B => 0x21 case 0x7C => 0x10 case 0x7D => 0xFF case 0x7E => 0xF3
    case _ => 0xD2
  }

  function SubRow8(x: byte): byte {
    match x
    case 0x80 => 0xCD case 0x81 => 0x0C case 0x82 => 0x13 case 0x83 => 0xEC case 0x84 => 0x5F
    case 0x85 => 0x97 case 0x86 => 0x44 case 0x87 => 0x17 case 0x88 => 0xC4 case 0x89 => 0xA7
    case 0x8A => 0x7E case 0x8B => 0x3D case 0x8C => 0x64 case 0x8D => 0x5D case 0x8E => 0x19
    case _ => 0x73
  }

  function SubRow9(x: byte): byte {
    match x
    case 0x90 => 0x60 case 0x91 => 0x81 case 0x92 => 0x4F case 0x93 => 0xDC case 0x94 => 0x22
    case 0x95 => 0x2A case 0x96 => 0x90 case 0x97 => 0x88 case 0x98 => 0x46 case 0x99 => 0xEE
    case 0x9A => 0xB8 case 0x9B => 0x14 case 0x9C => 0xDE case 0x9D => 0x5E case 0x9E => 0x0B
    case _ => 0xDB
  }

  function SubRowA(x: byte): byte {
    match x
    case 0xA0 => 0xE0 case 0xA1 => 0x32 case 0xA2 => 0x3A case 0xA3 => 0x0A case 0xA4 => 0x49
    case 0xA5 => 0x06 case 0xA6 => 0x24 case 0xA7 => 0x5C case 0xA8 => 0xC2 case 0xA9 => 0xD3
    case 0xAA => 0xAC case 0xAB => 0x62 case 0xAC => 0x91 case 0xAD => 0x95 case 0xAE => 0xE4
    case _ => 0x79
  }

  function SubRowB(x: byte): byte {
    match x
    case 0xB0 => 0xE7 case 0xB1 => 0xC8 case 0xB2 => 0x37 case 0xB3 => 0x6D case 0xB4 => 0x8D
    case 0xB5 => 0xD5 case 0xB6 => 0x4E case 0xB7 => 0xA9 case 0xB8 => 0x6C case 0xB9 => 0x56
    case 0xBA => 0xF4 case 0xBB => 0xEA case 0xBC => 0x65 case 0xBD => 0x7A case 0xBE => 0xAE
    case _ => 0x08
  }

  function SubRowC(x: byte): byte {
    match x
    case 0xC0 => 0xBA case 0xC1 => 0x78 case 0xC2 => 0x25 case 0xC3 => 0x2E case 0xC4 => 0x1C
    case 0xC5 => 0xA6 case 0xC6 => 0xB4 case 0xC7 => 0xC6 case 0xC8 => 0xE8 case 0xC9 => 0xDD
    case 0xCA => 0x74 case 0xCB => 0x1F case 0xCC => 0x4B case 0xCD => 0xBD case 0xCE => 0x8B
    case _ => 0x8A
  }

  function SubRowD(x: byte): byte {
    match x
    case 0xD0 => 0x70 case 0xD1 => 0x3E case 0xD2 => 0xB5 case 0xD3 => 0x66 case 0xD4 => 0x48
    case 0xD5 => 0x03 case 0xD6 => 0xF6 case 0xD7 => 0x0E case 0xD8 => 0x61 case 0xD9 => 0x35
    case 0xDA => 0x57 case 0xDB => 0xB9 case 0xDC => 0x86 case 0xDD => 0xC1 case 0xDE => 0x1D
    case _ => 0x9E
  }

  function SubRowE(x: byte): byte {
    match x
    case 0xE0 => 0xE1 case 0xE1 => 0xF8 case 0xE2 => 0x98 case 0xE3 => 0x11 case 0xE4 => 0x69
    case 0xE5 => 0xD9 case 0xE6 => 0x8E case 0xE7 => 0x94 case 0xE8 => 0x9B case 0xE9 => 0x1E
    case 0xEA => 0x87 case 0xEB => 0xE9 case 0xEC => 0xCE case 0xED => 0x55 case 0xEE => 0x28
    case _ => 0xDF
  }

  function SubRowF(x: byte): byte {
    match x
    case 0xF0 => 0x8C case 0xF1 => 0xA1 case 0xF2 => 0x89 case 0xF3 => 0x0D case 0xF4 => 0xBF
    case 0xF5 => 0xE6 case 0xF6 => 0x42 case 0xF7 => 0x68 case 0xF8 => 0x41 case 0xF9 => 0x99
    case 0xFA => 0x2D case 0xFB => 0x0F case 0xFC => 0xB0 case 0xFD => 0x54 case 0xFE => 0xBB
    case _ => 0x16
  }

  function InvRow0(x: byte): byte {
    match x
    case 0x00 => 0x52 case 0x01 => 0x09 case 0x02 => 0x6A case 0x03 => 0xD5 case 0x04 => 0x30
    case 0x05 => 0x36 case 0x06 => 0xA5 case 0x07 => 0x38 case 0x08 => 0xBF case 0x09 => 0x40
    case 0x0A => 0xA3 case 0x0B => 0x9E case 0x0C => 0x81 case 0x0D => 0xF3 case 0x0E => 0xD7
    case _ => 0xFB
  }

  function InvRow1(x: byte): byte {
    match x
    case 0x10 => 0x7C case 0x11 => 0xE3 case 0x12 => 0x39 case 0x13 => 0x82 case 0x14 => 0x9B
    case 0x15 => 0x2F case 0x16 => 0xFF case 0x17 => 0x87 case 0x18 => 0x34 case 0x19 => 0x8E
    case 0x1A => 0x43 case 0x1B => 0x44 case 0x1C => 0xC4 case 0x1D => 0xDE case 0x1E => 0xE9
    case _ => 0xCB
  }

  function InvRow2(x: byte): byte {
    match x
    case 0x20 => 0x54 case 0x21 => 0x7B case 0x22 => 0x94 case 0x23 => 0x32 case 0x24 => 0xA6
    case 0x25 => 0xC2 case 0x26 => 0x23 case 0x27 => 0x3D case 0x28 => 0xEE case 0x29 => 0x4C
    case 0x2A => 0x95 case 0x2B => 0x0B case 0x2C => 0x42 case 0x2D => 0xFA case 0x2E => 0xC3
    case _ => 0x4E
  }

  function InvRow3(x: byte): byte {
    match x
    case 0x30 => 0x08 case 0x31 => 0x2E case 0x32 => 0xA1 case 0x33 => 0x66 case 0x34 => 0x28
    case 0x35 => 0xD9 case 0x36 => 0x24 case 0x37 => 0xB2 case 0x38 => 0x76 case 0x39 => 0x5B
    case 0x3A => 0xA2 case 0x3B => 0x49 case 0x3C => 0x6D case 0x3D => 0x8B case 0x3E => 0xD1
    case _ => 0x25
  }

  function InvRow4(x: byte): byte {
    match x
    case 0x40 => 0x72 case 0x41 => 0xF8 case 0x42 => 0xF6 case 0x43 => 0x64 case 0x44 => 0x86
    case 0x45 => 0x68 case 0x46 => 0x98 case 0x47 => 0x16 case 0x48 => 0xD4 case 0x49 => 0xA4
    case 0x4A => 0x5C case 0x4B => 0xCC case 0x4C => 0x5D case 0x4D => 0x65 case 0x4E => 0xB6
    case _ => 0x92
  }

  function InvRow5(x: byte): byte {
    match x
    case 0x50 => 0x6C case 0x51 => 0x70 case 0x52 => 0x48 case 0x53 => 0x50 case 0x54 => 0xFD
    case 0x55 => 0xED case 0x56 => 0xB9 case 0x57 => 0xDA case 0x58 => 0x5E case 0x59 => 0x15
    case 0x5A => 0x46 case 0x5B => 0x57 case 0x5C => 0xA7 case 0x5D => 0x8D case 0x5E => 0x9D
    case _ => 0x84
  }

  function InvRow6(x: byte): byte {
    match x
    case 0x60 => 0x90 case 0x61 => 0xD8 case 0x62 => 0xAB case 0x63 => 0x00 case 0x64 => 0x8C
    case 0x65 => 0xBC case 0x66 => 0xD3 case 0x67 => 0x0A case 0x68 => 0xF7 case 0x69 => 0xE4
    case 0x6A => 0x58 case 0x6B => 0x05 case 0x6C => 0xB8 case 0x6D => 0xB3 case 0x6E => 0x45
    case _ => 0x06
  }

  function InvRow7(x: byte): byte {
    match x
    case 0x70 => 0xD0 case 0x71 => 0x2C case 0x72 => 0x1E case 0x73 => 0x8F case 0x74 => 0xCA
    case 0x75 => 0x3F case 0x76 => 0x0F case 0x77 => 0x02 case 0x78 => 0xC1 case 0x79 => 0xAF
    case 0x7A => 0xBD case 0x7B => 0x03 case 0x7C => 0x01 case 0x7D => 0x13 case 0x7E => 0x8A
    case _ => 0x6B
  }

  function InvRow8(x: byte): byte {
    match x
    case 0x80 => 0x3A case 0x81 => 0x91 case 0x82 => 0x11 case 0x83 => 0x41 case 0x84 => 0x4F
    case 0x85 => 0x67 case 0x86 => 0xDC case 0x87 => 0xEA case 0x88 => 0x97 case 0x89 => 0xF2
    case 0x8A => 0xCF case 0x8B => 0xCE case 0x8C => 0xF0 case 0x8D => 0xB4 case 0x8E => 0xE6
    case _ => 0x73
  }

  function InvRow9(x: byte): byte {
    match x
    case 0x90 => 0x96 case 0x91 => 0xAC case 0x92 => 0x74 case 0x93 => 0x22 case 0x94 => 0xE7
    case 0x95 => 0xAD case 0x96 => 0x35 case 0x97 => 0x85 case 0x98 => 0xE2 case 0x99 => 0xF9
    case 0x9A => 0x37 case 0x9B => 0xE8 case 0x9C => 0x1C case 0x9D => 0x75 case 0x9E => 0xDF
    case _ => 0x6E
  }

  function InvRowA(x: byte): byte {
    match x
    case 0xA0 => 0x47 case 0xA1 => 0xF1 case 0xA2 => 0x1A case 0xA3 => 0x71 case 0xA4 => 0x1D
    case 0xA5 => 0x29 case 0xA6 => 0xC5 case 0xA7 => 0x89 case 0xA8 => 0x6F case 0xA9 => 0xB7
    case 0xAA => 0x62 case 0xAB => 0x0E case 0xAC => 0xAA case 0xAD => 0x18 case 0xAE => 0xBE
    case _ => 0x1B
  }

  function InvRowB(x: byte): byte {
    match x
    case 0xB0 => 0xFC case 0xB1 => 0x56 case 0xB2 => 0x3E case 0xB3 => 0x4B case 0xB4 => 0xC6
    case 0xB5 => 0xD2 case 0xB6 => 0x79 case 0xB7 => 0x20 case 0xB8 => 0x9A case 0xB9 => 0xDB
    case 0xBA => 0xC0 case 0xBB => 0xFE case 0xBC => 0x78 case 0xBD => 0xCD case 0xBE => 0x5A
    case _ => 0xF4
  }

  function InvRowC(x: byte): byte {
    match x
    case 0xC0 => 0x1F case 0xC1 => 0xDD case 0xC2 => 0xA8 case 0xC3 => 0x33 case 0xC4 => 0x88
    case 0xC5 => 0x07 case 0xC6 => 0xC7 case 0xC7 => 0x31 case 0xC8 => 0xB1 case 0xC9 => 0x12
    case 0xCA => 0x10 case 0xCB => 0x59 case 0xCC => 0x27 case 0xCD => 0x80 case 0xCE => 0xEC
    case _ => 0x5F
  }

  function InvRowD(x: byte): byte {
    match x
    case 0xD0 => 0x60 case 0xD1 => 0x51 case 0xD2 => 0x7F case 0xD3 => 0xA9 case 0xD4 => 0x19
    case 0xD5 => 0xB5 case 0xD6 => 0x4A case 0xD7 => 0x0D case 0xD8 => 0x2D case 0xD9 => 0xE5
    case 0xDA => 0x7A case 0xDB => 0x9F case 0xDC => 0x93 case 0xDD => 0xC9 case 0xDE => 0x9C
    case _ => 0xEF
  }

  function InvRowE(x: byte): byte {
    match x
    case 0xE0 => 0xA0 case 0xE1 => 0xE0 case 0xE2 => 0x3B case 0xE3 => 0x4D case 0xE4 => 0xAE
    case 0xE5 => 0x2A case 0xE6 => 0xF5 case 0xE7 => 0xB0 case 0xE8 => 0xC8 case 0xE9 => 0xEB
    case 0xEA => 0xBB case 0xEB => 0x3C case 0xEC => 0x83 case 0xED => 0x53 case 0xEE => 0x99
    case _ => 0x61
  }

  function InvRowF(x: byte): byte {
    match x
    case 0xF0 => 0x17 case 0xF1 => 0x2B case 0xF2 => 0x04 case 0xF3 => 0x7E case 0xF4 => 0xBA
    case 0xF5 => 0x77 case 0xF6 => 0xD6 case 0xF7 => 0x26 case 0xF8 => 0xE1 case 0xF9 => 0x69
    case 0xFA => 0x14 case 0xFB => 0x63 case 0xFC => 0x55 case 0xFD => 0x21 case 0xFE => 0x0C
    case _ => 0x7D
  }

  /** The table entry at x, found by row and column. */
  function SubEntry(x: byte): byte {
    match x / 16
    case 0x0 => SubRow0(x) case 0x1 => SubRow1(x) case 0x2 => SubRow2(x)
    case 0x3 => SubRow3(x) case 0x4 => SubRow4(x) case 0x5 => SubRow5(x)
    case 0x6 => SubRow6(x) case 0x7 => SubRow7(x) case 0x8 => SubRow8(x)
    case 0x9 => SubRow9(x) case 0xA => SubRowA(x) case 0xB => SubRowB(x)
    case 0xC => SubRowC(x) case 0xD => SubRowD(x) case 0xE => SubRowE(x)
    case _ => SubRowF(x)
  }

  /** The inverse table entry at x. */
  function InvSubEntry(x: byte): byte {
    match x / 16
    case 0x0 => InvRow0(x) case 0x1 => InvRow1(x) case 0x2 => InvRow2(x)
    case 0x3 => InvRow3(x) case 0x4 => InvRow4(x) case 0x5 => InvRow5(x)
    case 0x6 => InvRow6(x) case 0x7 => InvRow7(x) case 0x8 => InvRow8(x)
    case 0x9 => InvRow9(x) case 0xA => InvRowA(x) case 0xB => InvRowB(x)
    case 0xC => InvRowC(x) case 0xD => InvRowD(x) case 0xE => InvRowE(x)
    case _ => InvRowF(x)
  }

  lemma Part0Inverts(x: byte)
    requires x / 32 == 0
    ensures InvSubEntry(SubEntry(x)) == x
  {
  }

  lemma Part1Inverts(x: byte)
    requires x / 32 == 1
    ensures InvSubEntry(SubEntry(x)) == x
  {
  }

  lemma Part2Inverts(x: byte)
    requires x / 32 == 2
    ensures InvSubEntry(SubEntry(x)) == x
  {
  }

  lemma Part3Inverts(x: byte)
    requires x / 32 == 3
    ensures InvSubEntry(SubEntry(x)) == x
  {
  }

  lemma Part4Inverts(x: byte)
    requires x / 32 == 4
    ensures InvSubEntry(SubEntry(x)) == x
  {
  }

  lemma Part5Inverts(x: byte)
    requires x / 32 == 5
    ensures InvSubEntry(SubEntry(x)) == x
  {
  }

  lemma Part6Inverts(x: byte)
    requires x / 32 == 6
    ensures InvSubEntry(SubEntry(x)) == x
  {
  }

  lemma Part7Inverts(x: byte)
    requires x / 32 == 7
    ensures InvSubEntry(SubEntry(x)) == x
  {
  }

  lemma EntriesInvert(x: byte)
    ensures InvSubEntry(SubEntry(x)) == x
  {
    match x / 32
    case 0 => Part0Inverts(x);
    case 1 => Part1Inverts(x);
    case 2 => Part2Inverts(x);
    case 3 => Part3Inverts(x);
    case 4 => Part4Inverts(x);
    case 5 => Part5Inverts(x);
    case 6 => Part6Inverts(x);
    case _ => Part7Inverts(x);
  }

  function Sub(x: bv8): bv8 {
    SubEntry(x as byte) as bv8
  }

  function InvSub(x: bv8): bv8 {
    InvSubEntry(x as byte) as bv8
  }

  lemma ByteAndBack(v: byte)
    ensures (v as bv8) as byte == v
  {
    assert v % 256 == v;
  }

  lemma BitsAndBack(x: bv8)
    ensures (x as byte) as bv8 == x
  {
  }

  /** The second table undoes the first. */
  lemma InvSubSub(x: bv8)
    ensures InvSub(Sub(x)) == x
  {
    BitsAndBack(x);
    EntriesInvert(x as byte);
    ByteAndBack(SubEntry(x as byte));
  }
}
