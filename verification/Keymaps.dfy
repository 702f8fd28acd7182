/** The scan-code tables of kern/console.c; 0 is NO. Codes with bit 7 set follow an 0xE0 byte. */
module Keymaps {
  import opened CTypes

  const KEY_HOME: uint8 := 0xE0
  const KEY_END: uint8 := 0xE1
  const KEY_UP: uint8 := 0xE2
  const KEY_DN: uint8 := 0xE3
  const KEY_LF: uint8 := 0xE4
  const KEY_RT: uint8 := 0xE5
  const KEY_PGUP: uint8 := 0xE6
  const KEY_PGDN: uint8 := 0xE7
  const KEY_INS: uint8 := 0xE8
  const KEY_DEL: uint8 := 0xE9

  function NormalMap(d: uint8): uint8 {
    match d
    case 0x01 => 0x1B case 0x02 => 0x31 case 0x03 => 0x32 case 0x04 => 0x33 case 0x05 => 0x34
    case 0x06 => 0x35 case 0x07 => 0x36 case 0x08 => 0x37 case 0x09 => 0x38 case 0x0A => 0x39
    case 0x0B => 0x30 case 0x0C => 0x2D case 0x0D => 0x3D case 0x0E => 0x08 case 0x0F => 0x09
    case 0x10 => 0x71 case 0x11 => 0x77 case 0x12 => 0x65 case 0x13 => 0x72 case 0x14 => 0x74
    case 0x15 => 0x79 case 0x16 => 0x75 case 0x17 => 0x69 case 0x18 => 0x6F case 0x19 => 0x70
    case 0x1A => 0x5B case 0x1B => 0x5D case 0x1C => 0x0A case 0x1E => 0x61 case 0x1F => 0x73
    case 0x20 => 0x64 case 0x21 => 0x66 case 0x22 => 0x67 case 0x23 => 0x68 case 0x24 => 0x6A
    case 0x25 => 0x6B case 0x26 => 0x6C case 0x27 => 0x3B case 0x28 => 0x27 case 0x29 => 0x60
    case 0x2B => 0x5C case 0x2C => 0x7A case 0x2D => 0x78 case 0x2E => 0x63 case 0x2F => 0x76
    case 0x30 => 0x62 case 0x31 => 0x6E case 0x32 => 0x6D case 0x33 => 0x2C case 0x34 => 0x2E
    case 0x35 => 0x2F case 0x37 => 0x2A case 0x39 => 0x20 case 0x47 => 0x37 case 0x48 => 0x38
    case 0x49 => 0x39 case 0x4A => 0x2D case 0x4B => 0x34 case 0x4C => 0x35 case 0x4D => 0x36
    case 0x4E => 0x2B case 0x4F => 0x31 case 0x50 => 0x32 case 0x51 => 0x33 case 0x52 => 0x30
    case 0x53 => 0x2E
    case 0x9C => 0x0A case 0xB5 => 0x2F
    case 0xC7 => KEY_HOME case 0xC8 => KEY_UP case 0xC9 => KEY_PGUP case 0xCB => KEY_LF
    case 0xCD => KEY_RT case 0xCF => KEY_END case 0xD0 => KEY_DN case 0xD1 => KEY_PGDN
    case 0xD2 => KEY_INS case 0xD3 => KEY_DEL
    case _ => 0
  }

  function ShiftMap(d: uint8): uint8 {
    match d
    case 0x01 => 0x1B case 0x02 => 0x21 case 0x03 => 0x40 case 0x04 => 0x23 case 0x05 => 0x24
    case 0x06 => 0x25 case 0x07 => 0x5E case 0x08 => 0x26 case 0x09 => 0x2A case 0x0A => 0x28
    case 0x0B => 0x29 case 0x0C => 0x5F case 0x0D => 0x2B case 0x0E => 0x08 case 0x0F => 0x09
    case 0x10 => 0x51 case 0x11 => 0x57 case 0x12 => 0x45 case 0x13 => 0x52 case 0x14 => 0x54
    case 0x15 => 0x59 case 0x16 => 0x55 case 0x17 => 0x49 case 0x18 => 0x4F case 0x19 => 0x50
    case 0x1A => 0x7B case 0x1B => 0x7D case 0x1C => 0x0A case 0x1E => 0x41 case 0x1F => 0x53
    case 0x20 => 0x44 case 0x21 => 0x46 case 0x22 => 0x47 case 0x23 => 0x48 case 0x24 => 0x4A
    case 0x25 => 0x4B case 0x26 => 0x4C case 0x27 => 0x3A case 0x28 => 0x22 case 0x29 => 0x7E
    case 0x2B => 0x7C case 0x2C => 0x5A case 0x2D => 0x58 case 0x2E => 0x43 case 0x2F => 0x56
    case 0x30 => 0x42 case 0x31 => 0x4E case 0x32 => 0x4D case 0x33 => 0x3C case 0x34 => 0x3E
    case 0x35 => 0x3F case 0x37 => 0x2A case 0x39 => 0x20 case 0x47 => 0x37 case 0x48 => 0x38
    case 0x49 => 0x39 case 0x4A => 0x2D case 0x4B => 0x34 case 0x4C => 0x35 case 0x4D => 0x36
    case 0x4E => 0x2B case 0x4F => 0x31 case 0x50 => 0x32 case 0x51 => 0x33 case 0x52 => 0x30
    case 0x53 => 0x2E
    case 0x9C => 0x0A case 0xB5 => 0x2F
    case 0xC7 => KEY_HOME case 0xC8 => KEY_UP case 0xC9 => KEY_PGUP case 0xCB => KEY_LF
    case 0xCD => KEY_RT case 0xCF => KEY_END case 0xD0 => KEY_DN case 0xD1 => KEY_PGDN
    case 0xD2 => KEY_INS case 0xD3 => KEY_DEL
    case _ => 0
  }

  /** The table has HOME at 0x97 where the other two have it at 0xC7. */
  function CtlMap(d: uint8): uint8 {
    match d
    case 0x10 => 0x11 case 0x11 => 0x17 case 0x12 => 0x05 case 0x13 => 0x12 case 0x14 => 0x14
    case 0x15 => 0x19 case 0x16 => 0x15 case 0x17 => 0x09 case 0x18 => 0x0F case 0x19 => 0x10
    case 0x1C => 0x0D case 0x1E => 0x01 case 0x1F => 0x13 case 0x20 => 0x04 case 0x21 => 0x06
    case 0x22 => 0x07 case 0x23 => 0x08 case 0x24 => 0x0A case 0x25 => 0x0B case 0x26 => 0x0C
    case 0x2B => 0x1C case 0x2C => 0x1A case 0x2D => 0x18 case 0x2E => 0x03 case 0x2F => 0x16
    case 0x30 => 0x02 case 0x31 => 0x0E case 0x32 => 0x0D case 0x35 => 0xEF
    case 0x97 => KEY_HOME case 0xB5 => 0xEF
    case 0xC8 => KEY_UP case 0xC9 => KEY_PGUP case 0xCB => KEY_LF
    case 0xCD => KEY_RT case 0xCF => KEY_END case 0xD0 => KEY_DN case 0xD1 => KEY_PGDN
    case 0xD2 => KEY_INS case 0xD3 => KEY_DEL
    case _ => 0
  }

  predicate Lower(c: uint8) {
    0x61 <= c <= 0x7A
  }

  predicate Upper(c: uint8) {
    0x41 <= c <= 0x5A
  }

  /** On letter keys the three tables agree up to case and control bits, and no other key gives a letter. */
  lemma LetterKeys(d: uint8)
    ensures Lower(NormalMap(d)) <==> Upper(ShiftMap(d))
    ensures Lower(NormalMap(d)) ==> ShiftMap(d) == NormalMap(d) - 0x20 && CtlMap(d) == NormalMap(d) - 0x60
    ensures !Upper(NormalMap(d)) && !Lower(ShiftMap(d)) && !Lower(CtlMap(d)) && !Upper(CtlMap(d))
    ensures Lower(NormalMap(d)) ==> 0x10 <= d <= 0x32
  {
  }

  lemma DeleteKey(d: uint8)
    ensures d == 0xD3 <==> NormalMap(d) == KEY_DEL
    ensures d == 0xD3 <==> ShiftMap(d) == KEY_DEL
    ensures d == 0xD3 <==> CtlMap(d) == KEY_DEL
  {
  }
}
