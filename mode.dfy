/**
 * The serial-channel and transmit/receive mode codes of the node firmware
 * (sunlight/src/mode.hpp) and the operators that combine them into one
 * control byte.
 */
module Mode {
  import opened SkyUtility

  /** `hw::serial`: one of four multiplexed serial channels. */
  datatype Serial = Ch0 | Ch1 | Ch2 | Ch3

  /** `hw::mode`. */
  datatype Mode = Tx | Rx

  function SerialBits(s: Serial): Byte
  {
    match s
    case Ch0 => 0x00
    case Ch1 => 0x01
    case Ch2 => 0x02
    case Ch3 => 0x03
  }

  function ModeBits(m: Mode): Byte
  {
    match m
    case Tx => 0x04
    case Rx => 0x00
  }

  /** `serial | mode`: the channel number in bits 0-1, the transmit flag in bit 2. */
  function SerialOrMode(lhs: Serial, rhs: Mode): (r: Byte)
    ensures r & 0x03 == SerialBits(lhs)
    ensures r & 0x04 != 0 <==> rhs == Tx
    ensures r < 8
    ensures rhs == Rx ==> r == SerialBits(lhs)
  {
    SerialBits(lhs) | ModeBits(rhs)
  }

  /** `mode | serial`, the same byte with the operands swapped. */
  function ModeOrSerial(lhs: Mode, rhs: Serial): (r: Byte)
    ensures r & 0x03 == SerialBits(rhs)
    ensures r & 0x04 != 0 <==> lhs == Tx
    ensures r < 8
  {
    SerialOrMode(rhs, lhs)
  }

  /** `serial & mode`: channel and mode codes never share a bit. */
  function SerialAndMode(lhs: Serial, rhs: Mode): (r: Byte)
    ensures r == 0
  {
    SerialBits(lhs) & ModeBits(rhs)
  }

  /** `mode & serial`. */
  function ModeAndSerial(lhs: Mode, rhs: Serial): (r: Byte)
    ensures r == 0
  {
    SerialAndMode(rhs, lhs)
  }

  /** Distinct channel/mode pairs give distinct control bytes. */
  lemma SerialOrModeInjective(s1: Serial, m1: Mode, s2: Serial, m2: Mode)
    ensures SerialOrMode(s1, m1) == SerialOrMode(s2, m2) <==> s1 == s2 && m1 == m2
  {
  }
}
