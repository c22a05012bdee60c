/**
 * Bit helpers and the CRC-8 checksum of the `sky` library (sky/utility.hpp).
 *
 * Registers are modelled at the width the rest of the system instantiates
 * them with, `std::uint8_t`, as `bv8`.  The C++ helpers overwrite a register
 * passed by reference; here they are functions from the old register value to
 * the new one, and callers assign the result back.
 */
module SkyUtility {

  type Byte = bv8

  /** The default template argument of `crc_8`: x^8 + x^2 + x + 1. */
  const DefaultPoly: Byte := 0x07

  /** `length_of` yields the compile-time extent N of a `T[N]` array. */
  function LengthOf<T>(a: array<T>): (n: nat)
    ensures n == a.Length
  {
    a.Length
  }

  /**
   * `set_bit`: `reg |= 1 << position`.  The shifted `1` is a 32-bit `int`, so
   * the shift must stay below 31; positions 8 and above lie outside the
   * 8-bit register and leave it unchanged after the truncating assignment.
   */
  function SetBit(reg: Byte, position: nat): (r: Byte)
    requires position < 31
    ensures position < 8 ==> r & (1 << position) != 0
    ensures position < 8 ==> r & !(1 << position) == reg & !(1 << position)
    ensures position >= 8 ==> r == reg
  {
    if position < 8 then reg | (1 << position) else reg
  }

  /** `clear_bit`: `reg &= ~(1 << position)`, with the same width rules. */
  function ClearBit(reg: Byte, position: nat): (r: Byte)
    requires position < 31
    ensures position < 8 ==> r & (1 << position) == 0
    ensures position < 8 ==> r & !(1 << position) == reg & !(1 << position)
    ensures position >= 8 ==> r == reg
  {
    if position < 8 then reg & !(1 << position) else reg
  }

  /** `set_bit_level`: the bits selected by `mask` are taken from `data`. */
  function SetBitLevel(reg: Byte, mask: Byte, data: Byte): (r: Byte)
    ensures r & mask == data & mask
    ensures r & !mask == reg & !mask
  {
    (reg & !mask) | (data & mask)
  }

  lemma SetBitLevelIdempotent(reg: Byte, mask: Byte, data: Byte)
    ensures SetBitLevel(SetBitLevel(reg, mask, data), mask, data) == SetBitLevel(reg, mask, data)
  {
  }

  // ---------------------------------------------------------------------
  // CRC-8 (non-reflected, MSB first, initial register 0, no final xor)
  // ---------------------------------------------------------------------

  /** One iteration of the inner loop of `crc_8`. */
  function ShiftStep(poly: Byte, reg: Byte): Byte
  {
    if reg & 0x80 != 0 then (reg << 1) ^ poly else reg << 1
  }

  /** `n` iterations of the inner loop. */
  function ShiftN(poly: Byte, reg: Byte, n: nat): Byte
  {
    if n == 0 then reg else ShiftStep(poly, ShiftN(poly, reg, n - 1))
  }

  /** Everything the outer loop does with one byte already folded into `reg`. */
  function Shift8(poly: Byte, reg: Byte): Byte
  {
    ShiftN(poly, reg, 8)
  }

  /** The register after absorbing `s`, starting from `reg`. */
  function CrcFrom(poly: Byte, reg: Byte, s: seq<Byte>): Byte
    decreases |s|
  {
    if s == [] then reg else CrcFrom(poly, Shift8(poly, reg ^ s[0]), s[1..])
  }

  /** The checksum of a byte sequence. */
  function CrcOf(poly: Byte, s: seq<Byte>): Byte
  {
    CrcFrom(poly, 0, s)
  }

  /** The checksum is a left fold: one more byte is one more outer-loop step. */
  lemma {:induction false} CrcFromSnoc(poly: Byte, reg: Byte, s: seq<Byte>, x: Byte)
    ensures CrcFrom(poly, reg, s + [x]) == Shift8(poly, CrcFrom(poly, reg, s) ^ x)
    decreases |s|
  {
    if s == [] {
      assert s + [x] == [x];
      assert [x][1..] == [];
    } else {
      assert (s + [x])[1..] == s[1..] + [x];
      CrcFromSnoc(poly, Shift8(poly, reg ^ s[0]), s[1..], x);
    }
  }

  lemma CrcOfEmpty(poly: Byte)
    ensures CrcOf(poly, []) == 0
  {
  }

  /**
   * `crc_8`: the checksum of the first `size` bytes of `buffer`, computed by
   * the two nested loops of the source.
   */
  method Crc8(poly: Byte, buffer: array<Byte>, size: nat) returns (crc: Byte)
    requires size <= buffer.Length
    ensures crc == CrcOf(poly, buffer[..size])
  {
    var reg: Byte := 0x00;
    var i := 0;
    while i < size
      invariant i <= size
      invariant reg == CrcOf(poly, buffer[..i])
    {
      reg := reg ^ buffer[i];
      ghost var folded := reg;
      var j := 0;
      while j < 8
        invariant j <= 8
        invariant reg == ShiftN(poly, folded, j)
      {
        if reg & 0x80 != 0 {
          reg := (reg << 1) ^ poly;
        } else {
          reg := reg << 1;
        }
        j := j + 1;
      }
      assert buffer[..i + 1] == buffer[..i] + [buffer[i]];
      CrcFromSnoc(poly, 0, buffer[..i], buffer[i]);
      i := i + 1;
    }
    crc := reg;
  }

  /** The bytes of "Hello, World!". */
  const HelloWorld: seq<Byte> :=
    [0x48, 0x65, 0x6C, 0x6C, 0x6F, 0x2C, 0x20, 0x57, 0x6F, 0x72, 0x6C, 0x64, 0x21]

  /** The known answer for the thirteen bytes of "Hello, World!". */
  lemma HelloWorldCrc()
    ensures CrcOf(DefaultPoly, HelloWorld) == 0x87
  {
    var p := DefaultPoly;
    var h := HelloWorld;
    HelloWorldTail();
    assert Shift8(p, 0x00 ^ 0x48) == 0xFF;
    assert Shift8(p, 0xFF ^ 0x65) == 0xCF;
    assert Shift8(p, 0xCF ^ 0x6C) == 0x60;
    assert Shift8(p, 0x60 ^ 0x6C) == 0x24;
    assert Shift8(p, 0x24 ^ 0x6F) == 0xF6;
    assert Shift8(p, 0xF6 ^ 0x2C) == 0x08;
    assert Shift8(p, 0x08 ^ 0x20) == 0xD8;
    assert CrcFrom(p, 0x08, h[6..]) == 0x87;
    assert CrcFrom(p, 0xF6, h[5..]) == 0x87;
    assert CrcFrom(p, 0x24, h[4..]) == 0x87;
    assert CrcFrom(p, 0x60, h[3..]) == 0x87;
    assert CrcFrom(p, 0xCF, h[2..]) == 0x87;
    assert CrcFrom(p, 0xFF, h[1..]) == 0x87;
  }

  /** The register after "Hello, " is 0xD8; the remaining six bytes take it to 0x87. */
  lemma HelloWorldTail()
    ensures CrcFrom(DefaultPoly, 0xD8, HelloWorld[7..]) == 0x87
  {
    var p := DefaultPoly;
    var h := HelloWorld;
    assert Shift8(p, 0xD8 ^ 0x57) == 0xA4;
    assert Shift8(p, 0xA4 ^ 0x6F) == 0x7F;
    assert Shift8(p, 0x7F ^ 0x72) == 0x23;
    assert Shift8(p, 0x23 ^ 0x6C) == 0xEA;
    assert Shift8(p, 0xEA ^ 0x64) == 0xA3;
    assert ShiftN(p, 0x82, 4) == 0x18;
    assert Shift8(p, 0xA3 ^ 0x21) == 0x87;
    assert CrcFrom(p, 0x87, h[13..]) == 0x87;
    assert CrcFrom(p, 0xA3, h[12..]) == 0x87;
    assert CrcFrom(p, 0xEA, h[11..]) == 0x87;
    assert CrcFrom(p, 0x23, h[10..]) == 0x87;
    assert CrcFrom(p, 0x7F, h[9..]) == 0x87;
    assert CrcFrom(p, 0xA4, h[8..]) == 0x87;
  }
}
