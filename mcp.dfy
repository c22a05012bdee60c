/**
 * The message control protocol of the `sky` library (sky/mcp.hpp, sky/mcp.cpp):
 * a fixed 23-byte frame made of a type byte, a 3-byte source address, a
 * 3-byte destination address, a 15-byte payload and a trailing CRC-8 over the
 * first 22 bytes.  Node addresses are 24-bit little-endian numbers.
 */
module Mcp {
  import opened SkyUtility

  const AddressSize: nat := 3
  const PayloadSize: nat := 15
  /** `sizeof(mcp)`: every member is a byte, so the struct has no padding. */
  const BufferSize: nat := 23

  type Address = a: seq<Byte> | |a| == 3 witness [0, 0, 0]
  type Payload = p: seq<Byte> | |p| == 15 witness [0, 0, 0, 0, 0, 0, 0, 0, 0, 0, 0, 0, 0, 0, 0]

  const ZeroAddress: Address := [0, 0, 0]
  const ZeroPayload: Payload := [0, 0, 0, 0, 0, 0, 0, 0, 0, 0, 0, 0, 0, 0, 0]

  /** `sky::mcp`. */
  datatype Message = Message(kind: Byte, source: Address, destination: Address, payload: Payload, crc: Byte)

  /** The bytes of the struct in memory, in declaration order. */
  function Image(m: Message): (b: seq<Byte>)
  {
    [m.kind] + m.source + m.destination + m.payload + [m.crc]
  }

  /** The first 22 bytes, everything the CRC covers. */
  function Header(m: Message): (b: seq<Byte>)
  {
    [m.kind] + m.source + m.destination + m.payload
  }

  /** The frame `mcp_make_buffer` produces: the header followed by its CRC. */
  function Encode(m: Message): (b: seq<Byte>)
  {
    Header(m) + [CrcOf(DefaultPoly, Header(m))]
  }

  lemma EncodeLayout(m: Message)
    ensures |Encode(m)| == BufferSize
    ensures Encode(m)[0] == m.kind
    ensures Encode(m)[1..4] == m.source && Encode(m)[4..7] == m.destination
    ensures Encode(m)[7..22] == m.payload
    ensures Encode(m)[..22] == Header(m) && Encode(m)[22] == CrcOf(DefaultPoly, Header(m))
  {
  }

  /**
   * `mcp_make_buffer`: copies the struct into a scratch buffer, replaces its
   * last byte by the CRC of the other 22 and copies the result to `dest`.
   */
  method MakeBuffer(dest: array<Byte>, src: Message)
    requires dest.Length == BufferSize
    modifies dest
    ensures dest[0] == src.kind
    ensures dest[1..4] == src.source && dest[4..7] == src.destination
    ensures dest[7..22] == src.payload
    ensures dest[22] == CrcOf(DefaultPoly, dest[..22])
    ensures dest[..] == Encode(src)
  {
    var buffer := new Byte[BufferSize];
    var image := Image(src);
    for k := 0 to BufferSize
      invariant buffer[..k] == image[..k]
    {
      buffer[k] := image[k];
    }
    assert image == Header(src) + [src.crc];
    assert buffer[..22] == image[..22] == Header(src);
    var crc := Crc8(DefaultPoly, buffer, BufferSize - 1);
    assert crc == CrcOf(DefaultPoly, Header(src)) by {
      assert buffer[..BufferSize - 1] == buffer[..22];
    }
    buffer[BufferSize - 1] := crc;
    assert buffer[..] == Header(src) + [crc] by {
      assert buffer[..22] == Header(src);
      assert buffer[..] == buffer[..22] + [buffer[22]];
    }
    for k := 0 to BufferSize
      invariant buffer[..] == Header(src) + [crc]
      invariant dest[..k] == buffer[..k]
    {
      dest[k] := buffer[k];
    }
    assert dest[..] == dest[..BufferSize];
    assert buffer[..] == buffer[..BufferSize];
    assert dest[..] == Encode(src);
    EncodeLayout(src);
  }

  /** `mcp_make_from_buffer`: reads the fields back in declaration order. */
  function Decode(b: seq<Byte>): (m: Message)
    requires |b| == BufferSize
    ensures Image(m) == b
  {
    Message(b[0], b[1..4], b[4..7], b[7..22], b[22])
  }

  /** `mcp_check_crc`: the stored CRC byte agrees with the CRC of the rest. */
  function CheckCrc(b: seq<Byte>): (ok: bool)
    requires |b| == BufferSize
    ensures ok <==> b[22] == CrcOf(DefaultPoly, b[..22])
  {
    Decode(b).crc == CrcOf(DefaultPoly, b[..BufferSize - 1])
  }

  /** Decoding a frame gives back the message, with its CRC field recomputed. */
  lemma DecodeEncode(m: Message)
    ensures Decode(Encode(m)) == m.(crc := CrcOf(DefaultPoly, Header(m)))
  {
    EncodeLayout(m);
  }

  /** Encoding a decoded frame whose CRC is right gives back the same bytes. */
  lemma EncodeDecode(b: seq<Byte>)
    requires |b| == BufferSize && CheckCrc(b)
    ensures Encode(Decode(b)) == b
  {
    assert Header(Decode(b)) == b[..22];
  }

  lemma EncodePassesCheck(m: Message)
    ensures CheckCrc(Encode(m))
  {
    EncodeLayout(m);
  }

  /** The test frame of the decoder test: type 1, source 00 04 00, destination 00 00 01, CRC byte 1. */
  lemma DecodeExample()
    ensures Decode([1, 0x00, 0x04, 0x00, 0x00, 0x00, 0x01] + ZeroPayload + [1])
         == Message(1, [0x00, 0x04, 0x00], [0x00, 0x00, 0x01], ZeroPayload, 1)
  {
    var b: seq<Byte> := [1, 0x00, 0x04, 0x00, 0x00, 0x00, 0x01] + ZeroPayload + [1];
    assert b[1..4] == [0x00, 0x04, 0x00];
    assert b[4..7] == [0x00, 0x00, 0x01];
    assert b[7..22] == ZeroPayload;
  }

  // ---------------------------------------------------------------------
  // Addresses
  // ---------------------------------------------------------------------

  /** `mcp_address_to_u32`: the address read as a little-endian 24-bit number. */
  function AddressToU32(a: Address): (v: bv32)
    ensures v < 0x100_0000
    ensures v & 0xFF == a[0] as bv32 && (v >> 8) & 0xFF == a[1] as bv32 && v >> 16 == a[2] as bv32
  {
    (a[0] as bv32 << 0) | (a[1] as bv32 << 8) | (a[2] as bv32 << 16)
  }

  /** The three bytes `mcp_u32_to_address` stores: the low 24 bits, little-endian. */
  function AddressOf(v: bv32): (a: Address)
    ensures AddressToU32(a) == v & 0xFF_FFFF
  {
    [((v & 0x0000_00FF) >> 0) as Byte, ((v & 0x0000_FF00) >> 8) as Byte, ((v & 0x00FF_0000) >> 16) as Byte]
  }

  /** `mcp_u32_to_address`: writes the low 24 bits of `addr` into `dest`. */
  method U32ToAddress(dest: array<Byte>, addr: bv32)
    requires dest.Length == AddressSize
    modifies dest
    ensures dest[..] == AddressOf(addr)
    ensures AddressToU32(dest[..]) == addr & 0xFF_FFFF
  {
    dest[0] := ((addr & 0x0000_00FF) >> 0) as Byte;
    dest[1] := ((addr & 0x0000_FF00) >> 8) as Byte;
    dest[2] := ((addr & 0x00FF_0000) >> 16) as Byte;
    assert dest[..] == AddressOf(addr);
  }

  lemma AddressRoundTrip(a: Address)
    ensures AddressOf(AddressToU32(a)) == a
  {
  }

  /** Two addresses with the same number are the same address. */
  lemma AddressToU32Injective(a: Address, b: Address)
    ensures AddressToU32(a) == AddressToU32(b) <==> a == b
  {
    if AddressToU32(a) == AddressToU32(b) {
      AddressRoundTrip(a);
      AddressRoundTrip(b);
    }
  }

  /** Only the all-zero address is number 0. */
  lemma AddressZero(a: Address)
    ensures AddressToU32(a) == 0 <==> a == ZeroAddress
  {
    AddressToU32Injective(a, ZeroAddress);
  }

  lemma AddressExamples()
    ensures AddressToU32([0x00, 0x04, 0x00]) == 1024
    ensures AddressOf(1024) == [0x00, 0x04, 0x00]
  {
  }

  // ---------------------------------------------------------------------
  // Error detection
  // ---------------------------------------------------------------------

  /** With an odd polynomial one shift step loses no information. */
  lemma ShiftStepInjective(poly: Byte, a: Byte, b: Byte)
    requires poly & 1 == 1
    ensures ShiftStep(poly, a) == ShiftStep(poly, b) ==> a == b
  {
  }

  lemma {:induction false} ShiftNInjective(poly: Byte, a: Byte, b: Byte, n: nat)
    requires poly & 1 == 1
    ensures ShiftN(poly, a, n) == ShiftN(poly, b, n) ==> a == b
  {
    if n > 0 {
      ShiftStepInjective(poly, ShiftN(poly, a, n - 1), ShiftN(poly, b, n - 1));
      ShiftNInjective(poly, a, b, n - 1);
    }
  }

  /** Running the same bytes through two different registers keeps them different. */
  lemma {:induction false} CrcFromInjective(poly: Byte, u: Byte, v: Byte, s: seq<Byte>)
    requires poly & 1 == 1 && u != v
    ensures CrcFrom(poly, u, s) != CrcFrom(poly, v, s)
    decreases |s|
  {
    if s != [] {
      ShiftNInjective(poly, u ^ s[0], v ^ s[0], 8);
      CrcFromInjective(poly, Shift8(poly, u ^ s[0]), Shift8(poly, v ^ s[0]), s[1..]);
    }
  }

  lemma {:induction false} CrcFromAppend(poly: Byte, r: Byte, s: seq<Byte>, t: seq<Byte>)
    ensures CrcFrom(poly, r, s + t) == CrcFrom(poly, CrcFrom(poly, r, s), t)
    decreases |s|
  {
    if s == [] {
      assert s + t == t;
    } else {
      assert (s + t)[1..] == s[1..] + t;
      CrcFromAppend(poly, Shift8(poly, r ^ s[0]), s[1..], t);
    }
  }

  lemma CrcFromCons(poly: Byte, r: Byte, x: Byte, rest: seq<Byte>)
    ensures CrcFrom(poly, r, [x] + rest) == CrcFrom(poly, Shift8(poly, r ^ x), rest)
  {
    assert ([x] + rest)[1..] == rest;
  }

  /** Changing one byte of the input always changes the checksum. */
  lemma CrcDetectsByteError(poly: Byte, s: seq<Byte>, i: nat, e: Byte)
    requires poly & 1 == 1 && i < |s| && e != 0
    ensures CrcOf(poly, s[i := s[i] ^ e]) != CrcOf(poly, s)
  {
    var x, x' := s[i], s[i] ^ e;
    var prefix, rest := s[..i], s[i + 1..];
    assert s == prefix + ([x] + rest);
    assert s[i := x'] == prefix + ([x'] + rest);
    var r := CrcFrom(poly, 0, prefix);
    CrcFromAppend(poly, 0, prefix, [x] + rest);
    CrcFromAppend(poly, 0, prefix, [x'] + rest);
    CrcFromCons(poly, r, x, rest);
    CrcFromCons(poly, r, x', rest);
    assert r ^ x != r ^ x';
    ShiftNInjective(poly, r ^ x, r ^ x', 8);
    CrcFromInjective(poly, Shift8(poly, r ^ x), Shift8(poly, r ^ x'), rest);
  }

  /** A frame whose CRC checks out fails the check once any one of its bytes is corrupted. */
  lemma CheckCrcDetectsByteError(b: seq<Byte>, i: nat, e: Byte)
    requires |b| == BufferSize && CheckCrc(b) && i < BufferSize && e != 0
    ensures !CheckCrc(b[i := b[i] ^ e])
  {
    if i < 22 {
      assert b[i := b[i] ^ e][..22] == b[..22][i := b[i] ^ e];
      CrcDetectsByteError(DefaultPoly, b[..22], i, e);
    } else {
      assert b[i := b[i] ^ e][..22] == b[..22];
    }
  }
}
