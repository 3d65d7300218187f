/** The 12-byte message header of section 4.1.1 of RFC 1035: parse_dns_header and
    dns_header_to_buffer of lib/src/celest_dns.c:233-265, with the masks of
    lib/src/celest_dns.h:10-17. lib/src/compass_dns.c:80-112 is the same code. */
module Header {
  import opened Wire

  const DnsHeaderSize: nat := 12

  const QrByteMask: u8 := 0x80
  const OpcodeByteMask: u8 := 0x78
  const AaByteMask: u8 := 0x04
  const TcByteMask: u8 := 0x02
  const RdByteMask: u8 := 0x01
  const RaByteMask: u8 := 0x80
  const ZByteMask: u8 := 0x70
  const RcodeByteMask: u8 := 0x0F

  /** The header fields, each as wide as the source's struct field. */
  datatype DnsHeader = DnsHeader(
    id: u16,
    qr: u8, opcode: u8, aa: u8, tc: u8, rd: u8,
    ra: u8, z: u8, rcode: u8,
    qdCount: u16, anCount: u16, nsCount: u16, arCount: u16)

  /** Every field fits the bits the wire format gives it: one bit for each flag, four for
      the opcode and the response code, three for z. */
  predicate InRange(h: DnsHeader) {
    h.qr <= 1 && h.aa <= 1 && h.tc <= 1 && h.rd <= 1 && h.ra <= 1
    && h.opcode < 16 && h.z < 8 && h.rcode < 16
  }

  /** parse_dns_header: the flags are cut out of bytes 2 and 3 with the masks, the five
      16-bit fields are read big-endian. A mask followed by a right shift is a division by
      the mask's lowest bit and a remainder by the field's width. Whatever the bytes, the
      fields are in range and writing the header back reproduces the 12 bytes it came from. */
  function ParseDnsHeader(b: seq<u8>): (h: DnsHeader)
    requires |b| >= DnsHeaderSize
    ensures InRange(h)
    ensures HeaderBytes(h) == b[..DnsHeaderSize]
  {
    var h := DnsHeader(
      BigEndianCharsToU16(b, 0),
      b[2] / QrByteMask,
      b[2] / 8 % 16,
      b[2] / AaByteMask % 2,
      b[2] / TcByteMask % 2,
      b[2] % 2,
      b[3] / RaByteMask,
      b[3] / 16 % 8,
      b[3] % 16,
      BigEndianCharsToU16(b, 4),
      BigEndianCharsToU16(b, 6),
      BigEndianCharsToU16(b, 8),
      BigEndianCharsToU16(b, 10));
    FlagBytesOfParse(b[2], b[3]);
    U16BytesOfRead(b, 0);
    U16BytesOfRead(b, 4);
    U16BytesOfRead(b, 6);
    U16BytesOfRead(b, 8);
    U16BytesOfRead(b, 10);
    assert HeaderBytes(h) == b[..DnsHeaderSize];
    h
  }

  /** Byte 2 as dns_header_to_buffer builds it: start from 0 and add the mask of each set
      flag and the opcode shifted into place. The byte keeps the sum modulo 256, so an
      out-of-range opcode spills into the neighbouring bits or wraps. */
  function FlagsByte2(h: DnsHeader): u8 {
    ((if h.qr != 0 then QrByteMask as int else 0)
     + h.opcode as int * 8
     + (if h.aa != 0 then AaByteMask as int else 0)
     + (if h.tc != 0 then TcByteMask as int else 0)
     + (if h.rd != 0 then RdByteMask as int else 0)) % 256
  }

  /** Byte 3 as dns_header_to_buffer builds it, modulo 256 like byte 2. */
  function FlagsByte3(h: DnsHeader): u8 {
    ((if h.ra != 0 then RaByteMask as int else 0) + h.z as int * 16 + h.rcode as int) % 256
  }

  /** The 12 bytes dns_header_to_buffer stores. */
  function HeaderBytes(h: DnsHeader): (b: seq<u8>)
    ensures |b| == DnsHeaderSize
  {
    var id, qd, an, ns, ar :=
      U16Bytes(h.id), U16Bytes(h.qdCount), U16Bytes(h.anCount), U16Bytes(h.nsCount), U16Bytes(h.arCount);
    [id[0], id[1], FlagsByte2(h), FlagsByte3(h), qd[0], qd[1], an[0], an[1], ns[0], ns[1], ar[0], ar[1]]
  }

  /** Re-packing the flags cut out of two bytes gives the two bytes back. */
  lemma FlagBytesOfParse(b2: u8, b3: u8)
    ensures ((if b2 / 128 != 0 then 128 else 0) + b2 / 8 % 16 * 8
             + (if b2 / 4 % 2 != 0 then 4 else 0) + (if b2 / 2 % 2 != 0 then 2 else 0)
             + (if b2 % 2 != 0 then 1 else 0)) % 256 == b2
    ensures ((if b3 / 128 != 0 then 128 else 0) + b3 / 16 % 8 * 16 + b3 % 16) % 256 == b3
  {
    var q1 := b2 / 2;
    var q2 := q1 / 2;
    var q3 := q2 / 2;
    Pack2(q3 / 16, q3 % 16, q2 % 2, q1 % 2, b2 % 2);
    DivMod(b2, 256, 0, b2);
    var p4 := b3 / 16;
    Pack3(p4 / 8, p4 % 8, b3 % 16);
    DivMod(b3, 256, 0, b3);
  }

  /** Byte 2 laid out bit field by bit field: each field is cut back out by its mask. */
  lemma Pack2(qr: int, opcode: int, aa: int, tc: int, rd: int)
    requires 0 <= qr < 2 && 0 <= opcode < 16 && 0 <= aa < 2 && 0 <= tc < 2 && 0 <= rd < 2
    ensures var v := qr * 128 + opcode * 8 + aa * 4 + tc * 2 + rd;
            v < 256 && v / 128 == qr && v / 8 % 16 == opcode && v / 4 % 2 == aa && v / 2 % 2 == tc
            && v % 2 == rd
  {
    var v := qr * 128 + opcode * 8 + aa * 4 + tc * 2 + rd;
    DivMod(v, 128, qr, opcode * 8 + aa * 4 + tc * 2 + rd);
    DivMod(v, 8, qr * 16 + opcode, aa * 4 + tc * 2 + rd);
    DivMod(qr * 16 + opcode, 16, qr, opcode);
    DivMod(v, 4, qr * 32 + opcode * 2 + aa, tc * 2 + rd);
    DivMod(qr * 32 + opcode * 2 + aa, 2, qr * 16 + opcode, aa);
    DivMod(v, 2, qr * 64 + opcode * 4 + aa * 2 + tc, rd);
    DivMod(qr * 64 + opcode * 4 + aa * 2 + tc, 2, qr * 32 + opcode * 2 + aa, tc);
  }

  /** Byte 3 laid out bit field by bit field: each field is cut back out by its mask. */
  lemma Pack3(ra: int, z: int, rcode: int)
    requires 0 <= ra < 2 && 0 <= z < 8 && 0 <= rcode < 16
    ensures var v := ra * 128 + z * 16 + rcode;
            v < 256 && v / 128 == ra && v / 16 % 8 == z && v % 16 == rcode
  {
    var v := ra * 128 + z * 16 + rcode;
    DivMod(v, 128, ra, z * 16 + rcode);
    DivMod(v, 16, ra * 8 + z, rcode);
    DivMod(ra * 8 + z, 8, ra, z);
  }

  /** dns_header_to_buffer, writing the first 12 bytes of `buf` in place. */
  method DnsHeaderToBuffer(h: DnsHeader, buf: array<u8>)
    requires buf.Length >= DnsHeaderSize
    modifies buf
    ensures buf[..DnsHeaderSize] == HeaderBytes(h)
    ensures buf[DnsHeaderSize..] == old(buf[DnsHeaderSize..])
  {
    U16ToBigEndianChars(buf, 0, h.id);
    StoreFlagsByte2(h, buf);
    StoreFlagsByte3(h, buf);
    U16ToBigEndianChars(buf, 4, h.qdCount);
    U16ToBigEndianChars(buf, 6, h.anCount);
    U16ToBigEndianChars(buf, 8, h.nsCount);
    U16ToBigEndianChars(buf, 10, h.arCount);
    assert buf[..DnsHeaderSize] == HeaderBytes(h);
  }

  /** Byte 2 of dns_header_to_buffer, built up from 0 by 8-bit additions: each flag adds
      its mask when it is set and nothing otherwise. */
  method StoreFlagsByte2(h: DnsHeader, buf: array<u8>)
    requires buf.Length >= DnsHeaderSize
    modifies buf
    ensures buf[2] == FlagsByte2(h)
    ensures forall i | 0 <= i < buf.Length && i != 2 :: buf[i] == old(buf[i])
  {
    var qr: u8 := if h.qr != 0 then QrByteMask else 0;
    var aa: u8 := if h.aa != 0 then AaByteMask else 0;
    var tc: u8 := if h.tc != 0 then TcByteMask else 0;
    var rd: u8 := if h.rd != 0 then RdByteMask else 0;
    var b2: u8 := qr;
    WrapAdd(qr, h.opcode as int * 8);
    b2 := (b2 + h.opcode as int * 8) % 256;
    WrapAdd(qr + h.opcode as int * 8, aa);
    b2 := (b2 + aa) % 256;
    WrapAdd(qr + h.opcode as int * 8 + aa, tc);
    b2 := (b2 + tc) % 256;
    WrapAdd(qr + h.opcode as int * 8 + aa + tc, rd);
    b2 := (b2 + rd) % 256;
    buf[2] := b2;
  }

  /** Byte 3 of dns_header_to_buffer, built up from 0 by 8-bit additions. */
  method StoreFlagsByte3(h: DnsHeader, buf: array<u8>)
    requires buf.Length >= DnsHeaderSize
    modifies buf
    ensures buf[3] == FlagsByte3(h)
    ensures forall i | 0 <= i < buf.Length && i != 3 :: buf[i] == old(buf[i])
  {
    var ra: u8 := if h.ra != 0 then RaByteMask else 0;
    var b3: u8 := ra;
    WrapAdd(ra, h.z as int * 16);
    b3 := (b3 + h.z as int * 16) % 256;
    WrapAdd(ra + h.z as int * 16, h.rcode);
    b3 := (b3 + h.rcode) % 256;
    buf[3] := b3;
  }

  /** Adding to a byte that already wrapped is the same as wrapping the whole sum. */
  lemma WrapAdd(a: int, c: nat)
    requires a >= 0
    ensures (a % 256 + c) % 256 == (a + c) % 256
  {
    DivMod(a + c, 256, a / 256 + (a % 256 + c) / 256, (a % 256 + c) % 256);
  }

  /** Parsing what dns_header_to_buffer wrote gives the header back, for every header whose
      fields are in range. */
  lemma HeaderRoundTrip(h: DnsHeader)
    requires InRange(h)
    ensures ParseDnsHeader(HeaderBytes(h)) == h
  {
    var b := HeaderBytes(h);
    FlagBitsOfPack(h);
    U16RoundTrip(h.id);
    U16RoundTrip(h.qdCount);
    U16RoundTrip(h.anCount);
    U16RoundTrip(h.nsCount);
    U16RoundTrip(h.arCount);
  }

  /** Cutting in-range flags out of the packed bytes gives each flag back. */
  lemma FlagBitsOfPack(h: DnsHeader)
    requires InRange(h)
    ensures FlagsByte2(h) / 128 == h.qr && FlagsByte2(h) / 8 % 16 == h.opcode
    ensures FlagsByte2(h) / 4 % 2 == h.aa && FlagsByte2(h) / 2 % 2 == h.tc && FlagsByte2(h) % 2 == h.rd
    ensures FlagsByte3(h) / 128 == h.ra && FlagsByte3(h) / 16 % 8 == h.z && FlagsByte3(h) % 16 == h.rcode
  {
    Pack2(h.qr, h.opcode, h.aa, h.tc, h.rd);
    var v2 := h.qr * 128 + h.opcode * 8 + h.aa * 4 + h.tc * 2 + h.rd;
    DivMod(v2, 256, 0, v2);
    Pack3(h.ra, h.z, h.rcode);
    var v3 := h.ra * 128 + h.z * 16 + h.rcode;
    DivMod(v3, 256, 0, v3);
  }

  /** A z value of 8 is out of range: the 8-bit addition carries it into the RA bit, and the
      header no longer round-trips. */
  lemma OutOfRangeZSpills()
    ensures FlagsByte3(DnsHeader(0, 0, 0, 0, 0, 0, 0, 8, 0, 0, 0, 0, 0)) == RaByteMask
    ensures ParseDnsHeader(HeaderBytes(DnsHeader(0, 0, 0, 0, 0, 0, 0, 8, 0, 0, 0, 0, 0))).ra == 1
  {
  }

  /** The decoding vector of lib/test/celest_dns_test.c:14-34. */
  lemma ParseHeaderVector()
    ensures ParseDnsHeader([0x01, 0x01, 0x8f, 0xb3, 0x01, 0x02, 0x01, 0x03, 0x01, 0x04, 0x01, 0x05])
            == DnsHeader(257, 1, 1, 1, 1, 1, 1, 3, 3, 258, 259, 260, 261)
  {
  }

  /** The decoding vector of lib/test/compass_dns_test.c:12-32. */
  lemma ParseHeaderVectorCompass()
    ensures ParseDnsHeader([0x00, 0x05, 0x8f, 0xb3, 0x00, 0x01, 0x00, 0x02, 0x00, 0x03, 0x00, 0x04])
            == DnsHeader(5, 1, 1, 1, 1, 1, 1, 3, 3, 1, 2, 3, 4)
  {
  }

  /** The encoding vectors of lib/test/celest_dns_test.c:182-206 and
      lib/test/compass_dns_test.c:34-56: opcode 2 (status), rcode 5 (refused), every flag
      set and z = 1 give the flag bytes 97 95. */
  lemma HeaderBytesVector()
    ensures HeaderBytes(DnsHeader(257, 1, 2, 1, 1, 1, 1, 1, 5, 0, 0, 0, 0))
            == [0x01, 0x01, 0x97, 0x95, 0, 0, 0, 0, 0, 0, 0, 0]
    ensures HeaderBytes(DnsHeader(257, 1, 2, 1, 1, 1, 1, 1, 5, 4, 3, 2, 1))
            == [0x01, 0x01, 0x97, 0x95, 0, 4, 0, 3, 0, 2, 0, 1]
  {
  }
}
