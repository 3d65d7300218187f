/** Fixed-width unsigned integers, the codec's error kinds, and the big-endian helpers of
    lib/src/celest_dns.c:400-422. A byte, a 16-bit and a 32-bit field are integers in their
    range; where the source relies on C's unsigned wrap-around or on a bit mask, the model
    writes the arithmetic out (`%`, `/`). Offsets and lengths are unbounded `int`s. */
module Wire {

  type u8 = x: int | 0 <= x < 0x100
  type u16 = x: int | 0 <= x < 0x1_0000
  type u32 = x: int | 0 <= x < 0x1_0000_0000

  /** Why a decode or an encode gave up. The source reports every failure as -1 (or NULL);
      the kinds say which check fired. `Truncated` and `BadPointer` are the bounds and
      pointer-cycle checks this model adds to the decoder. */
  datatype Error = Truncated | BadPointer | NameTooLong | MessageTooLarge

  datatype Result<T> = Ok(value: T) | Err(error: Error)

  datatype Option<T> = None | Some(value: T)

  /** big_endian_chars_to_u_int16: the bytes at `off` and `off + 1`, most significant first. */
  function BigEndianCharsToU16(b: seq<u8>, off: nat): u16
    requires off + 2 <= |b|
  {
    b[off] as int * 256 + b[off + 1] as int
  }

  /** The two bytes of a 16-bit value, most significant first. */
  function U16Bytes(value: u16): (b: seq<u8>)
    ensures |b| == 2
  {
    [value / 256, value % 256]
  }

  /** u_int16_to_big_endian_chars, writing in place at `off`: the low byte is `value % 256`,
      the high byte what is left divided by 256. These are the two bytes of U16Bytes. */
  method U16ToBigEndianChars(buf: array<u8>, off: nat, value: u16)
    requires off + 2 <= buf.Length
    modifies buf
    ensures buf[off] == U16Bytes(value)[0] && buf[off + 1] == U16Bytes(value)[1]
    ensures forall i | 0 <= i < buf.Length && i != off && i != off + 1 :: buf[i] == old(buf[i])
  {
    buf[off + 1] := value % 256;
    buf[off] := (value - buf[off + 1]) / 256;
  }

  /** Reading back the two bytes of a value gives the value. */
  lemma U16RoundTrip(value: u16)
    ensures BigEndianCharsToU16(U16Bytes(value), 0) == value
  {
  }

  /** The writer reproduces any two bytes the reader took apart. */
  lemma U16BytesOfRead(b: seq<u8>, off: nat)
    requires off + 2 <= |b|
    ensures U16Bytes(BigEndianCharsToU16(b, off)) == b[off..off + 2]
  {
  }

  /** The bytes of a value, found at `off`, read back as the value. */
  lemma U16ReadBack(b: seq<u8>, off: nat, value: u16)
    requires off + 2 <= |b| && b[off..off + 2] == U16Bytes(value)
    ensures BigEndianCharsToU16(b, off) == value
  {
    assert b[off] == U16Bytes(value)[0] && b[off + 1] == U16Bytes(value)[1];
  }

  /** The four bytes of a 32-bit value, most significant first: its base-256 digits. */
  function U32Bytes(value: u32): (b: seq<u8>)
    ensures |b| == 4
  {
    [value / 0x100_0000, value / 0x1_0000 % 256, value / 256 % 256, value % 256]
  }

  /** u_int32_to_big_endian_chars, writing in place at `off`. Each byte is computed as the
      source does, from what is left of `value` once the less significant bytes are taken
      off; they are the base-256 digits of U32Bytes. */
  method U32ToBigEndianChars(buf: array<u8>, off: nat, value: u32)
    requires off + 4 <= buf.Length
    modifies buf
    ensures buf[off..off + 4] == U32Bytes(value)
    ensures forall i | 0 <= i < buf.Length && !(off <= i < off + 4) :: buf[i] == old(buf[i])
  {
    var b3 := value % 256;
    var b2 := (value - b3) % 65536 / 256;
    var b1 := (value - b3 - b2 * 256) % 16777216 / 65536;
    var b0 := (value - b3 - b2 * 256 - b1 * 65536) / 16777216;
    U32Digits(value, b3, b2, b1, b0);
    buf[off + 3] := b3;
    buf[off + 2] := b2;
    buf[off + 1] := b1;
    buf[off] := b0;
    assert buf[off..off + 4] == [b0, b1, b2, b3];
  }

  /** The source's digit arithmetic gives the bytes of U32Bytes. */
  lemma U32Digits(value: u32, b3: int, b2: int, b1: int, b0: int)
    requires b3 == value % 256
    requires b2 == (value - b3) % 65536 / 256
    requires b1 == (value - b3 - b2 * 256) % 16777216 / 65536
    requires b0 == (value - b3 - b2 * 256 - b1 * 65536) / 16777216
    ensures [b0, b1, b2, b3] == U32Bytes(value)
  {
    var q1, r0 := value / 256, value % 256;
    var q2, r1 := q1 / 256, q1 % 256;
    var q3, r2 := q2 / 256, q2 % 256;
    Base256(value);
    DivMod(value - b3, 65536, q2, 256 * r1);
    DivMod(256 * r1, 256, r1, 0);
    DivMod(value - b3 - b2 * 256, 16777216, q3, 65536 * r2);
    DivMod(65536 * r2, 65536, r2, 0);
    DivMod(value - b3 - b2 * 256 - b1 * 65536, 16777216, q3, 0);
  }

  /** The bytes of U32Bytes are the base-256 digits: each is what is left after dividing by
      the lower powers of 256. */
  lemma Base256(value: u32)
    ensures var q1 := value / 256; var q2 := q1 / 256;
            value / 0x1_0000 == q2 && value / 0x100_0000 == q2 / 256
            && value == q2 / 256 * 0x100_0000 + q2 % 256 * 0x1_0000 + q1 % 256 * 256 + value % 256
  {
    var q1, r0 := value / 256, value % 256;
    var q2, r1 := q1 / 256, q1 % 256;
    var q3, r2 := q2 / 256, q2 % 256;
    DivMod(value, 0x1_0000, q2, 256 * r1 + r0);
    DivMod(value, 0x100_0000, q3, 0x1_0000 * r2 + 256 * r1 + r0);
  }

  /** Division with remainder has one answer. */
  lemma DivMod(x: int, m: int, k: int, y: int)
    requires m > 0 && x == m * k + y && 0 <= y < m
    ensures x / m == k && x % m == y
  {
    var q, r := x / m, x % m;
    MulSign(m, q - k);
    assert m * (q - k) == m * q - m * k;
  }

  /** A nonzero multiple of m is at least m away from 0. */
  lemma MulSign(m: int, d: int)
    requires m > 0
    ensures d >= 1 ==> m * d >= m
    ensures d <= -1 ==> m * d <= -m
  {
  }

  /** A 32-bit reader that keeps all 32 bits; the rest of the model decodes TTLs with it. */
  function BigEndianCharsToU32(b: seq<u8>, off: nat): u32
    requires off + 4 <= |b|
  {
    b[off] as int * 0x100_0000 + b[off + 1] as int * 0x1_0000 + b[off + 2] as int * 256 + b[off + 3] as int
  }

  /** big_endian_chars_to_u_int32 as written: the sum of the four digits is right, but the
      function is declared to return u_int16_t, so only the value modulo 2^16 reaches the
      caller. */
  function BigEndianCharsToU32AsWritten(b: seq<u8>, off: nat): (v: u16)
    requires off + 4 <= |b|
    ensures v == BigEndianCharsToU16(b, off + 2)
  {
    (b[off] as int * 0x100_0000 + b[off + 1] as int * 0x1_0000 + b[off + 2] as int * 256 + b[off + 3] as int)
    % 0x1_0000
  }

  /** Reading back the four bytes of a value with the 32-bit reader gives the value. */
  lemma U32RoundTrip(value: u32)
    ensures BigEndianCharsToU32(U32Bytes(value), 0) == value
  {
    Base256(value);
  }

  /** With the source's reader only the low 16 bits come back: the TTL 65537 of
      lib/test/celest_dns_test.c:262 is stored as 00 01 00 01 and read back as 1. */
  lemma U32TruncatedAsWritten(value: u32)
    ensures BigEndianCharsToU32AsWritten(U32Bytes(value), 0) == value % 0x1_0000
    ensures U32Bytes(65537) == [0, 1, 0, 1]
    ensures BigEndianCharsToU32AsWritten(U32Bytes(65537), 0) == 1
  {
  }
}
