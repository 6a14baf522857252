/**
 * The wire frame shared by the device and the host tool:
 *
 *   prefix '#' | size | cmd | status | addr (4 bytes, little-endian) | data[size] | crc
 *
 * The first eight bytes are a packed header; `size` payload bytes follow and
 * one checksum byte closes the frame.  The checksum covers cmd, status, addr
 * and the payload, and not the prefix, the size or itself.
 */
module Packet {

  import opened Bytes
  import opened Crc8

  const PREFIX: byte := 0x23        // '#'
  const REPLY: byte := 0x80         // reply flag ORed into cmd

  const CMD_INFO: byte := 0x00
  const CMD_ERASE: byte := 0x01
  const CMD_WRITE: byte := 0x02
  const CMD_READ: byte := 0x03
  const CMD_VERIFY: byte := 0x04
  const CMD_BAUD: byte := 0x05
  const CMD_RESET: byte := 0xFF

  const STATUS_OK: byte := 0x00
  const STATUS_ERROR: byte := 0xFF

  // Offsets of the packed header fields (widths 1, 1, 1, 1 and 4).
  const OFF_PREFIX: nat := 0
  const OFF_SIZE: nat := 1
  const OFF_CMD: nat := 2
  const OFF_STATUS: nat := 3
  const OFF_ADDR: nat := 4
  const OFF_DATA: nat := 8

  /** sizeof(btl_packet_t): the packed header ends where `data` starts. */
  const HEADER_SIZE: nat := OFF_DATA

  const MAX_DATA_SIZE: nat := 64
  const MAX_PKT_SIZE: nat := MAX_DATA_SIZE + HEADER_SIZE + 1

  /** The bootloader's own flash footprint [BTL_ADDR, BTL_ADDR + BTL_SIZE). */
  const BTL_ADDR: u32 := 0xFE10000
  const BTL_SIZE: u32 := 0x4000

  /** btl_start_crc: the checksum starts at `cmd`. */
  const CRC_START: nat := OFF_CMD

  /** btl_size_pkt */
  function SizePkt(size: byte): nat
  {
    size as nat + HEADER_SIZE + 1
  }

  /** btl_size_crc */
  function SizeCrc(size: byte): nat
  {
    size as nat + (HEADER_SIZE - OFF_SIZE - 1)
  }

  /** btl_packet_crc: the offset of the checksum byte, `data[size]`. */
  function CrcPos(size: byte): nat
  {
    OFF_DATA + size as nat
  }

  /** The layout facts every frame relies on. */
  lemma Layout(size: byte)
    ensures HEADER_SIZE == 1 + 1 + 1 + 1 + 4
    ensures SizePkt(size) == size as nat + 9
    ensures SizeCrc(size) == size as nat + 6
    ensures CRC_START + SizeCrc(size) == CrcPos(size)
    ensures CrcPos(size) == SizePkt(size) - 1
    ensures MAX_PKT_SIZE == 73
    ensures size as nat <= MAX_DATA_SIZE <==> SizePkt(size) <= MAX_PKT_SIZE
  {
  }

  /** btl_set_u32, and the in-memory layout of the `addr` field on a
      little-endian target: least significant byte first. */
  function U32Le(v: u32): (b: seq<byte>)
    ensures |b| == 4
  {
    [ToByte(v % 256), ToByte(v / 256 % 256), ToByte(v / 256 / 256 % 256), ToByte(v / 256 / 256 / 256)]
  }

  /** btl_get_u32, and the value of a stored `addr` field. */
  function U32Of(b: seq<byte>): u32
    requires |b| >= 4
  {
    b[0] as int + 256 * (b[1] as int + 256 * (b[2] as int + 256 * b[3] as int))
  }

  /** Little-endian encoding and decoding are inverse to each other. */
  lemma U32RoundTrip(v: u32, b: seq<byte>)
    requires |b| == 4
    ensures U32Of(U32Le(v)) == v
    ensures U32Le(U32Of(b)) == b
  {
    U32DecodeEncode(v);
    U32EncodeDecode(b);
  }

  lemma U32DecodeEncode(v: u32)
    ensures U32Of(U32Le(v)) == v
  {
    var q1 := v / 256;
    var q2 := q1 / 256;
    var q3 := q2 / 256;
    assert v == v % 256 + 256 * q1;
    assert q1 == q1 % 256 + 256 * q2;
    assert q2 == q2 % 256 + 256 * q3;
    var e := U32Le(v);
    assert e[0] as int == v % 256 && e[1] as int == q1 % 256;
    assert e[2] as int == q2 % 256 && e[3] as int == q3;
  }

  lemma U32EncodeDecode(b: seq<byte>)
    requires |b| == 4
    ensures U32Le(U32Of(b)) == b
  {
    var x := U32Of(b);
    Digits(b[0] as int, b[1] as int, b[2] as int, b[3] as int, x);
    var d := U32Le(x);
    ByteValueInjective(d[0], b[0]);
    ByteValueInjective(d[1], b[1]);
    ByteValueInjective(d[2], b[2]);
    ByteValueInjective(d[3], b[3]);
  }

  /** The base-256 digits of a four-digit number are its digits. */
  lemma Digits(b0: int, b1: int, b2: int, b3: int, x: int)
    requires 0 <= b0 < 256 && 0 <= b1 < 256 && 0 <= b2 < 256 && 0 <= b3 < 256
    requires x == b0 + 256 * (b1 + 256 * (b2 + 256 * b3))
    ensures x % 256 == b0 && x / 256 % 256 == b1 && x / 256 / 256 % 256 == b2 && x / 256 / 256 / 256 == b3
  {
    var z := b2 + 256 * b3;
    var y := b1 + 256 * z;
    DigitSplit(b0, y);
    DigitSplit(b1, z);
    DigitSplit(b2, b3);
  }

  lemma DigitSplit(lo: int, hi: int)
    requires 0 <= lo < 256
    ensures (lo + 256 * hi) % 256 == lo && (lo + 256 * hi) / 256 == hi
  {
  }

  /** The bytes the checksum covers: cmd, status, addr and the payload. */
  function Covered(cmd: byte, status: byte, addr: u32, payload: seq<byte>): seq<byte>
  {
    [cmd, status] + U32Le(addr) + payload
  }

  /** A complete frame with a correct checksum. */
  function Frame(cmd: byte, status: byte, addr: u32, payload: seq<byte>): (f: seq<byte>)
    requires |payload| <= MAX_DATA_SIZE
    ensures |f| == SizePkt(ToByte(|payload|))
  {
    var body := Covered(cmd, status, addr, payload);
    [PREFIX, ToByte(|payload|)] + body + [CrcBuf(body)]
  }

  /** The checksum test: the byte at data[size] equals the checksum of the
      SizeCrc(size) bytes that start at `cmd`. */
  predicate CrcValid(b: seq<byte>)
    requires |b| > OFF_SIZE && |b| > CrcPos(b[OFF_SIZE])
  {
    b[CrcPos(b[OFF_SIZE])] == CrcBuf(b[CRC_START..CRC_START + SizeCrc(b[OFF_SIZE])])
  }

  /** Every field of a frame can be read back from its place in the layout,
      and the frame's checksum is valid. */
  lemma FrameFields(cmd: byte, status: byte, addr: u32, payload: seq<byte>)
    requires |payload| <= MAX_DATA_SIZE
    ensures var f := Frame(cmd, status, addr, payload);
      && f[OFF_PREFIX] == PREFIX
      && f[OFF_SIZE] as nat == |payload|
      && f[OFF_CMD] == cmd
      && f[OFF_STATUS] == status
      && U32Of(f[OFF_ADDR..OFF_DATA]) == addr
      && f[OFF_DATA..OFF_DATA + |payload|] == payload
      && f[CRC_START..CrcPos(f[OFF_SIZE])] == Covered(cmd, status, addr, payload)
      && CrcValid(f)
  {
    var f := Frame(cmd, status, addr, payload);
    var body := Covered(cmd, status, addr, payload);
    assert f == [PREFIX, ToByte(|payload|)] + body + [CrcBuf(body)];
    assert f[CRC_START..CrcPos(f[OFF_SIZE])] == body;
    assert body[6..] == payload && body[2..6] == U32Le(addr);
    assert f[OFF_DATA..OFF_DATA + |payload|] == body[6..];
    assert f[OFF_ADDR..OFF_DATA] == body[2..6];
    U32RoundTrip(addr, f[OFF_ADDR..OFF_DATA]);
  }

  /** A buffer that holds '#', a size, the covered bytes and their
      checksum, in layout order, starts with that frame. */
  lemma FrameOfParts(r: seq<byte>, size: byte, cmd: byte, status: byte, addr: u32, payload: seq<byte>)
    requires size as nat == |payload| <= MAX_DATA_SIZE && |r| > CrcPos(size)
    requires r[OFF_PREFIX] == PREFIX && r[OFF_SIZE] == size
    requires r[CRC_START..CrcPos(size)] == Covered(cmd, status, addr, payload)
    requires r[CrcPos(size)] == CrcBuf(Covered(cmd, status, addr, payload))
    ensures r[..SizePkt(size)] == Frame(cmd, status, addr, payload)
    ensures CrcValid(r)
  {
    var n := size as nat;
    ByteValueInjective(size, ToByte(|payload|));
    Split3(r, n);
  }

  lemma Split3(r: seq<byte>, n: nat)
    requires n + 9 <= |r|
    ensures r[..n + 9] == [r[0], r[1]] + r[2..n + 8] + [r[n + 8]]
  {
  }

  /** A frame's checksum rejects the frame with any single covered byte changed. */
  lemma FrameDetectsCorruption(f: seq<byte>, g: seq<byte>, k: nat)
    requires |f| == |g| && |f| > OFF_SIZE && |f| > CrcPos(f[OFF_SIZE])
    requires f[OFF_SIZE] == g[OFF_SIZE] && f[CrcPos(f[OFF_SIZE])] == g[CrcPos(g[OFF_SIZE])]
    requires CRC_START <= k < CrcPos(f[OFF_SIZE]) && f[k] != g[k]
    requires forall i :: 0 <= i < |f| && i != k ==> f[i] == g[i]
    requires CrcValid(f)
    ensures !CrcValid(g)
  {
    var n := f[OFF_SIZE];
    var s := f[CRC_START..CRC_START + SizeCrc(n)];
    var t := g[CRC_START..CRC_START + SizeCrc(n)];
    Crc8.SingleByteChangeDetected(s, t, k - CRC_START);
  }
}
