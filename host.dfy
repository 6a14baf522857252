/**
 * The host tool's side of the bootloader protocol (tools/src/btlproto.c):
 * btl_write encodes and sends one frame; btl_read_byte and btl_read
 * assemble one frame from the serial port in a 73-byte stack buffer.
 *
 * The serial port is abstract: `Port.sent` is everything written to it and
 * `Port.input` the results its next serial_read calls of one byte will
 * give.  The host decoder never checks the size field, so a size over 64
 * makes it store past the end of its buffer; the model stops there with the
 * outcome BufferOverrun instead of going on with undefined behaviour.
 */
module HostProto {

  import opened Bytes
  import opened Crc8
  import opened Packet

  /** A serial_read result other than 1: 0 (nothing read) or an error. */
  type ReadErr = e: int | e <= 0

  /** The outcome of one serial_read of one byte. */
  datatype ReadEvent = Got(c: byte) | Short(code: ReadErr)

  /** The next serial_read result and the results after it.  Once the
      scripted results run out, every read returns 0. */
  function NextEvent(input: seq<ReadEvent>): (r: (ReadEvent, seq<ReadEvent>))
    ensures input == [] ==> r == (Short(0), [])
    ensures input != [] ==> r == (input[0], input[1..])
  {
    if input == [] then (Short(0), []) else (input[0], input[1..])
  }

  /** The results of reading the bytes `s` one by one. */
  function AsEvents(s: seq<byte>): (e: seq<ReadEvent>)
    ensures |e| == |s| && forall i :: 0 <= i < |s| ==> e[i] == Got(s[i])
  {
    seq(|s|, i requires 0 <= i < |s| => Got(s[i]))
  }

  /** The abstract serial port. */
  class Port {
    var sent: seq<byte>
    var input: seq<ReadEvent>

    constructor (input: seq<ReadEvent>)
      ensures this.input == input && sent == []
    {
      this.input := input;
      sent := [];
    }

    /** serial_write: either all of `bytes` go out and their count is
        returned, or nothing goes out and -1 is returned. */
    method Write(bytes: seq<byte>) returns (r: int)
      modifies this
      ensures input == old(input)
      ensures (r == |bytes| && sent == old(sent) + bytes) || (r == -1 && sent == old(sent))
    {
      var ok: bool :| true;
      if ok {
        sent := sent + bytes;
        r := |bytes|;
      } else {
        r := -1;
      }
    }

    /** serial_read of one byte. */
    method Read() returns (ev: ReadEvent)
      modifies this
      ensures sent == old(sent)
      ensures (ev, input) == NextEvent(old(input))
    {
      ev, input := NextEvent(input).0, NextEvent(input).1;
    }
  }

  // ---------------------------------------------------------------------
  // The decoder, on values

  /** What one call of btl_read_byte returns, or that it stores past the
      end of the buffer. */
  datatype Step = Ret(n: int) | WritePastEnd

  /** btl_read_byte with `held` the first `len` bytes of the buffer. */
  function ReadByteStep(held: seq<byte>, ev: ReadEvent): (s: Step)
    ensures ev.Short? ==> s == Ret(ev.code)
    ensures s.Ret? && s.n > 0 ==> ev.Got?
    ensures s.Ret? && 0 < s.n < 256 ==> s.n == |held| + 1
    ensures s.Ret? ==> s.n <= 256
    ensures s.Ret? && s.n == 256 ==> |held| >= 1 && CompletedFrame(held + [ev.c])
  {
    match ev
    case Short(e) => Ret(e)
    case Got(c) =>
      if |held| == 0 then Ret(if c != PREFIX then 0 else 1)
      else if |held| >= MAX_PKT_SIZE then WritePastEnd
      else HeldStep(held + [c])
  }

  /** btl_read_byte once the new byte is stored after the '#': the length
      while the header or the frame is incomplete, then 256 for a valid
      checksum and 0 for a bad one. */
  function HeldStep(h: seq<byte>): (s: Step)
    requires 1 < |h| <= MAX_PKT_SIZE
    ensures s.Ret? && 0 <= s.n <= 256
    ensures 0 < s.n < 256 <==> |h| < HEADER_SIZE || |h| < SizePkt(h[OFF_SIZE])
    ensures s.n == 256 ==> CompletedFrame(h)
  {
    if |h| < HEADER_SIZE then Ret(|h|)
    else if |h| < SizePkt(h[OFF_SIZE]) then Ret(|h|)
    else if CrcValid(h) then Ret(256)
    else Ret(0)
  }

  /** At least a whole frame is held and its checksum is valid. */
  predicate CompletedFrame(f: seq<byte>)
  {
    |f| > OFF_SIZE && |f| >= SizePkt(f[OFF_SIZE]) && CrcValid(f)
  }

  /** The bytes btl_read can be holding between two calls: nothing, or a
      '#' followed by less than a header or less than a frame. */
  predicate Partial(held: seq<byte>)
  {
    held == [] || (held[OFF_PREFIX] == PREFIX && (|held| < HEADER_SIZE || |held| < SizePkt(held[OFF_SIZE])))
  }

  /** A frame as btl_read accepts it: '#', a size of at most 64, exactly
      SizePkt(size) bytes and a valid checksum. */
  predicate Accepted(f: seq<byte>)
  {
    && |f| > OFF_SIZE && f[OFF_PREFIX] == PREFIX && f[OFF_SIZE] as nat <= MAX_DATA_SIZE
    && |f| == SizePkt(f[OFF_SIZE]) && CrcValid(f)
  }

  /** How a btl_read call ends. */
  datatype Received = Complete(frame: seq<byte>) | Error(code: int) | BufferOverrun

  /** btl_read from `held` bytes and `fail` zero results so far: how it
      ends and the serial results it leaves unread. */
  function Decode(input: seq<ReadEvent>, held: seq<byte>, fail: nat): (res: (Received, seq<ReadEvent>))
    requires fail <= 3 && Partial(held)
    ensures |res.1| <= |input|
    ensures res.0.Complete? ==> Accepted(res.0.frame)
    ensures res.0.Error? ==> res.0.code < 0
    decreases |input|, 3 - fail
  {
    var (ev, rest) := NextEvent(input);
    match ReadByteStep(held, ev)
    case WritePastEnd => (BufferOverrun, rest)
    case Ret(sz) =>
      if sz == 256 then (Complete(held + [ev.c]), rest)
      else if sz < 0 then (Error(sz), rest)
      else if sz == 0 then
        (if fail + 1 > 3 then (Error(-1), rest) else Decode(rest, [], fail + 1))
      else Decode(rest, held + [ev.c], fail)
  }

  /** One turn of btl_read's loop. */
  lemma DecodeStep(input: seq<ReadEvent>, held: seq<byte>, fail: nat)
    requires fail <= 3 && Partial(held)
    ensures var (ev, rest) := NextEvent(input);
      var st := ReadByteStep(held, ev);
      var d := Decode(input, held, fail);
      && (st.WritePastEnd? ==> d == (BufferOverrun, rest))
      && (st.Ret? && st.n < 0 ==> d == (Error(st.n), rest))
      && (st.Ret? && st.n == 0 ==> d == if fail == 3 then (Error(-1), rest) else Decode(rest, [], fail + 1))
      && (st.Ret? && 0 < st.n < 256 ==> Partial(held + [ev.c]) && d == Decode(rest, held + [ev.c], fail))
      && (st.Ret? && st.n == 256 ==> d == (Complete(held + [ev.c]), rest))
  {
  }

  // ---------------------------------------------------------------------
  // Properties of the decoder

  /** From an empty buffer a '#' is kept and anything else is a zero
      result; a serial error is passed on whatever is held. */
  lemma ReadByteStart(c: byte, held: seq<byte>, e: ReadErr)
    ensures ReadByteStep([], Got(c)) == Ret(if c == PREFIX then 1 else 0)
    ensures ReadByteStep(held, Short(e)) == Ret(e)
  {
  }

  /** A '#', a size field of at most 64 and exactly as many bytes as it
      announces; the checksum may or may not match. */
  predicate Shaped(f: seq<byte>)
  {
    |f| > OFF_SIZE && f[OFF_PREFIX] == PREFIX && f[OFF_SIZE] as nat <= MAX_DATA_SIZE
    && |f| == SizePkt(f[OFF_SIZE])
  }

  /** While a frame is incomplete the new length is returned; on its last
      byte 256 is returned if the checksum matches and 0 if not. */
  lemma ReadByteFrame(f: seq<byte>, i: nat)
    requires Shaped(f) && 1 <= i < |f|
    ensures ReadByteStep(f[..i], Got(f[i])) ==
      if i + 1 < |f| then Ret(i + 1) else if CrcValid(f) then Ret(256) else Ret(0)
  {
    assert f[..i] + [f[i]] == f[..i + 1];
    if i + 1 == |f| {
      assert f[..i + 1] == f;
    }
  }

  /** A byte that btl_read_byte keeps: reading goes on with it held. */
  lemma DecodeKeeps(input: seq<ReadEvent>, held: seq<byte>, fail: nat, c: byte)
    requires input != [] && input[0] == Got(c) && fail <= 3
    requires Partial(held) && Partial(held + [c])
    requires ReadByteStep(held, Got(c)) == Ret(|held| + 1)
    ensures Decode(input, held, fail) == Decode(input[1..], held + [c], fail)
  {
  }

  /** Every byte of a frame but the last is kept. */
  lemma DecodeInside(f: seq<byte>, i: nat, rest: seq<ReadEvent>, fail: nat)
    requires Shaped(f) && i + 1 < |f| && fail <= 3
    ensures Partial(f[..i]) && Partial(f[..i + 1])
    ensures Decode(AsEvents(f[i..]) + rest, f[..i], fail)
         == Decode(AsEvents(f[i + 1..]) + rest, f[..i + 1], fail)
  {
    var input := AsEvents(f[i..]) + rest;
    assert input[0] == Got(f[i]) && input[1..] == AsEvents(f[i + 1..]) + rest;
    assert f[..i] + [f[i]] == f[..i + 1];
    if i == 0 {
      assert ReadByteStep([], Got(f[0])) == Ret(1);
    } else {
      ReadByteFrame(f, i);
    }
    DecodeKeeps(input, f[..i], fail, f[i]);
  }

  /** The last byte of a frame ends the frame: with a matching checksum
      btl_read returns it, otherwise it counts as a zero result. */
  lemma DecodeLast(f: seq<byte>, rest: seq<ReadEvent>, fail: nat)
    requires Shaped(f) && fail <= 3
    ensures Partial(f[..|f| - 1])
    ensures Decode(AsEvents(f[|f| - 1..]) + rest, f[..|f| - 1], fail) ==
      if CrcValid(f) then (Complete(f), rest)
      else if fail == 3 then (Error(-1), rest)
      else Decode(rest, [], fail + 1)
  {
    var i := |f| - 1;
    var input := AsEvents(f[i..]) + rest;
    assert input == [Got(f[i])] + rest && input[1..] == rest;
    assert f[..i] + [f[i]] == f;
    ReadByteFrame(f, i);
  }

  /** From byte `i` on, a whole frame is read to its end. */
  lemma {:induction false} DecodeFrom(f: seq<byte>, i: nat, rest: seq<ReadEvent>, fail: nat)
    requires Shaped(f) && i < |f| && fail <= 3
    ensures Partial(f[..i])
    ensures Decode(AsEvents(f[i..]) + rest, f[..i], fail) ==
      if CrcValid(f) then (Complete(f), rest)
      else if fail == 3 then (Error(-1), rest)
      else Decode(rest, [], fail + 1)
    decreases |f| - i
  {
    if i + 1 < |f| {
      DecodeInside(f, i, rest, fail);
      DecodeFrom(f, i + 1, rest, fail);
    } else {
      DecodeLast(f, rest, fail);
    }
  }

  /** Reading a frame that btl_write produced, from an empty buffer and
      with any number of earlier zero results, completes on its last byte
      with that frame and leaves what follows unread. */
  lemma DecodeFrame(cmd: byte, status: byte, addr: u32, payload: seq<byte>, rest: seq<ReadEvent>, fail: nat)
    requires |payload| <= MAX_DATA_SIZE && fail <= 3
    ensures var f := Frame(cmd, status, addr, payload);
      Decode(AsEvents(f) + rest, [], fail) == (Complete(f), rest)
  {
    var f := Frame(cmd, status, addr, payload);
    FrameFields(cmd, status, addr, payload);
    DecodeFrom(f, 0, rest, fail);
    assert f[0..] == f;
  }

  /** A whole frame with a bad checksum is one zero result: reading goes on
      from an empty buffer with the count one higher, or gives up with -1
      if that was the fourth. */
  lemma BadFrameCounts(f: seq<byte>, rest: seq<ReadEvent>, fail: nat)
    requires Shaped(f) && !CrcValid(f) && fail <= 3
    ensures Decode(AsEvents(f) + rest, [], fail) ==
      if fail == 3 then (Error(-1), rest) else Decode(rest, [], fail + 1)
  {
    DecodeFrom(f, 0, rest, fail);
    assert f[0..] == f;
  }

  /** The host decoder has no size check: after a header whose size field
      is over 64 it keeps storing, and the 74th byte goes past the end of
      the 73-byte buffer. */
  lemma DecodeOversizeOverruns(s: seq<byte>, rest: seq<ReadEvent>, fail: nat)
    requires |s| == MAX_PKT_SIZE + 1 && s[OFF_PREFIX] == PREFIX
    requires s[OFF_SIZE] as nat > MAX_DATA_SIZE && fail <= 3
    ensures Decode(AsEvents(s) + rest, [], fail) == (BufferOverrun, rest)
  {
    OversizeFrom(s, 0, rest, fail);
    assert s[0..] == s;
  }

  lemma {:induction false} OversizeFrom(s: seq<byte>, i: nat, rest: seq<ReadEvent>, fail: nat)
    requires |s| == MAX_PKT_SIZE + 1 && s[OFF_PREFIX] == PREFIX
    requires s[OFF_SIZE] as nat > MAX_DATA_SIZE && fail <= 3 && i < |s|
    ensures Partial(s[..i])
    ensures Decode(AsEvents(s[i..]) + rest, s[..i], fail) == (BufferOverrun, rest)
    decreases |s| - i
  {
    if i < MAX_PKT_SIZE {
      OversizeInside(s, i, rest, fail);
      OversizeFrom(s, i + 1, rest, fail);
    } else {
      var input := AsEvents(s[i..]) + rest;
      assert input[0] == Got(s[i]) && input[1..] == rest;
    }
  }

  lemma OversizeInside(s: seq<byte>, i: nat, rest: seq<ReadEvent>, fail: nat)
    requires |s| == MAX_PKT_SIZE + 1 && s[OFF_PREFIX] == PREFIX
    requires s[OFF_SIZE] as nat > MAX_DATA_SIZE && fail <= 3 && i < MAX_PKT_SIZE
    ensures Partial(s[..i]) && Partial(s[..i + 1])
    ensures Decode(AsEvents(s[i..]) + rest, s[..i], fail)
         == Decode(AsEvents(s[i + 1..]) + rest, s[..i + 1], fail)
  {
    var input := AsEvents(s[i..]) + rest;
    assert input[0] == Got(s[i]) && input[1..] == AsEvents(s[i + 1..]) + rest;
    assert s[..i] + [s[i]] == s[..i + 1];
    if i > OFF_SIZE {
      assert s[..i + 1][OFF_SIZE] == s[OFF_SIZE];
    }
    DecodeKeeps(input, s[..i], fail, s[i]);
  }

  /** Four bytes of noise from a fresh call make btl_read give up with -1;
      the zero results are counted across the whole call, so fewer are
      needed once some have been seen. */
  lemma {:induction false} DecodeNoiseFails(noise: seq<byte>, rest: seq<ReadEvent>, fail: nat)
    requires fail <= 3 && |noise| == 4 - fail
    requires forall i :: 0 <= i < |noise| ==> noise[i] != PREFIX
    ensures Decode(AsEvents(noise) + rest, [], fail) == (Error(-1), rest)
    decreases |noise|
  {
    var input := AsEvents(noise) + rest;
    assert input[0] == Got(noise[0]) && input[1..] == AsEvents(noise[1..]) + rest;
    if fail < 3 {
      DecodeNoiseFails(noise[1..], rest, fail + 1);
    }
  }

  // ---------------------------------------------------------------------
  // btl_write, btl_read_byte and btl_read

  /** btl_write: -1 and nothing sent for more than 64 payload bytes;
      otherwise the frame with status 0 (the `status` argument is not
      used) is handed to serial_write, whose result is returned. */
  method Write(port: Port, cmd: byte, status: byte, addr: u32, payload: seq<byte>) returns (r: int)
    modifies port
    ensures port.input == old(port.input)
    ensures |payload| > MAX_DATA_SIZE ==> r == -1 && port.sent == old(port.sent)
    ensures |payload| <= MAX_DATA_SIZE ==>
      var f := Frame(cmd, STATUS_OK, addr, payload);
      || (r == |f| && port.sent == old(port.sent) + f)
      || (r == -1 && port.sent == old(port.sent))
  {
    var buf := new byte[MAX_PKT_SIZE];
    PutHeader(buf, ToByte(|payload| % 256), cmd, U32Le(addr));
    if |payload| > MAX_DATA_SIZE {
      return -1;
    }
    var n := Seal(buf, cmd, addr, payload);
    r := port.Write(buf[..n]);
  }

  /** The rest of btl_write's encoding once the header is in place: copy
      the payload, then store the checksum of cmd..payload after it.  `n`
      is the frame's length. */
  method Seal(buf: array<byte>, cmd: byte, addr: u32, payload: seq<byte>) returns (n: nat)
    requires buf.Length == MAX_PKT_SIZE && |payload| <= MAX_DATA_SIZE
    requires buf[..OFF_DATA] == [PREFIX, ToByte(|payload| % 256), cmd, STATUS_OK] + U32Le(addr)
    modifies buf
    ensures n <= MAX_PKT_SIZE && buf[..n] == Frame(cmd, STATUS_OK, addr, payload)
  {
    PutPayload(buf, payload);
    FilledFrame(buf[..], cmd, addr, payload);
    var size := buf[OFF_SIZE];
    n := PutCrc(buf, size);
  }

  /** crc8_cal_buf over the `size`-dependent span and its store right
      after the payload; `n` is btl_size_pkt(size). */
  method PutCrc(buf: array<byte>, size: byte) returns (n: nat)
    requires buf.Length == MAX_PKT_SIZE && size as nat <= MAX_DATA_SIZE
    modifies buf
    ensures n == SizePkt(size)
    ensures buf[..] == old(buf[..])[CrcPos(size) := CrcBuf(old(buf[CRC_START..CRC_START + SizeCrc(size)]))]
  {
    var crc := CalBuf(buf, CRC_START, SizeCrc(size));
    buf[CrcPos(size)] := crc;
    n := SizePkt(size);
  }

  /** The header fields btl_write sets: prefix, size, cmd, status 0 and the
      address, least significant byte first. */
  method PutHeader(buf: array<byte>, size: byte, cmd: byte, le: seq<byte>)
    requires buf.Length == MAX_PKT_SIZE && |le| == 4
    modifies buf
    ensures buf[..OFF_DATA] == [PREFIX, size, cmd, STATUS_OK] + le
    ensures buf[OFF_DATA..] == old(buf[OFF_DATA..])
  {
    buf[OFF_PREFIX] := PREFIX;
    buf[OFF_SIZE] := size;
    buf[OFF_CMD] := cmd;
    buf[OFF_STATUS] := STATUS_OK;
    buf[4], buf[5], buf[6], buf[7] := le[0], le[1], le[2], le[3];
    HeaderBytes(buf[..], size, cmd, le);
  }

  lemma HeaderBytes(b: seq<byte>, size: byte, cmd: byte, le: seq<byte>)
    requires |b| >= OFF_DATA && |le| == 4
    requires b[0] == PREFIX && b[1] == size && b[2] == cmd && b[3] == STATUS_OK
    requires b[4] == le[0] && b[5] == le[1] && b[6] == le[2] && b[7] == le[3]
    ensures b[..OFF_DATA] == [PREFIX, size, cmd, STATUS_OK] + le
  {
  }

  /** memcpy of the payload to pkt->data. */
  method PutPayload(buf: array<byte>, payload: seq<byte>)
    requires buf.Length == MAX_PKT_SIZE && |payload| <= MAX_DATA_SIZE
    modifies buf
    ensures buf[..OFF_DATA] == old(buf[..OFF_DATA])
    ensures buf[OFF_DATA..OFF_DATA + |payload|] == payload
  {
    forall i | 0 <= i < |payload| {
      buf[OFF_DATA + i] := payload[i];
    }
  }

  /** The buffer btl_write fills: once the header and payload are in place
      the checksummed span is cmd, status, addr and the payload, and storing
      its checksum completes Frame. */
  lemma FilledFrame(b: seq<byte>, cmd: byte, addr: u32, payload: seq<byte>)
    requires |b| == MAX_PKT_SIZE && |payload| <= MAX_DATA_SIZE
    requires b[..OFF_DATA] == [PREFIX, ToByte(|payload| % 256), cmd, STATUS_OK] + U32Le(addr)
    requires b[OFF_DATA..OFF_DATA + |payload|] == payload
    ensures var size := b[OFF_SIZE];
      var body := Covered(cmd, STATUS_OK, addr, payload);
      && size as nat <= MAX_DATA_SIZE
      && b[CRC_START..CRC_START + SizeCrc(size)] == body
      && b[CrcPos(size) := CrcBuf(body)][..SizePkt(size)] == Frame(cmd, STATUS_OK, addr, payload)
  {
    var size := b[OFF_SIZE];
    SizeField(b, cmd, U32Le(addr), payload);
    FilledBody(b, size, cmd, U32Le(addr), payload);
    FilledWithCrc(b, size, Covered(cmd, STATUS_OK, addr, payload));
  }

  lemma SizeField(b: seq<byte>, cmd: byte, le: seq<byte>, payload: seq<byte>)
    requires |b| == MAX_PKT_SIZE && |payload| <= MAX_DATA_SIZE && |le| == 4
    requires b[..OFF_DATA] == [PREFIX, ToByte(|payload| % 256), cmd, STATUS_OK] + le
    ensures b[OFF_SIZE] == ToByte(|payload|) && b[OFF_SIZE] as nat == |payload| && b[OFF_PREFIX] == PREFIX
    ensures b[..OFF_DATA] == [PREFIX, b[OFF_SIZE], cmd, STATUS_OK] + le
  {
    assert b[..OFF_DATA][OFF_SIZE] == b[OFF_SIZE];
    assert b[..OFF_DATA][OFF_PREFIX] == b[OFF_PREFIX];
  }

  lemma FilledBody(b: seq<byte>, size: byte, cmd: byte, le: seq<byte>, payload: seq<byte>)
    requires |b| == MAX_PKT_SIZE && |payload| <= MAX_DATA_SIZE && |le| == 4
    requires size == b[OFF_SIZE] && size as nat == |payload|
    requires b[..OFF_DATA] == [PREFIX, size, cmd, STATUS_OK] + le
    requires b[OFF_DATA..OFF_DATA + |payload|] == payload
    ensures b[CRC_START..CRC_START + SizeCrc(size)] == [cmd, STATUS_OK] + le + payload
  {
    var n := |payload|;
    assert CRC_START + SizeCrc(size) == OFF_DATA + n;
    assert b[OFF_ADDR..OFF_DATA] == b[..OFF_DATA][OFF_ADDR..];
    assert b[CRC_START..OFF_DATA + n] == [b[2], b[3]] + b[OFF_ADDR..OFF_DATA] + b[OFF_DATA..OFF_DATA + n];
  }

  lemma FilledWithCrc(b: seq<byte>, size: byte, body: seq<byte>)
    requires |b| == MAX_PKT_SIZE && size == b[OFF_SIZE] && size as nat <= MAX_DATA_SIZE
    requires b[OFF_PREFIX] == PREFIX && b[CRC_START..CRC_START + SizeCrc(size)] == body
    ensures b[CrcPos(size) := CrcBuf(body)][..SizePkt(size)] == [PREFIX, size] + body + [CrcBuf(body)]
  {
    var n := size as nat;
    var c := b[OFF_DATA + n := CrcBuf(body)];
    assert c[CRC_START..OFF_DATA + n] == b[CRC_START..OFF_DATA + n];
    assert c[..OFF_DATA + n + 1] == [c[0], c[1]] + c[CRC_START..OFF_DATA + n] + [c[OFF_DATA + n]];
  }

  lemma SliceOfPrefix(a: array<byte>, n: nat, i: nat, j: nat)
    requires i <= j <= n <= a.Length
    ensures a[i..j] == a[..n][i..j]
  {
  }

  /** btl_read_byte on a buffer holding `len` bytes: read one byte, store
      it at buf[len] and return as ReadByteStep says. */
  method ReadByte(port: Port, buf: array<byte>, len: nat) returns (s: Step)
    requires buf.Length == MAX_PKT_SIZE && len <= MAX_PKT_SIZE
    modifies port, buf
    ensures port.sent == old(port.sent) && port.input == NextEvent(old(port.input)).1
    ensures var ev := NextEvent(old(port.input)).0;
      && s == ReadByteStep(old(buf[..len]), ev)
      && buf[..] == (if ev.Got? && len < MAX_PKT_SIZE then old(buf[..])[len := ev.c] else old(buf[..]))
      && (ev.Got? && len < MAX_PKT_SIZE ==> buf[..len + 1] == old(buf[..len]) + [ev.c])
  {
    var ev := port.Read();
    if ev.Short? {
      return Ret(ev.code);
    }
    var c := ev.c;
    if len >= MAX_PKT_SIZE {
      return WritePastEnd;
    }
    buf[len] := c;
    assert buf[..len + 1] == old(buf[..len]) + [c];
    if len == 0 {
      if c != PREFIX {
        return Ret(0);
      }
      return Ret(1);
    }
    s := Classify(buf, len + 1);
  }

  /** The tail of btl_read_byte for a buffer now holding `n` bytes:
      compare the stored checksum once the frame is complete. */
  method Classify(buf: array<byte>, n: nat) returns (s: Step)
    requires 1 < n <= buf.Length && n <= MAX_PKT_SIZE
    ensures s == HeldStep(buf[..n])
  {
    if n < HEADER_SIZE {
      return Ret(n);
    }
    if n < SizePkt(buf[OFF_SIZE]) {
      return Ret(n);
    }
    var size := buf[OFF_SIZE];
    var crc := CalBuf(buf, CRC_START, SizeCrc(size));
    SliceOfPrefix(buf, n, CRC_START, CRC_START + SizeCrc(size));
    if buf[CrcPos(size)] != crc {
      return Ret(0);
    }
    return Ret(256);
  }

  /** What btl_read hands back for the outcome `res`: the error code, or a
      complete frame's size, cmd, status, addr and payload. */
  predicate Delivered(res: Received, r: int, overrun: bool, cmd: byte, status: byte, addr: u32, data: seq<byte>)
    requires res.Complete? ==> Accepted(res.frame)
  {
    && (res.BufferOverrun? <==> overrun)
    && (res.Error? ==> r == res.code)
    && (res.Complete? ==>
         var f := res.frame;
         && r == f[OFF_SIZE] as int && cmd == f[OFF_CMD] && status == f[OFF_STATUS]
         && addr == U32Of(f[OFF_ADDR..OFF_DATA]) && data == f[OFF_DATA..CrcPos(f[OFF_SIZE])])
  }

  /** btl_read: feed bytes until a frame completes, a serial error occurs
      or the fourth zero result; a complete frame's size, cmd, status,
      addr and payload are handed back.  `overrun` reports that the
      decoder went past its buffer. */
  method Read(port: Port) returns (r: int, overrun: bool, cmd: byte, status: byte, addr: u32, data: seq<byte>)
    modifies port
    ensures port.sent == old(port.sent) && port.input == Decode(old(port.input), [], 0).1
    ensures Delivered(Decode(old(port.input), [], 0).0, r, overrun, cmd, status, addr, data)
  {
    var buf := new byte[MAX_PKT_SIZE];
    var len := 0;
    var fail := 0;
    r, overrun, cmd, status, addr, data := 0, false, 0, 0, 0, [];
    while true
      invariant len <= MAX_PKT_SIZE && fail <= 3 && Partial(buf[..len])
      invariant port.sent == old(port.sent)
      invariant Decode(port.input, buf[..len], fail) == Decode(old(port.input), [], 0)
      decreases |port.input|, 3 - fail
    {
      var s := ReadTurn(port, buf, len, fail);
      if s.WritePastEnd? {
        overrun := true;
        return;
      }
      var sz := s.n;
      if sz == 256 {
        len := len + 1;
        break;
      }
      if sz < 0 {
        r := sz;
        return;
      }
      len := sz;
      if sz == 0 {
        fail := fail + 1;
        if fail > 3 {
          r := -1;
          return;
        }
      }
    }
    r, cmd, status, addr, data := Unpack(buf, len);
  }

  /** One turn of btl_read's loop: btl_read_byte, and what it means for
      the outcome of the whole read. */
  method ReadTurn(port: Port, buf: array<byte>, len: nat, fail: nat) returns (s: Step)
    requires buf.Length == MAX_PKT_SIZE && len <= MAX_PKT_SIZE && fail <= 3 && Partial(buf[..len])
    modifies port, buf
    ensures port.sent == old(port.sent) && port.input == NextEvent(old(port.input)).1
    ensures old(port.input) == [] ==> s == Ret(0)
    ensures s.Ret? ==> s.n <= 256
    ensures var d := Decode(old(port.input), old(buf[..len]), fail);
      && (s.WritePastEnd? ==> d == (BufferOverrun, port.input))
      && (s.Ret? && s.n < 0 ==> d == (Error(s.n), port.input))
      && (s.Ret? && s.n == 0 ==> d == if fail == 3 then (Error(-1), port.input) else Decode(port.input, [], fail + 1))
      && (s.Ret? && 0 < s.n < 256 ==>
           s.n <= MAX_PKT_SIZE && Partial(buf[..s.n]) && d == Decode(port.input, buf[..s.n], fail))
      && (s.Ret? && s.n == 256 ==> len < MAX_PKT_SIZE && d == (Complete(buf[..len + 1]), port.input))
  {
    DecodeStep(port.input, buf[..len], fail);
    s := ReadByte(port, buf, len);
  }

  /** The fields btl_read hands back from an accepted frame held in the
      first `len` bytes of the buffer: size, cmd, status, addr and the
      payload. */
  method Unpack(buf: array<byte>, len: nat) returns (r: int, cmd: byte, status: byte, addr: u32, data: seq<byte>)
    requires len <= buf.Length && Accepted(buf[..len])
    ensures Delivered(Complete(buf[..len]), r, false, cmd, status, addr, data)
  {
    var size := buf[OFF_SIZE];
    data := buf[OFF_DATA..OFF_DATA + size as nat];
    cmd := buf[OFF_CMD];
    status := buf[OFF_STATUS];
    addr := U32Of(buf[OFF_ADDR..OFF_DATA]);
    r := size as int;
    SliceOfPrefix(buf, len, OFF_DATA, OFF_DATA + size as nat);
    SliceOfPrefix(buf, len, OFF_ADDR, OFF_DATA);
  }
}
