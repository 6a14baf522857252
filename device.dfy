/**
 * The device side of the bootloader protocol (src/btlproto.c): a byte-feed
 * state machine that assembles one frame in a 73-byte buffer, and a
 * dispatcher that checks the frame, runs one command against the flash and
 * rewrites the same buffer into the reply.
 *
 * The bootloader-region guard `btl_area` is modelled exactly as written
 * (`Area`).  It does not protect the whole region; `Overlaps` is the
 * intended guard, and `Dispatch` can be run with either.
 */
module DeviceProto {

  import opened Bytes
  import opened Crc8
  import opened Packet
  import Flash

  /** BTL_VERSION_STR with its terminating NUL: "BTL V1.0\0". */
  const VERSION: seq<byte> := [0x42, 0x54, 0x4C, 0x20, 0x56, 0x31, 0x2E, 0x30, 0x00]

  /** One past the last byte of the bootloader region. */
  const BTL_END: int := BTL_ADDR + BTL_SIZE

  // ---------------------------------------------------------------------
  // The region guard

  /** btl_area as written: `addr + size` is a uint32_t sum and `size` has
      already been narrowed to 8 bits by the call. */
  predicate Area(addr: u32, size: byte)
  {
    var end := Wrap32(addr + size as int);
    (addr >= BTL_ADDR && end < BTL_END) || (end >= BTL_ADDR && end < BTL_END)
  }

  /** Without wrap-around the guard only looks at the end of the range:
      it holds iff `addr + size` falls inside the region. */
  lemma AreaWithoutWrap(addr: u32, size: byte)
    requires addr + size as int < TWO_TO_32
    ensures Area(addr, size) <==> BTL_ADDR <= addr + size as int < BTL_END
  {
  }

  /** Is the bootloader byte `x` among the `n` bytes that start at `addr`
      (addresses wrapping at 2^32)? */
  predicate Hits(addr: u32, n: int, x: u32)
  {
    Flash.InRange(x, addr, n) && BTL_ADDR <= x < BTL_END
  }

  /** The intended guard: the `n` bytes at `addr` share at least one byte
      with the bootloader region. */
  predicate Overlaps(addr: u32, n: int)
  {
    n > 0 && (Flash.InRange(BTL_ADDR, addr, n) || (BTL_ADDR <= addr < BTL_END))
  }

  /** `Overlaps` is exact: it holds iff some byte of the range lies in the
      bootloader region. */
  lemma OverlapsIff(addr: u32, n: int)
    ensures Overlaps(addr, n) <==> exists x: u32 :: Hits(addr, n, x)
  {
    if Overlaps(addr, n) {
      if Flash.InRange(BTL_ADDR, addr, n) {
        assert Hits(addr, n, BTL_ADDR);
      } else {
        assert Flash.InRange(addr, addr, n);
        assert Hits(addr, n, addr);
      }
    }
    if x: u32 :| Hits(addr, n, x) {
      var i := (x - addr) % TWO_TO_32;
      var j := x - BTL_ADDR;
      assert 0 <= i < n && 0 <= j < BTL_SIZE;
      if i >= j {
        assert (BTL_ADDR - addr) % TWO_TO_32 == i - j;
      } else {
        assert addr == x - i || addr == x - i + TWO_TO_32;
        assert addr == x - i;
      }
    }
  }

  /** Which guard the dispatcher applies. */
  datatype Guard = AsWritten | Corrected

  /** Whether `guard` refuses the `size` bytes at `addr` (WRITE, VERIFY). */
  predicate Refuses(guard: Guard, addr: u32, size: byte)
  {
    match guard
    case AsWritten => Area(addr, size)
    case Corrected => Overlaps(addr, size as int)
  }

  /** Whether `guard` refuses an ERASE of `n` bytes at `addr`: as written,
      `n` is narrowed to uint8_t by the call to btl_area. */
  predicate RefusesErase(guard: Guard, addr: u32, n: u32)
  {
    match guard
    case AsWritten => Area(addr, ToByte(n % 256))
    case Corrected => Overlaps(addr, n)
  }

  // ---------------------------------------------------------------------
  // Fields of a request held in the buffer

  /** A buffer the size of btl_if_t.buf whose size field is in range, as
      btl_read_byte guarantees for every frame it completes. */
  predicate WellSized(b: seq<byte>)
  {
    |b| == MAX_PKT_SIZE && b[OFF_SIZE] as nat <= MAX_DATA_SIZE
  }

  /** pkt->addr */
  function Addr(b: seq<byte>): u32
    requires |b| >= OFF_DATA
  {
    U32Of(b[OFF_ADDR..OFF_DATA])
  }

  /** pkt->data[0 .. size) */
  function Data(b: seq<byte>): (d: seq<byte>)
    requires WellSized(b)
    ensures |d| == b[OFF_SIZE] as nat
  {
    b[OFF_DATA..OFF_DATA + b[OFF_SIZE] as nat]
  }

  /** btl_get_u32: the first four payload bytes, little-endian.  The bytes
      are read whatever the size field says. */
  function GetU32(b: seq<byte>): u32
    requires |b| >= OFF_DATA + 4
  {
    U32Of(b[OFF_DATA..OFF_DATA + 4])
  }

  /** The baud rates btl_cmd_baud accepts. */
  predicate BaudAllowed(baud: u32)
  {
    baud in {1000000, 921600, 576000, 500000, 460800, 230400, 115200, 57600}
  }

  // ---------------------------------------------------------------------
  // The byte feed, on values

  /** One call of btl_read_byte on the bytes held so far (`buf[..len]`):
      the new held bytes and the return value.  A byte is always stored;
      "resetting len" empties the held bytes. */
  function Feed(held: seq<byte>, c: byte): (res: (seq<byte>, int))
    requires |held| < MAX_PKT_SIZE
    ensures res.1 == 0 || res.1 == 1
    ensures res.0 == [] || res.0 == held + [c]
    ensures res.1 == 0 ==> |res.0| < MAX_PKT_SIZE
    ensures res.1 == 1 ==> && HEADER_SIZE <= |res.0| <= MAX_PKT_SIZE
                           && res.0[OFF_SIZE] as nat <= MAX_DATA_SIZE
                           && SizePkt(res.0[OFF_SIZE]) <= |res.0|
  {
    var h := held + [c];
    if |h| == 1 then
      (if c != PREFIX then [] else h, 0)
    else if |h| < HEADER_SIZE then
      (h, 0)
    else if h[OFF_SIZE] as nat > MAX_DATA_SIZE then
      ([], 0)
    else if |h| < SizePkt(h[OFF_SIZE]) then
      (h, 0)
    else
      (h, 1)
  }

  /** A caller that feeds `s` and empties the buffer after every completed
      frame: the held bytes at the end and the return values. */
  function Replay(held: seq<byte>, s: seq<byte>): (res: (seq<byte>, seq<int>))
    requires |held| < MAX_PKT_SIZE
    ensures |res.0| < MAX_PKT_SIZE
    ensures |res.1| == |s|
    ensures forall k :: 0 <= k < |s| ==> res.1[k] == 0 || res.1[k] == 1
    decreases |s|
  {
    if s == [] then (held, [])
    else
      var (h, r) := Feed(held, s[0]);
      var rest := Replay(if r == 1 then [] else h, s[1..]);
      (rest.0, [r] + rest.1)
  }

  /** From an empty buffer a byte other than '#' is dropped. */
  lemma FeedNoise(c: byte)
    requires c != PREFIX
    ensures Feed([], c) == ([], 0)
  {
  }

  /** While the header is incomplete every byte is kept and 0 returned. */
  lemma FeedHeader(held: seq<byte>, c: byte)
    requires 1 <= |held| < HEADER_SIZE - 1
    ensures Feed(held, c) == (held + [c], 0)
  {
  }

  /** Once the header is complete, a size field over 64 drops the frame. */
  lemma FeedOversize(held: seq<byte>, c: byte)
    requires HEADER_SIZE - 1 <= |held| < MAX_PKT_SIZE
    requires held[OFF_SIZE] as nat > MAX_DATA_SIZE
    ensures Feed(held, c) == ([], 0)
  {
  }

  /** A frame with a size field of at most 64, fed from an empty buffer,
      is held byte by byte; every call returns 0 except the one on the last
      byte, which returns 1. */
  lemma FeedFrame(f: seq<byte>, i: nat)
    requires |f| > OFF_SIZE && f[OFF_PREFIX] == PREFIX
    requires f[OFF_SIZE] as nat <= MAX_DATA_SIZE && |f| == SizePkt(f[OFF_SIZE])
    requires i < |f|
    ensures Feed(f[..i], f[i]) == (f[..i + 1], if i + 1 == |f| then 1 else 0)
  {
    assert f[..i] + [f[i]] == f[..i + 1];
  }

  /** Feeding a whole frame from an empty buffer returns 0 for all but the
      last byte and 1 for that one. */
  lemma {:induction false} ReplayFrame(f: seq<byte>, i: nat)
    requires |f| > OFF_SIZE && f[OFF_PREFIX] == PREFIX
    requires f[OFF_SIZE] as nat <= MAX_DATA_SIZE && |f| == SizePkt(f[OFF_SIZE])
    requires i < |f|
    ensures Replay(f[..i], f[i..]).1 == seq(|f| - i - 1, _ => 0) + [1]
    decreases |f| - i
  {
    var s := f[i..];
    assert s[0] == f[i] && s[1..] == f[i + 1..];
    FeedFrame(f, i);
    if i + 1 < |f| {
      ReplayFrame(f, i + 1);
      ZerosThenOne(|f| - i - 2);
    }
  }

  lemma ZerosThenOne(k: nat)
    ensures [0] + (seq(k, _ => 0) + [1]) == seq(k + 1, _ => 0) + [1]
  {
  }

  // ---------------------------------------------------------------------
  // The dispatcher, on values

  /** What one command did: the handler's return value, the bytes it wrote
      at pkt->data, the flash primitive it called, and whether it set
      bi->reset. */
  datatype Outcome = Outcome(sz: int, data: seq<byte>, call: Option<Flash.FlashOp>, reset: bool)

  /** An outcome whose reply fits the buffer. */
  predicate Fits(o: Outcome)
  {
    -1 <= o.sz <= MAX_DATA_SIZE && |o.data| <= MAX_DATA_SIZE && (o.sz > 0 ==> o.sz == |o.data|)
  }

  function Fail(): Outcome
  {
    Outcome(-1, [], None, false)
  }

  function Done(): Outcome
  {
    Outcome(0, [], None, false)
  }

  /** The switch of btl_handle_packet with its handlers, for a request
      whose checksum is valid.  `mem` is the flash before the command;
      `ok` is whether the flash primitive, if one is called, succeeds. */
  function Dispatch(guard: Guard, b: seq<byte>, mem: Flash.Memory, ok: bool): (o: Outcome)
    requires WellSized(b)
    ensures Fits(o)
  {
    var cmd := b[OFF_CMD];
    var addr := Addr(b);
    var size := b[OFF_SIZE];
    if cmd == CMD_INFO then
      Outcome(|VERSION|, VERSION, None, false)
    else if cmd == CMD_READ then
      Outcome(MAX_DATA_SIZE, Flash.BytesAt(mem, addr, MAX_DATA_SIZE), None, false)
    else if cmd == CMD_WRITE then
      if Refuses(guard, addr, size) then Fail()
      else Outcome(if ok then 0 else -1, [], Some(Flash.WriteOp(addr, Data(b), ok)), false)
    else if cmd == CMD_ERASE then
      var n := GetU32(b);
      if n == 0 then Done()
      else if RefusesErase(guard, addr, n) then Fail()
      else Outcome(if ok then 0 else -1, [], Some(Flash.EraseOp(addr, n, ok)), false)
    else if cmd == CMD_VERIFY then
      if Refuses(guard, addr, size) then Fail()
      else if Flash.BytesAt(mem, addr, size as nat) != Data(b) then Fail()
      else Done()
    else if cmd == CMD_BAUD then
      if BaudAllowed(GetU32(b)) then Done() else Fail()
    else if cmd == CMD_RESET then
      Outcome(0, [], None, true)
    else
      Fail()
  }

  /** `b` with `data` copied to pkt->data. */
  function WithData(b: seq<byte>, data: seq<byte>): (r: seq<byte>)
    requires OFF_DATA + |data| <= |b|
    ensures |r| == |b| && r[..OFF_DATA] == b[..OFF_DATA]
    ensures r[OFF_DATA..OFF_DATA + |data|] == data
    ensures r[OFF_DATA + |data|..] == b[OFF_DATA + |data|..]
  {
    b[..OFF_DATA] + data + b[OFF_DATA + |data|..]
  }

  /** The reply size and status btl_handle_packet puts in the header. */
  function ReplySize(o: Outcome): byte
    requires Fits(o)
  {
    if o.sz < 0 then 0 else ToByte(o.sz)
  }

  function ReplyStatus(o: Outcome): byte
  {
    if o.sz < 0 then STATUS_ERROR else STATUS_OK
  }

  /** The buffer after the handler and btl_make_header: the handler's data
      and the four rewritten header bytes; every other byte as it was. */
  function ReplyHeader(b: seq<byte>, o: Outcome): (h: seq<byte>)
    requires |b| == MAX_PKT_SIZE && Fits(o)
    ensures |h| == MAX_PKT_SIZE
  {
    var d := WithData(b, o.data);
    [PREFIX, ReplySize(o), d[OFF_CMD] | REPLY, ReplyStatus(o)] + d[OFF_ADDR..]
  }

  /** The buffer btl_handle_packet leaves behind: ReplyHeader with a fresh
      checksum at the reply's checksum position. */
  function Reply(b: seq<byte>, o: Outcome): (r: seq<byte>)
    requires |b| == MAX_PKT_SIZE && Fits(o)
    ensures |r| == MAX_PKT_SIZE
  {
    var h := ReplyHeader(b, o);
    var size := ReplySize(o);
    h[CrcPos(size) := CrcBuf(h[CRC_START..CRC_START + SizeCrc(size)])]
  }

  lemma ReplyFromHeader(b: seq<byte>, o: Outcome, h: seq<byte>)
    requires |b| == MAX_PKT_SIZE && Fits(o) && h == ReplyHeader(b, o)
    ensures Reply(b, o) == h[CrcPos(ReplySize(o)) := CrcBuf(h[CRC_START..CRC_START + SizeCrc(ReplySize(o))])]
  {
  }

  /** The first SizePkt bytes of the reply are a complete frame: the
      request's command with the reply flag, the status, the request's
      address echoed back, the handler's data (none on error), and a
      valid checksum. */
  lemma ReplyIsFrame(b: seq<byte>, o: Outcome)
    requires |b| == MAX_PKT_SIZE && Fits(o)
    ensures var r := Reply(b, o);
      var payload := if o.sz > 0 then o.data else [];
      && r[..SizePkt(ReplySize(o))] == Frame(b[OFF_CMD] | REPLY, ReplyStatus(o), Addr(b), payload)
      && r[OFF_SIZE] as nat == |payload|
      && CrcValid(r)
  {
    var payload := if o.sz > 0 then o.data else [];
    ReplyCovered(b, o);
    FrameOfParts(Reply(b, o), ReplySize(o), b[OFF_CMD] | REPLY, ReplyStatus(o), Addr(b), payload);
  }

  /** The reply's header bytes, covered bytes and checksum byte. */
  lemma ReplyCovered(b: seq<byte>, o: Outcome)
    requires |b| == MAX_PKT_SIZE && Fits(o)
    ensures var r := Reply(b, o);
      var payload := if o.sz > 0 then o.data else [];
      var body := Covered(b[OFF_CMD] | REPLY, ReplyStatus(o), Addr(b), payload);
      && r[OFF_PREFIX] == PREFIX && r[OFF_SIZE] == ReplySize(o)
      && |payload| == ReplySize(o) as nat
      && r[CRC_START..CrcPos(ReplySize(o))] == body
      && r[CrcPos(ReplySize(o))] == CrcBuf(body)
  {
    var payload := if o.sz > 0 then o.data else [];
    var body := Covered(b[OFF_CMD] | REPLY, ReplyStatus(o), Addr(b), payload);
    var size := ReplySize(o);
    var h := ReplyHeader(b, o);
    HeaderCovered(b, o);
    var r := Reply(b, o);
    assert r[CRC_START..CrcPos(size)] == h[CRC_START..CrcPos(size)];
  }

  lemma HeaderCovered(b: seq<byte>, o: Outcome)
    requires |b| == MAX_PKT_SIZE && Fits(o)
    ensures var h := ReplyHeader(b, o);
      var payload := if o.sz > 0 then o.data else [];
      && h[OFF_PREFIX] == PREFIX && h[OFF_SIZE] == ReplySize(o)
      && |payload| == ReplySize(o) as nat
      && h[CRC_START..CRC_START + SizeCrc(ReplySize(o))]
         == Covered(b[OFF_CMD] | REPLY, ReplyStatus(o), Addr(b), payload)
  {
    var payload := if o.sz > 0 then o.data else [];
    var d := WithData(b, o.data);
    var size := ReplySize(o);
    assert d[OFF_ADDR..OFF_DATA] == b[OFF_ADDR..OFF_DATA] by {
      assert d[..OFF_DATA] == b[..OFF_DATA];
    }
    assert d[OFF_DATA..OFF_DATA + |payload|] == payload;
    U32RoundTrip(Addr(b), b[OFF_ADDR..OFF_DATA]);
    HeaderSlices(d, b[OFF_CMD] | REPLY, ReplyStatus(o), size, payload);
  }

  /** The checksummed span of a rewritten header: cmd, status, the address
      bytes and the payload. */
  lemma HeaderSlices(d: seq<byte>, cmd: byte, status: byte, size: byte, payload: seq<byte>)
    requires |d| == MAX_PKT_SIZE && |payload| == size as nat <= MAX_DATA_SIZE
    requires d[OFF_DATA..OFF_DATA + |payload|] == payload
    ensures var h := [PREFIX, size, cmd, status] + d[OFF_ADDR..];
      h[CRC_START..CRC_START + SizeCrc(size)] == [cmd, status] + d[OFF_ADDR..OFF_DATA] + payload
  {
    var h := [PREFIX, size, cmd, status] + d[OFF_ADDR..];
    assert SizeCrc(size) == |payload| + 6;
    assert forall k :: OFF_ADDR <= k < |h| ==> h[k] == d[k];
    assert h[CRC_START..CRC_START + SizeCrc(size)] == [cmd, status] + d[OFF_ADDR..OFF_DATA + |payload|];
    assert d[OFF_ADDR..OFF_DATA + |payload|] == d[OFF_ADDR..OFF_DATA] + d[OFF_DATA..OFF_DATA + |payload|];
  }

  // ---------------------------------------------------------------------
  // What each command does

  /** The flash primitives an outcome calls, in order. */
  function Calls(call: Option<Flash.FlashOp>): (ops: seq<Flash.FlashOp>)
    ensures |ops| <= 1
  {
    match call
    case None => []
    case Some(op) => [op]
  }

  /** The flash after an outcome's call, if any, on `before`. */
  ghost predicate MemAfter(before: Flash.Memory, after: Flash.Memory, call: Option<Flash.FlashOp>)
  {
    match call
    case None => after == before
    case Some(op) => Flash.Applied(before, after, op)
  }

  /** A guard that holds makes WRITE, VERIFY and a non-empty ERASE fail
      without calling the flash. */
  lemma RefusedCommandsSkipFlash(guard: Guard, b: seq<byte>, mem: Flash.Memory, ok: bool)
    requires WellSized(b)
    requires || (b[OFF_CMD] in {CMD_WRITE, CMD_VERIFY} && Refuses(guard, Addr(b), b[OFF_SIZE]))
             || (b[OFF_CMD] == CMD_ERASE && GetU32(b) != 0 && RefusesErase(guard, Addr(b), GetU32(b)))
    ensures Dispatch(guard, b, mem, ok) == Outcome(-1, [], None, false)
  {
  }

  /** Only WRITE and ERASE call the flash, and only past the guard. */
  lemma FlashCalledOnlyPastGuard(guard: Guard, b: seq<byte>, mem: Flash.Memory, ok: bool)
    requires WellSized(b)
    ensures var o := Dispatch(guard, b, mem, ok);
      && (o.call.Some? && o.call.value.WriteOp? <==>
            b[OFF_CMD] == CMD_WRITE && !Refuses(guard, Addr(b), b[OFF_SIZE]))
      && (o.call.Some? && o.call.value.EraseOp? <==>
            b[OFF_CMD] == CMD_ERASE && GetU32(b) != 0 && !RefusesErase(guard, Addr(b), GetU32(b)))
  {
  }

  /** A WRITE past the guard programs exactly the payload at pkt->addr and
      succeeds iff the flash does. */
  lemma WriteOutcome(guard: Guard, b: seq<byte>, mem: Flash.Memory, ok: bool)
    requires WellSized(b) && b[OFF_CMD] == CMD_WRITE
    requires !Refuses(guard, Addr(b), b[OFF_SIZE])
    ensures var o := Dispatch(guard, b, mem, ok);
      && o.call == Some(Flash.WriteOp(Addr(b), Data(b), ok))
      && (o.sz == 0 <==> ok) && (o.sz == -1 <==> !ok)
  {
  }

  /** An ERASE with decoded length 0 succeeds without a flash call; any
      other ERASE past the guard erases that many bytes at pkt->addr and
      succeeds iff the flash does. */
  lemma EraseOutcome(guard: Guard, b: seq<byte>, mem: Flash.Memory, ok: bool)
    requires WellSized(b) && b[OFF_CMD] == CMD_ERASE
    ensures var o := Dispatch(guard, b, mem, ok);
      && (GetU32(b) == 0 ==> o == Outcome(0, [], None, false))
      && (GetU32(b) != 0 && !RefusesErase(guard, Addr(b), GetU32(b)) ==>
            o.call == Some(Flash.EraseOp(Addr(b), GetU32(b), ok)) && (o.sz == 0 <==> ok))
  {
  }

  /** A VERIFY past the guard succeeds iff the flash holds the payload at
      pkt->addr; it never calls a flash primitive that changes the flash. */
  lemma VerifyOutcome(guard: Guard, b: seq<byte>, mem: Flash.Memory, ok: bool)
    requires WellSized(b) && b[OFF_CMD] == CMD_VERIFY
    requires !Refuses(guard, Addr(b), b[OFF_SIZE])
    ensures var o := Dispatch(guard, b, mem, ok);
      && o.call == None && o.data == []
      && (o.sz == 0 <==> Flash.BytesAt(mem, Addr(b), b[OFF_SIZE] as nat) == Data(b))
      && (o.sz == -1 <==> Flash.BytesAt(mem, Addr(b), b[OFF_SIZE] as nat) != Data(b))
  {
  }

  /** INFO answers with the 9 bytes of the version string, READ with the 64
      flash bytes at pkt->addr, whatever the size field says. */
  lemma InfoAndReadOutcome(guard: Guard, b: seq<byte>, mem: Flash.Memory, ok: bool)
    requires WellSized(b)
    ensures var o := Dispatch(guard, b, mem, ok);
      && (b[OFF_CMD] == CMD_INFO ==> o.sz == 9 && o.data == VERSION && o.call == None)
      && (b[OFF_CMD] == CMD_READ ==>
            o.sz == MAX_DATA_SIZE && o.data == Flash.BytesAt(mem, Addr(b), MAX_DATA_SIZE) && o.call == None)
  {
  }

  /** BAUD succeeds iff the little-endian payload value is one of the eight
      supported rates; it calls no flash primitive. */
  lemma BaudOutcome(guard: Guard, b: seq<byte>, mem: Flash.Memory, ok: bool)
    requires WellSized(b) && b[OFF_CMD] == CMD_BAUD
    ensures var o := Dispatch(guard, b, mem, ok);
      && o.call == None && !o.reset
      && (o.sz == 0 <==> BaudAllowed(GetU32(b)))
      && (o.sz == -1 <==> !BaudAllowed(GetU32(b)))
  {
  }

  /** The seven command codes btl_handle_packet dispatches on. */
  predicate KnownCommand(cmd: byte)
  {
    cmd in {CMD_INFO, CMD_ERASE, CMD_WRITE, CMD_READ, CMD_VERIFY, CMD_BAUD, CMD_RESET}
  }

  /** Exactly RESET requests a reset; it always succeeds.  A command code
      outside the seven known ones fails with no effect. */
  lemma ResetAndUnknownOutcome(guard: Guard, b: seq<byte>, mem: Flash.Memory, ok: bool)
    requires WellSized(b)
    ensures var o := Dispatch(guard, b, mem, ok);
      && (o.reset <==> b[OFF_CMD] == CMD_RESET)
      && (b[OFF_CMD] == CMD_RESET ==> o.sz == 0 && o.call == None)
      && (!KnownCommand(b[OFF_CMD]) ==> o == Outcome(-1, [], None, false))
  {
  }

  /** After a successful WRITE, a VERIFY of the same address and payload
      succeeds: the two commands are partners. */
  lemma WriteThenVerify(guard: Guard, b: seq<byte>, mem: Flash.Memory)
    requires WellSized(b) && b[OFF_CMD] == CMD_WRITE
    requires !Refuses(guard, Addr(b), b[OFF_SIZE])
    ensures var o := Dispatch(guard, b, mem, true);
      var mem' := Flash.Program(mem, Addr(b), Data(b));
      && o.sz == 0 && MemAfter(mem, mem', o.call)
      && Dispatch(guard, b[OFF_CMD := CMD_VERIFY], mem', true).sz == 0
  {
    var v := b[OFF_CMD := CMD_VERIFY];
    assert v[OFF_ADDR..OFF_DATA] == b[OFF_ADDR..OFF_DATA];
    assert Data(v) == Data(b);
    Flash.ProgramReadBack(mem, Addr(b), Data(b));
  }

  /** With the corrected guard, no flash call any command makes addresses
      a byte of the bootloader region, and a byte of the region keeps its
      value unless a flash call failed (the hardware then leaves the flash
      in an unknown state). */
  lemma CorrectedKeepsBootloader(b: seq<byte>, mem: Flash.Memory, ok: bool, mem': Flash.Memory, x: u32)
    requires WellSized(b)
    requires MemAfter(mem, mem', Dispatch(Corrected, b, mem, ok).call)
    requires BTL_ADDR <= x < BTL_END
    ensures var o := Dispatch(Corrected, b, mem, ok);
      && (o.call.Some? ==> !Flash.Touches(o.call.value, x))
      && (ok || o.call.None? ==> mem'(x) == mem(x))
  {
    var o := Dispatch(Corrected, b, mem, ok);
    if o.call.Some? {
      var addr := Addr(b);
      match o.call.value
      case WriteOp(_, data, _) =>
        OverlapsIff(addr, |data|);
        assert !Hits(addr, |data|, x);
        if ok {
          Flash.ProgramOutside(mem, addr, data, x);
        }
      case EraseOp(_, n, _) =>
        OverlapsIff(addr, n);
        assert !Hits(addr, n, x);
    }
  }

  // ---------------------------------------------------------------------
  // Where btl_area as written falls short

  /** A request with the given header fields and payload bytes, zero-padded
      to the buffer size. */
  function Request(cmd: byte, addr: u32, payload: seq<byte>): (b: seq<byte>)
    requires |payload| <= MAX_DATA_SIZE
    ensures WellSized(b) && b[OFF_CMD] == cmd && b[OFF_SIZE] == ToByte(|payload|) && Data(b) == payload
    ensures Addr(b) == addr && b[OFF_DATA..OFF_DATA + |payload|] == payload
  {
    U32RoundTrip(addr, U32Le(addr));
    var b := [PREFIX, ToByte(|payload|), cmd, STATUS_OK] + U32Le(addr) + payload
      + seq(MAX_PKT_SIZE - OFF_DATA - |payload|, _ => 0);
    assert b[OFF_ADDR..OFF_DATA] == U32Le(addr);
    assert b[OFF_DATA..OFF_DATA + |payload|] == payload;
    b
  }

  /** A WRITE the guard lets through is handed to the flash as written. */
  lemma DispatchWrite(guard: Guard, b: seq<byte>, mem: Flash.Memory, ok: bool)
    requires WellSized(b) && b[OFF_CMD] == CMD_WRITE && !Refuses(guard, Addr(b), b[OFF_SIZE])
    ensures Dispatch(guard, b, mem, ok).call == Some(Flash.WriteOp(Addr(b), Data(b), ok))
  {
  }

  /** A non-empty ERASE the guard lets through erases the requested range. */
  lemma DispatchErase(guard: Guard, b: seq<byte>, mem: Flash.Memory, ok: bool)
    requires WellSized(b) && b[OFF_CMD] == CMD_ERASE && GetU32(b) != 0
    requires !RefusesErase(guard, Addr(b), GetU32(b))
    ensures Dispatch(guard, b, mem, ok).call == Some(Flash.EraseOp(Addr(b), GetU32(b), ok))
  {
  }

  /** btl_cmd_baud answers by the rate read from the payload alone. */
  lemma DispatchBaud(guard: Guard, b: seq<byte>, mem: Flash.Memory, ok: bool)
    requires WellSized(b) && b[OFF_CMD] == CMD_BAUD
    ensures Dispatch(guard, b, mem, ok) == if BaudAllowed(GetU32(b)) then Done() else Fail()
  {
    var cmd := b[OFF_CMD];
    assert cmd != CMD_INFO && cmd != CMD_READ && cmd != CMD_WRITE && cmd != CMD_ERASE && cmd != CMD_VERIFY;
  }

  /** A 64-byte WRITE that starts 32 bytes before the end of the region
      passes btl_area and programs the region's last 32 bytes. */
  lemma AreaMissesTail(mem: Flash.Memory)
    ensures var addr := BTL_END - 32;
      var b := Request(CMD_WRITE, addr, seq(MAX_DATA_SIZE, _ => 0));
      && !Area(addr, ToByte(64))
      && Dispatch(AsWritten, b, mem, true).call == Some(Flash.WriteOp(addr, Data(b), true))
      && Hits(addr, MAX_DATA_SIZE, BTL_END - 1)
      && Overlaps(addr, MAX_DATA_SIZE)
  {
    var addr := BTL_END - 32;
    var b := Request(CMD_WRITE, addr, seq(MAX_DATA_SIZE, _ => 0));
    assert b[OFF_SIZE] == ToByte(64);
    AreaWithoutWrap(addr, ToByte(64));
    DispatchWrite(AsWritten, b, mem, true);
    TailHit(addr);
  }

  lemma TailHit(addr: u32)
    requires addr == BTL_END - 32
    ensures Hits(addr, MAX_DATA_SIZE, BTL_END - 1) && Overlaps(addr, MAX_DATA_SIZE)
  {
    assert (BTL_END - 1 - addr) % TWO_TO_32 == 31;
  }

  /** An ERASE of 64 KiB from 4 KiB below the region passes btl_area,
      because the length is narrowed to its low byte (0), and erases the
      whole region. */
  lemma AreaMissesEnclosingErase(mem: Flash.Memory, x: u32)
    requires BTL_ADDR <= x < BTL_END
    ensures var addr := BTL_ADDR - 0x1000;
      var b := Request(CMD_ERASE, addr, U32Le(0x10000));
      && GetU32(b) == 0x10000
      && !Area(addr, ToByte(0x10000 % 256))
      && Dispatch(AsWritten, b, mem, true).call == Some(Flash.EraseOp(addr, 0x10000, true))
      && Hits(addr, 0x10000, x)
  {
    var addr := BTL_ADDR - 0x1000;
    var b := Request(CMD_ERASE, addr, U32Le(0x10000));
    assert b[OFF_DATA..OFF_DATA + 4] == U32Le(0x10000);
    U32RoundTrip(0x10000, U32Le(0x10000));
    EraseSlipsPast(addr);
    DispatchErase(AsWritten, b, mem, true);
    EnclosingHit(addr, x);
  }

  lemma EraseSlipsPast(addr: u32)
    requires addr == BTL_ADDR - 0x1000
    ensures !Area(addr, ToByte(0x10000 % 256)) && !RefusesErase(AsWritten, addr, 0x10000)
  {
    assert ToByte(0x10000 % 256) == 0;
  }

  lemma EnclosingHit(addr: u32, x: u32)
    requires addr == BTL_ADDR - 0x1000 && BTL_ADDR <= x < BTL_END
    ensures Hits(addr, 0x10000, x)
  {
    assert (x - addr) % TWO_TO_32 == x - addr;
  }

  /** A WRITE that ends exactly where the region starts touches none of it,
      yet btl_area refuses it. */
  lemma AreaRefusesAdjacent(x: u32)
    ensures var addr := BTL_ADDR - 64;
      && Area(addr, 64) && !Hits(addr, 64, x) && !Overlaps(addr, 64)
  {
  }

  // ---------------------------------------------------------------------
  // The protocol engine: btl_if_t and the functions that update it

  /** btl_if_t: the reset request, the (unused) baud rate, the frame buffer
      and the number of bytes held in it. */
  class Device {
    var reset: int
    var baud: u32
    const buf: array<byte>
    var len: nat

    predicate Valid()
      reads this
    {
      buf.Length == MAX_PKT_SIZE && len <= MAX_PKT_SIZE
    }

    /** A zero-initialised btl_if_t. */
    constructor ()
      ensures Valid() && fresh(buf)
      ensures reset == 0 && baud == 0 && len == 0
      ensures buf[..] == seq(MAX_PKT_SIZE, _ => 0)
    {
      reset := 0;
      baud := 0;
      len := 0;
      buf := new byte[MAX_PKT_SIZE](_ => 0);
    }

    /** btl_read_byte: store `c` at buf[len], advance len, and drop or
        complete the frame as Feed says. */
    method ReadByte(c: byte) returns (r: int)
      requires Valid() && len < MAX_PKT_SIZE
      modifies this, buf
      ensures Valid() && reset == old(reset) && baud == old(baud)
      ensures buf[..] == old(buf[..])[old(len) := c]
      ensures (buf[..len], r) == Feed(old(buf[..len]), c)
    {
      ghost var held := buf[..len];
      buf[len] := c;
      len := len + 1;
      assert buf[..len] == held + [c];
      if len == 1 {
        if c != PREFIX {
          len := 0;
        }
        return 0;
      }
      if len < HEADER_SIZE {
        return 0;
      }
      if buf[OFF_SIZE] as nat > MAX_DATA_SIZE {
        len := 0;
        return 0;
      }
      if len < SizePkt(buf[OFF_SIZE]) {
        return 0;
      }
      return 1;
    }

    /** btl_make_header: rewrite prefix, size and status, and set the reply
        flag in cmd; addr and data are left alone. */
    method MakeHeader(status: byte, size: byte)
      requires Valid()
      modifies buf
      ensures buf[..] == [PREFIX, size, old(buf[OFF_CMD]) | REPLY, status] + old(buf[..])[OFF_ADDR..]
    {
      buf[OFF_PREFIX] := PREFIX;
      buf[OFF_SIZE] := size;
      buf[OFF_CMD] := buf[OFF_CMD] | REPLY;
      buf[OFF_STATUS] := status;
    }

    /** Copy `data` to pkt->data. */
    method PutData(data: seq<byte>)
      requires Valid() && |data| <= MAX_DATA_SIZE
      modifies buf
      ensures buf[..] == WithData(old(buf[..]), data)
    {
      forall i | 0 <= i < |data| {
        buf[OFF_DATA + i] := data[i];
      }
      assert buf[..] == WithData(old(buf[..]), data);
    }

    /** btl_cmd_info */
    method CmdInfo() returns (sz: int)
      requires Valid()
      modifies buf
      ensures sz == |VERSION| && buf[..] == WithData(old(buf[..]), VERSION)
    {
      PutData(VERSION);
      sz := |VERSION|;
    }

    /** btl_cmd_read: flash_read of 64 bytes, which always reports 64. */
    method CmdRead(fl: Flash.Flash) returns (sz: int)
      requires Valid()
      modifies buf
      ensures sz == MAX_DATA_SIZE
      ensures buf[..] == WithData(old(buf[..]), Flash.BytesAt(fl.mem, Addr(old(buf[..])), MAX_DATA_SIZE))
    {
      var addr := Addr(buf[..]);
      PutData(fl.Read(addr, MAX_DATA_SIZE));
      sz := MAX_DATA_SIZE;
    }

    /** btl_cmd_write */
    method CmdWrite(fl: Flash.Flash) returns (sz: int)
      requires Valid() && buf[OFF_SIZE] as nat <= MAX_DATA_SIZE
      modifies fl
      ensures var addr := Addr(buf[..]);
        if Area(addr, buf[OFF_SIZE]) then
          sz == -1 && fl.mem == old(fl.mem) && fl.log == old(fl.log)
        else
          && (sz == 0 || sz == -1)
          && fl.log == old(fl.log) + [Flash.WriteOp(addr, Data(buf[..]), sz == 0)]
          && (sz == 0 ==> fl.mem == Flash.Program(old(fl.mem), addr, Data(buf[..])))
    {
      var addr := Addr(buf[..]);
      if Area(addr, buf[OFF_SIZE]) {
        return -1;
      }
      var n := fl.Write(addr, Data(buf[..]));
      if n < 0 {
        return -1;
      }
      return 0;
    }

    /** btl_cmd_verify: flash_read reports the length it was asked for, so
        only the comparison can fail past the guard. */
    method CmdVerify(fl: Flash.Flash) returns (sz: int)
      requires Valid() && buf[OFF_SIZE] as nat <= MAX_DATA_SIZE
      ensures var addr := Addr(buf[..]);
        if Area(addr, buf[OFF_SIZE]) then sz == -1
        else sz == (if Flash.BytesAt(fl.mem, addr, buf[OFF_SIZE] as nat) == Data(buf[..]) then 0 else -1)
    {
      var addr := Addr(buf[..]);
      if Area(addr, buf[OFF_SIZE]) {
        return -1;
      }
      var data := fl.Read(addr, buf[OFF_SIZE] as nat);
      if data != Data(buf[..]) {
        return -1;
      }
      return 0;
    }

    /** btl_cmd_erase: the length comes from the payload as a uint32_t, and
        btl_area sees only its low byte. */
    method CmdErase(fl: Flash.Flash) returns (sz: int)
      requires Valid()
      modifies fl
      ensures var addr := Addr(buf[..]);
        var n := GetU32(buf[..]);
        if n == 0 || Area(addr, ToByte(n % 256)) then
          sz == (if n == 0 then 0 else -1) && fl.mem == old(fl.mem) && fl.log == old(fl.log)
        else
          && (sz == 0 || sz == -1)
          && fl.log == old(fl.log) + [Flash.EraseOp(addr, n, sz == 0)]
          && (sz == 0 ==> fl.mem == Flash.EraseRange(old(fl.mem), addr, n))
    {
      var addr := Addr(buf[..]);
      var n := GetU32(buf[..]);
      if n == 0 {
        return 0;
      }
      if Area(addr, ToByte(n % 256)) {
        return -1;
      }
      var e := fl.Erase(addr, n);
      if e < 0 {
        return -1;
      }
      return 0;
    }

    /** btl_cmd_baud: checks the rate and changes nothing. */
    method CmdBaud() returns (sz: int)
      requires Valid()
      ensures sz == (if BaudAllowed(GetU32(buf[..])) then 0 else -1)
    {
      var rate := GetU32(buf[..]);
      if BaudAllowed(rate) {
        return 0;
      }
      return -1;
    }

    /** btl_cmd_reset */
    method CmdReset() returns (sz: int)
      modifies this
      ensures sz == 0 && reset == 1
      ensures baud == old(baud) && len == old(len)
    {
      reset := 1;
      sz := 0;
    }

    /** The switch of btl_handle_packet: run the handler for pkt->cmd, as
        Dispatch with btl_area as written says.  `ok` is the flash
        primitive's outcome when one is called. */
    method RunCommand(fl: Flash.Flash) returns (sz: int, ghost ok: bool, ghost o: Outcome)
      requires Valid() && buf[OFF_SIZE] as nat <= MAX_DATA_SIZE
      modifies this, buf, fl
      ensures Valid() && len == old(len) && baud == old(baud)
      ensures o == Dispatch(AsWritten, old(buf[..]), old(fl.mem), ok) && Fits(o)
      ensures && sz == o.sz
        && buf[..] == WithData(old(buf[..]), o.data)
        && fl.log == old(fl.log) + Calls(o.call)
        && MemAfter(old(fl.mem), fl.mem, o.call)
        && reset == (if o.reset then 1 else old(reset))
    {
      ok := true;
      ghost var b := buf[..];
      ghost var mem := fl.mem;
      var cmd := buf[OFF_CMD];
      if cmd == CMD_WRITE || cmd == CMD_ERASE {
        sz, ok, o := RunFlashUpdate(fl);
        return;
      }
      if cmd == CMD_INFO {
        sz := CmdInfo();
        o := Outcome(|VERSION|, VERSION, None, false);
      } else if cmd == CMD_READ {
        var addr := Addr(buf[..]);
        sz := CmdRead(fl);
        o := Outcome(MAX_DATA_SIZE, Flash.BytesAt(mem, addr, MAX_DATA_SIZE), None, false);
      } else if cmd == CMD_VERIFY {
        sz := CmdVerify(fl);
        o := Outcome(sz, [], None, false);
        assert buf[..] == WithData(b, []);
      } else if cmd == CMD_RESET {
        sz := CmdReset();
        o := Outcome(0, [], None, true);
        assert buf[..] == WithData(b, []);
      } else if cmd == CMD_BAUD {
        sz := CmdBaud();
        o := Outcome(sz, [], None, false);
        assert buf[..] == WithData(b, []);
      } else {
        sz := -1;
        o := Fail();
        assert buf[..] == WithData(b, []);
      }
      assert o == Dispatch(AsWritten, b, mem, ok);
    }

    /** The cases of the switch that change the flash: WRITE and ERASE. */
    method RunFlashUpdate(fl: Flash.Flash) returns (sz: int, ghost ok: bool, ghost o: Outcome)
      requires Valid() && buf[OFF_SIZE] as nat <= MAX_DATA_SIZE
      requires buf[OFF_CMD] == CMD_WRITE || buf[OFF_CMD] == CMD_ERASE
      modifies fl
      ensures o == Dispatch(AsWritten, buf[..], old(fl.mem), ok) && Fits(o)
      ensures && sz == o.sz && !o.reset && o.data == []
        && fl.log == old(fl.log) + Calls(o.call)
        && MemAfter(old(fl.mem), fl.mem, o.call)
    {
      ok := true;
      ghost var b := buf[..];
      ghost var mem := fl.mem;
      var addr := Addr(buf[..]);
      if buf[OFF_CMD] == CMD_WRITE {
        sz := CmdWrite(fl);
        ok := sz == 0;
        o := if Area(addr, b[OFF_SIZE]) then Fail()
             else Outcome(sz, [], Some(Flash.WriteOp(addr, Data(b), ok)), false);
      } else {
        sz := CmdErase(fl);
        ok := sz == 0;
        var n := GetU32(b);
        o := if n == 0 then Done() else if Area(addr, ToByte(n % 256)) then Fail()
             else Outcome(sz, [], Some(Flash.EraseOp(addr, n, ok)), false);
      }
      assert o == Dispatch(AsWritten, b, mem, ok);
    }

    /** The tail of btl_handle_packet: btl_make_header with the status and
        size the handler's result calls for, then a fresh checksum. */
    method SealReply(sz: int, ghost b: seq<byte>, ghost o: Outcome) returns (r: int)
      requires Valid() && |b| == MAX_PKT_SIZE && Fits(o) && sz == o.sz
      requires buf[..] == WithData(b, o.data)
      modifies buf
      ensures buf[..] == Reply(b, o) && r == SizePkt(ReplySize(o))
    {
      ReplyHeaderOf(sz, b, o);
      r := PutCrc(b, o);
    }

    /** The btl_make_header call: error status and size 0 for a negative
        handler result, otherwise status OK and the result as the size. */
    method ReplyHeaderOf(sz: int, ghost b: seq<byte>, ghost o: Outcome)
      requires Valid() && |b| == MAX_PKT_SIZE && Fits(o) && sz == o.sz
      requires buf[..] == WithData(b, o.data)
      modifies buf
      ensures buf[..] == ReplyHeader(b, o)
    {
      if sz < 0 {
        MakeHeader(STATUS_ERROR, 0);
      } else {
        MakeHeader(STATUS_OK, ToByte(sz));
      }
    }

    /** crc8_cal_buf over the reply's covered bytes, stored at its
        checksum position; the reply's length is returned. */
    method PutCrc(ghost b: seq<byte>, ghost o: Outcome) returns (r: int)
      requires Valid() && |b| == MAX_PKT_SIZE && Fits(o)
      requires buf[..] == ReplyHeader(b, o)
      modifies buf
      ensures buf[..] == Reply(b, o) && r == SizePkt(ReplySize(o))
    {
      ghost var h := buf[..];
      var n := buf[OFF_SIZE];
      assert n == ReplySize(o);
      var c := CalBuf(buf, CRC_START, SizeCrc(n));
      buf[CrcPos(n)] := c;
      r := SizePkt(n);
      assert buf[..] == h[CrcPos(n) := c];
      ReplyFromHeader(b, o, h);
    }

    /** btl_handle_packet: a frame whose checksum does not match is left
        alone and -1 returned; otherwise the command runs, the buffer
        becomes the reply, and the reply's length is returned. */
    method HandlePacket(fl: Flash.Flash) returns (r: int, ghost ok: bool)
      requires Valid() && buf[OFF_SIZE] as nat <= MAX_DATA_SIZE
      modifies this, buf, fl
      ensures Valid() && len == old(len) && baud == old(baud)
      ensures !CrcValid(old(buf[..])) ==>
        && r == -1 && buf[..] == old(buf[..]) && reset == old(reset)
        && fl.mem == old(fl.mem) && fl.log == old(fl.log)
      ensures CrcValid(old(buf[..])) ==>
        var o := Dispatch(AsWritten, old(buf[..]), old(fl.mem), ok);
        && buf[..] == Reply(old(buf[..]), o)
        && r == SizePkt(ReplySize(o))
        && fl.log == old(fl.log) + Calls(o.call)
        && MemAfter(old(fl.mem), fl.mem, o.call)
        && reset == (if o.reset then 1 else old(reset))
    {
      ok := true;
      var size := buf[OFF_SIZE];
      var crc := CalBuf(buf, CRC_START, SizeCrc(size));
      if crc != buf[CrcPos(size)] {
        return -1, ok;
      }
      ghost var b := buf[..];
      var sz;
      ghost var o;
      sz, ok, o := RunCommand(fl);
      r := SealReply(sz, b, o);
    }
  }
}
