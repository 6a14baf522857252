/**
 * The host tool and the device bootloader talking to each other: what the
 * host's btl_write puts on the wire is what the device's btl_read_byte
 * assembles and btl_handle_packet reads back, and the reply the device
 * builds is what the host's btl_read accepts.
 *
 * The device's buffer after a frame has arrived is modelled as any 73-byte
 * buffer whose first bytes are the frame: bytes past the frame are left
 * over from earlier traffic and are arbitrary.
 */
module EndToEnd {

  import opened Bytes
  import opened Packet
  import DeviceProto
  import HostProto
  import HostClient
  import Flash

  /** The device's frame buffer holding the frame `f`, the rest stale. */
  predicate Holds(b: seq<byte>, f: seq<byte>)
  {
    |b| == MAX_PKT_SIZE && |f| <= |b| && b[..|f|] == f
  }

  /** A request the host sends (at most 64 payload bytes) is assembled by
      the device's byte feed, which reports a complete frame exactly at its
      last byte; in the buffer the checksum test passes and the command,
      the address and the payload read back unchanged. */
  lemma RequestReachesDevice(q: HostClient.Req, b: seq<byte>)
    requires |q.payload| <= MAX_DATA_SIZE
    requires Holds(b, HostClient.WireOf(q))
    ensures var f := HostClient.WireOf(q);
      && DeviceProto.Replay([], f).1 == seq(|f| - 1, _ => 0) + [1]
      && DeviceProto.WellSized(b) && CrcValid(b)
      && b[OFF_CMD] == q.cmd && DeviceProto.Addr(b) == q.addr && DeviceProto.Data(b) == q.payload
  {
    var f := Frame(q.cmd, STATUS_OK, q.addr, q.payload);
    FrameFields(q.cmd, STATUS_OK, q.addr, q.payload);
    ByteValueInjective(f[OFF_SIZE], ToByte(|q.payload|));
    DeviceProto.ReplayFrame(f, 0);
    assert f[..0] == [] && f[0..] == f;
    HeldFrame(b, f);
  }

  /** What the device reads from a buffer depends only on the frame at its
      start. */
  lemma HeldFrame(b: seq<byte>, f: seq<byte>)
    requires Holds(b, f) && |f| > OFF_SIZE && f[OFF_SIZE] as nat <= MAX_DATA_SIZE
    requires |f| == SizePkt(f[OFF_SIZE]) && CrcValid(f)
    ensures b[OFF_SIZE] == f[OFF_SIZE] && b[OFF_CMD] == f[OFF_CMD] && CrcValid(b)
    ensures b[OFF_ADDR..OFF_DATA] == f[OFF_ADDR..OFF_DATA]
    ensures b[OFF_DATA..OFF_DATA + f[OFF_SIZE] as nat] == f[OFF_DATA..OFF_DATA + f[OFF_SIZE] as nat]
  {
    var n := f[OFF_SIZE];
    assert b[OFF_SIZE] == b[..|f|][OFF_SIZE];
    assert b[OFF_CMD] == b[..|f|][OFF_CMD];
    assert b[CrcPos(n)] == b[..|f|][CrcPos(n)];
    assert b[CRC_START..CRC_START + SizeCrc(n)] == b[..|f|][CRC_START..CRC_START + SizeCrc(n)];
    assert b[OFF_ADDR..OFF_DATA] == b[..|f|][OFF_ADDR..OFF_DATA];
    assert b[OFF_DATA..OFF_DATA + n as nat] == b[..|f|][OFF_DATA..OFF_DATA + n as nat];
  }

  /** The reply btl_handle_packet leaves in the buffer, read by the host's
      btl_read: its first SizePkt bytes decode as one complete frame, and the
      host gets the reply's size, the command with the reply flag, the
      status, the request's address and the handler's data. */
  lemma ReplyReachesHost(b: seq<byte>, o: DeviceProto.Outcome, rest: seq<HostProto.ReadEvent>)
    requires |b| == MAX_PKT_SIZE && DeviceProto.Fits(o)
    ensures var f := DeviceProto.Reply(b, o)[..SizePkt(DeviceProto.ReplySize(o))];
      var payload := if o.sz > 0 then o.data else [];
      && HostProto.Decode(HostProto.AsEvents(f) + rest, [], 0) == (HostProto.Complete(f), rest)
      && HostProto.Delivered(HostProto.Complete(f), |payload|, false, b[OFF_CMD] | REPLY,
                             DeviceProto.ReplyStatus(o), DeviceProto.Addr(b), payload)
  {
    var payload := if o.sz > 0 then o.data else [];
    var cmd := b[OFF_CMD] | REPLY;
    var status := DeviceProto.ReplyStatus(o);
    var addr := DeviceProto.Addr(b);
    DeviceProto.ReplyIsFrame(b, o);
    HostProto.DecodeFrame(cmd, status, addr, payload, rest, 0);
    FrameFields(cmd, status, addr, payload);
  }

  /** The host's btl_transfer takes the device's reply to a command below
      0x80 for that command: it fails exactly when the device reports an
      error, and otherwise gives the reply's size. */
  lemma TransferAcceptsReply(cmd: byte, o: DeviceProto.Outcome)
    requires cmd & 0x7F == cmd && DeviceProto.Fits(o)
    ensures var r := HostClient.TransferResult(cmd, DeviceProto.ReplySize(o) as int, cmd | REPLY, DeviceProto.ReplyStatus(o));
      && (r == -1 <==> o.sz < 0)
      && (o.sz >= 0 ==> r == o.sz)
  {
    assert (cmd | REPLY) & 0x7F == cmd;
  }

  /** flash_erase's length survives the trip: the device's btl_get_u32
      reads back the file length modulo 2^32, at the requested address. */
  lemma EraseLengthArrives(base: u32, size: nat, b: seq<byte>)
    requires Holds(b, HostClient.WireOf(HostClient.EraseReq(base, size)))
    ensures b[OFF_CMD] == CMD_ERASE && DeviceProto.Addr(b) == base
    ensures DeviceProto.GetU32(b) == Wrap32(size)
  {
    var q := HostClient.EraseReq(base, size);
    RequestReachesDevice(q, b);
    U32RoundTrip(Wrap32(size), q.payload);
    assert DeviceProto.Data(b) == b[OFF_DATA..OFF_DATA + 4];
  }

  /** bootloader_set_baud as written sends an empty payload, so the device's
      btl_cmd_baud reads the frame's checksum byte and three stale bytes as
      the rate.  With zero stale bytes that value is below 256, no accepted
      rate, and the device refuses every rate, 115200 included. */
  lemma SetBaudAsWrittenRefused(baud: u32, b: seq<byte>, mem: Flash.Memory, ok: bool)
    requires Holds(b, HostClient.WireOf(HostClient.SetBaudReq(baud)))
    requires b[OFF_DATA + 1] == 0 && b[OFF_DATA + 2] == 0 && b[OFF_DATA + 3] == 0
    ensures DeviceProto.WellSized(b) && b[OFF_CMD] == CMD_BAUD && DeviceProto.GetU32(b) < 256
    ensures DeviceProto.Dispatch(DeviceProto.AsWritten, b, mem, ok) == DeviceProto.Fail()
  {
    var q := HostClient.SetBaudReq(baud);
    RequestReachesDevice(q, b);
    StaleRateRefused(b, mem, ok);
  }

  /** A BAUD request whose four rate bytes are one byte and three zeros is
      refused. */
  lemma StaleRateRefused(b: seq<byte>, mem: Flash.Memory, ok: bool)
    requires DeviceProto.WellSized(b) && b[OFF_CMD] == CMD_BAUD
    requires b[OFF_DATA + 1] == 0 && b[OFF_DATA + 2] == 0 && b[OFF_DATA + 3] == 0
    ensures DeviceProto.GetU32(b) < 256
    ensures DeviceProto.Dispatch(DeviceProto.AsWritten, b, mem, ok) == DeviceProto.Fail()
  {
    LowByteOnly(b[OFF_DATA..OFF_DATA + 4]);
    NoSmallRate(DeviceProto.GetU32(b));
    DeviceProto.DispatchBaud(DeviceProto.AsWritten, b, mem, ok);
  }

  lemma LowByteOnly(v: seq<byte>)
    requires |v| == 4 && v[1] == 0 && v[2] == 0 && v[3] == 0
    ensures U32Of(v) == v[0] as int
  {
  }

  lemma NoSmallRate(x: u32)
    requires x < 256
    ensures !DeviceProto.BaudAllowed(x)
  {
  }

  /** With the rate as a 4-byte payload the device reads the rate the host
      asked for, and accepts it exactly when it is one of its rates. */
  lemma SetBaudFixedArrives(baud: u32, b: seq<byte>, mem: Flash.Memory, ok: bool)
    requires Holds(b, HostClient.WireOf(HostClient.SetBaudReqFixed(baud)))
    ensures DeviceProto.WellSized(b) && b[OFF_CMD] == CMD_BAUD && DeviceProto.GetU32(b) == baud
    ensures DeviceProto.Dispatch(DeviceProto.AsWritten, b, mem, ok) ==
      (if DeviceProto.BaudAllowed(baud) then DeviceProto.Done() else DeviceProto.Fail())
  {
    var q := HostClient.SetBaudReqFixed(baud);
    RequestReachesDevice(q, b);
    U32RoundTrip(baud, q.payload);
    assert DeviceProto.Data(b) == b[OFF_DATA..OFF_DATA + 4];
    DeviceProto.DispatchBaud(DeviceProto.AsWritten, b, mem, ok);
  }
}
