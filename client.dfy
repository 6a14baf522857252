/**
 * The host tool's transactions (tools/src/main.c): btl_transfer sends one
 * request and checks the reply; flash_erase, flash_file,
 * bootloader_set_baud and bootloader_reset are built on it.
 *
 * The image file is abstract: its bytes and a read position; each read
 * may deliver fewer bytes than asked for or fail.  `failure` prints and
 * exits; here the operation that calls it returns `ok == false` at once.
 */
module HostClient {

  import opened Bytes
  import opened Packet
  import opened HostProto

  // ---------------------------------------------------------------------
  // btl_transfer's reply check

  /** btl_transfer's result from btl_read's result `sz` and the reply's cmd
      and status, as written: `sz` is stored in a uint8_t, so it is never
      negative and a failed read becomes a size of `sz mod 256`. */
  function TransferResult(cmd: byte, sz: int, c: byte, st: byte): (r: int)
    ensures r == -1 || 0 <= r < 256
  {
    var sz8 := sz % 256;
    if sz8 < 0 then -1
    else if c & 0x7F != cmd then -1
    else if st != STATUS_OK then -1
    else sz8
  }

  /** The check with `sz` kept as an int, so that a failed read fails the
      transfer. */
  function TransferChecked(cmd: byte, sz: int, c: byte, st: byte): int
  {
    if sz < 0 then -1
    else if c & 0x7F != cmd then -1
    else if st != STATUS_OK then -1
    else sz
  }

  /** The corrected check succeeds exactly when the read succeeded and the
      reply echoes the command with status OK, and then gives the size. */
  lemma TransferCheckedMeaning(cmd: byte, sz: int, c: byte, st: byte)
    ensures var r := TransferChecked(cmd, sz, c, st);
      && (r >= 0 <==> sz >= 0 && c & 0x7F == cmd && st == STATUS_OK)
      && (r >= 0 ==> r == sz)
      && (r < 0 ==> r == -1)
  {
  }

  /** For every result btl_read can give on success the two checks agree. */
  lemma TransferAgreesOnSuccess(cmd: byte, sz: int, c: byte, st: byte)
    requires 0 <= sz < 256
    ensures TransferResult(cmd, sz, c, st) == TransferChecked(cmd, sz, c, st)
  {
  }

  /** The `< 0` test as written never fires: when btl_read gives up with -1
      and the (uninitialised) cmd and status happen to match, the transfer
      reports a 255-byte reply. */
  lemma FailedReadLooksLikeReply(cmd: byte)
    requires cmd & 0x7F == cmd
    ensures forall sz: int :: sz % 256 >= 0
    ensures TransferResult(cmd, -1, cmd, STATUS_OK) == 255
    ensures TransferChecked(cmd, -1, cmd, STATUS_OK) == -1
  {
  }

  /** btl_transfer's result `r` for a request `cmd` whose reply btl_read
      ended with `res`: a reply is checked as written; a failed read gives
      -1 or, through the uninitialised cmd and status, its result modulo
      256. */
  predicate Checked(res: Received, cmd: byte, r: int)
    requires res.Complete? ==> Accepted(res.frame)
  {
    && (res.BufferOverrun? ==> r == -1)
    && (res.Error? ==> r == -1 || r == res.code % 256)
    && (res.Complete? ==>
         var f := res.frame;
         r == TransferResult(cmd, f[OFF_SIZE] as int, f[OFF_CMD], f[OFF_STATUS]))
  }

  /** What btl_transfer makes of btl_read's outcome `res`: its result and
      the reply's payload. */
  predicate Answer(res: Received, cmd: byte, r: int, overrun: bool, data: seq<byte>)
    requires res.Complete? ==> Accepted(res.frame)
  {
    && Checked(res, cmd, r)
    && (overrun <==> res.BufferOverrun?)
    && (res.Complete? ==> data == res.frame[OFF_DATA..CrcPos(res.frame[OFF_SIZE])])
  }

  /** The requests `xfers` were sent by btl_transfer one after another, and
      each read its reply from what the one before left of `input`: their
      results are `rs`, and `rest` is left unread. */
  ghost predicate Answered(input: seq<ReadEvent>, xfers: seq<Req>, rs: seq<int>, rest: seq<ReadEvent>)
    decreases |xfers|
  {
    && |rs| == |xfers|
    && (if xfers == [] then rest == input
        else
          var (res, mid) := Decode(input, [], 0);
          Checked(res, xfers[0].cmd, rs[0]) && Answered(mid, xfers[1..], rs[1..], rest))
  }

  /** Every transfer succeeded. */
  ghost predicate AllPassed(rs: seq<int>)
  {
    forall i :: 0 <= i < |rs| ==> rs[i] >= 0
  }

  /** Every transfer but the last succeeded, and the last one failed unless
      fewer than `n` requests were sent: the one that could not be sent
      ended the run. */
  ghost predicate FailedLast(rs: seq<int>, sent: nat, n: nat)
  {
    && (forall i :: 0 <= i < |rs| - 1 ==> rs[i] >= 0)
    && ((rs != [] && rs[|rs| - 1] < 0) || sent < n)
  }

  /** The replies a run of transfers read from `input`, for the planned
      requests `p` of which `reqs` went out: with `ok`, every request of
      `p` was transferred and succeeded; otherwise exactly `reqs` were
      transferred and the run stopped at the first failure. */
  ghost predicate Replied(input: seq<ReadEvent>, rest: seq<ReadEvent>, p: seq<Req>, ok: bool,
                          reqs: seq<Req>, rs: seq<int>)
  {
    && Answered(input, if ok then p else reqs, rs, rest)
    && (ok ==> AllPassed(rs))
    && (!ok ==> FailedLast(rs, |reqs|, |p|))
  }

  /** Nothing is transferred after a failed transfer: a failure can only be
      the last result, and then the run reports `false`. */
  lemma NothingAfterFailure(input: seq<ReadEvent>, rest: seq<ReadEvent>, p: seq<Req>, ok: bool,
                            reqs: seq<Req>, rs: seq<int>, k: nat)
    requires Replied(input, rest, p, ok, reqs, rs)
    requires k < |rs| && rs[k] < 0
    ensures !ok && k == |rs| - 1 && |rs| == |reqs|
  {
  }

  /** A run whose first reply is a frame with status ERROR stops after
      that request: the device refusing flash_file's ERASE means no WRITE
      and no RESET is sent. */
  lemma {:induction false} RefusedFirstReplyStops(input: seq<ReadEvent>, rest: seq<ReadEvent>, p: seq<Req>,
                                                  ok: bool, reqs: seq<Req>, rs: seq<int>)
    requires Replied(input, rest, p, ok, reqs, rs)
    requires p != [] && (ok || reqs != [])
    requires Decode(input, [], 0).0.Complete? && Decode(input, [], 0).0.frame[OFF_STATUS] != STATUS_OK
    ensures !ok && |reqs| == 1 && rs == [-1]
  {
    var xfers := if ok then p else reqs;
    assert xfers != [];
    assert rs[0] == -1;
  }

  /** A single transfer. */
  lemma AnsweredOne(input: seq<ReadEvent>, q: Req, r: int)
    ensures Answered(input, [q], [r], Decode(input, [], 0).1) <==> Checked(Decode(input, [], 0).0, q.cmd, r)
  {
    assert [q][1..] == [] && [r][1..] == [];
  }

  /** Transfers one run after another. */
  lemma {:induction false} AnsweredAppend(input: seq<ReadEvent>, xs: seq<Req>, rs: seq<int>, mid: seq<ReadEvent>,
                                          ys: seq<Req>, ts: seq<int>, rest: seq<ReadEvent>)
    requires Answered(input, xs, rs, mid) && Answered(mid, ys, ts, rest)
    ensures Answered(input, xs + ys, rs + ts, rest)
    decreases |xs|
  {
    if xs == [] {
      assert xs + ys == ys && rs + ts == ts;
    } else {
      var next := Decode(input, [], 0).1;
      AnsweredAppend(next, xs[1..], rs[1..], mid, ys, ts, rest);
      assert (xs + ys)[1..] == xs[1..] + ys && (rs + ts)[1..] == rs[1..] + ts;
      assert (xs + ys)[0] == xs[0] && (rs + ts)[0] == rs[0];
    }
  }

  /** btl_transfer: send the request; on a send failure -1, otherwise read
      the reply and check it.  Once the decoder has gone past its buffer
      the model stops with -1 and `overrun`. */
  method Transfer(port: Port, cmd: byte, addr: u32, out: seq<byte>) returns (r: int, overrun: bool, data: seq<byte>)
    modifies port
    ensures |out| > MAX_DATA_SIZE ==>
      r == -1 && !overrun && port.sent == old(port.sent) && port.input == old(port.input)
    ensures |out| <= MAX_DATA_SIZE ==>
      || (r == -1 && !overrun && port.sent == old(port.sent) && port.input == old(port.input))
      || (&& port.sent == old(port.sent) + Frame(cmd, STATUS_OK, addr, out)
          && port.input == Decode(old(port.input), [], 0).1
          && Answer(Decode(old(port.input), [], 0).0, cmd, r, overrun, data))
  {
    data := [];
    overrun := false;
    var w := Write(port, cmd, 0, addr, out);
    if w < 0 {
      return -1, false, data;
    }
    var sz, ov, c, st, a, d := Read(port);
    if ov {
      return -1, true, data;
    }
    data := d;
    r := CheckReply(cmd, sz, c, st);
  }

  /** btl_transfer's tests on the reply, with `sz` narrowed to uint8_t:
      the reply is taken exactly when it echoes the command and reports OK,
      and then its size is the read's result modulo 256, whatever that
      result was. */
  method CheckReply(cmd: byte, sz: int, c: byte, st: byte) returns (r: int)
    ensures r >= 0 <==> c & 0x7F == cmd && st == STATUS_OK
    ensures r >= 0 ==> r == sz % 256
    ensures r < 0 ==> r == -1
  {
    var sz8 := sz % 256;
    if sz8 < 0 {
      return -1;
    }
    if c & 0x7F != cmd {
      return -1;
    }
    if st != STATUS_OK {
      return -1;
    }
    r := sz8;
  }

  // ---------------------------------------------------------------------
  // The requests the host sends

  /** One call of btl_write: command, address and payload. */
  datatype Req = Req(cmd: byte, addr: u32, payload: seq<byte>)

  /** The bytes a sequence of requests puts on the wire; btl_write sends
      nothing for a payload over 64 bytes. */
  function Frames(reqs: seq<Req>): seq<byte>
    decreases |reqs|
  {
    if reqs == [] then []
    else
      var q := reqs[|reqs| - 1];
      Frames(reqs[..|reqs| - 1]) + WireOf(q)
  }

  /** The frame btl_write sends for `q`. */
  function WireOf(q: Req): seq<byte>
  {
    if |q.payload| <= MAX_DATA_SIZE then Frame(q.cmd, STATUS_OK, q.addr, q.payload) else []
  }

  /** flash_erase's request: the file length as a 4-byte little-endian
      payload (the int length becomes a uint32_t). */
  function EraseReq(base: u32, size: nat): Req
  {
    Req(CMD_ERASE, base, U32Le(Wrap32(size)))
  }

  /** bootloader_reset's request. */
  function ResetReq(): Req
  {
    Req(CMD_RESET, 0, [])
  }

  /** All the bytes of `chunks`, in order. */
  function Concat(chunks: seq<seq<byte>>): (s: seq<byte>)
    decreases |chunks|
  {
    if chunks == [] then [] else Concat(chunks[..|chunks| - 1]) + chunks[|chunks| - 1]
  }

  /** flash_file's `addr` once `chunks` have been written from `base`:
      each write advances it by the chunk's length, as a uint32_t. */
  function AddrAfter(base: u32, chunks: seq<seq<byte>>): u32
    decreases |chunks|
  {
    if chunks == [] then base
    else
      var n := |chunks| - 1;
      Wrap32(AddrAfter(base, chunks[..n]) + |chunks[n]|)
  }

  /** flash_file's WRITE requests: each chunk goes to the address reached
      after the chunks before it. */
  function Writes(base: u32, chunks: seq<seq<byte>>): (w: seq<Req>)
    ensures |w| == |chunks|
    decreases |chunks|
  {
    if chunks == [] then []
    else
      var n := |chunks| - 1;
      Writes(base, chunks[..n]) + [Req(CMD_WRITE, AddrAfter(base, chunks[..n]), chunks[n])]
  }

  /** flash_file's requests before the RESET: an ERASE of the whole file
      unless `skip`, then the WRITEs. */
  function Program(base: u32, size: nat, skip: bool, chunks: seq<seq<byte>>): seq<Req>
  {
    (if skip then [] else [EraseReq(base, size)]) + Writes(base, chunks)
  }

  predicate ChunksFit(chunks: seq<seq<byte>>)
  {
    forall i :: 0 <= i < |chunks| ==> 0 < |chunks[i]| <= MAX_DATA_SIZE
  }

  // ---------------------------------------------------------------------
  // Properties of the requests

  /** The wire image of a single request. */
  lemma FramesOne(q: Req)
    ensures Frames([q]) == WireOf(q)
  {
    assert [q][..0] == [];
  }

  /** The wire after `more` has gone out following `reqs`. */
  lemma SentAfter(before: seq<byte>, mid: seq<byte>, after: seq<byte>, reqs: seq<Req>, more: seq<Req>)
    requires |more| <= 1
    requires mid == before + Frames(reqs) && after == mid + Frames(more)
    ensures after == before + Frames(reqs + more)
  {
    FramesCat(reqs, more);
    Assoc(before, Frames(reqs), Frames(more));
  }

  lemma Assoc(a: seq<byte>, b: seq<byte>, c: seq<byte>)
    ensures (a + b) + c == a + (b + c)
  {
  }

  /** The wire after `more` has gone out following `reqs`, for any `more`. */
  lemma SentCat(before: seq<byte>, mid: seq<byte>, after: seq<byte>, reqs: seq<Req>, more: seq<Req>)
    requires mid == before + Frames(reqs) && after == mid + Frames(more)
    ensures after == before + Frames(reqs + more)
  {
    FramesAppend(reqs, more);
    Assoc(before, Frames(reqs), Frames(more));
  }

  /** The wire image of two runs of requests is the two wire images. */
  lemma {:induction false} FramesAppend(a: seq<Req>, b: seq<Req>)
    ensures Frames(a + b) == Frames(a) + Frames(b)
    decreases |b|
  {
    if b == [] {
      assert a + b == a;
    } else {
      var n := |b| - 1;
      FramesAppend(a, b[..n]);
      assert (a + b)[..|a + b| - 1] == a + b[..n];
      Assoc(Frames(a), Frames(b[..n]), WireOf(b[n]));
    }
  }

  /** Sending the requests of `more` after those of `reqs`. */
  lemma FramesCat(reqs: seq<Req>, more: seq<Req>)
    requires |more| <= 1
    ensures Frames(reqs + more) == Frames(reqs) + Frames(more)
  {
    if more == [] {
      assert reqs + more == reqs;
    } else {
      assert (reqs + more)[..|reqs|] == reqs;
      FramesOne(more[0]);
    }
  }

  /** The address after some chunks is `base` plus their total length,
      modulo 2^32. */
  lemma {:induction false} AddrAfterOffset(base: u32, chunks: seq<seq<byte>>)
    ensures AddrAfter(base, chunks) == Wrap32(base + |Concat(chunks)|)
    decreases |chunks|
  {
    if chunks == [] {
      WrapSmall(base);
    } else {
      var n := |chunks| - 1;
      AddrAfterOffset(base, chunks[..n]);
      WrapAdd(base + |Concat(chunks[..n])|, |chunks[n]|);
    }
  }

  /** The i-th WRITE carries the i-th chunk to `base` plus the length of
      the chunks before it. */
  lemma {:induction false} WriteAt(base: u32, chunks: seq<seq<byte>>, i: nat)
    requires i < |chunks|
    ensures Writes(base, chunks)[i] == Req(CMD_WRITE, AddrAfter(base, chunks[..i]), chunks[i])
    ensures Writes(base, chunks)[i].addr == Wrap32(base + |Concat(chunks[..i])|)
    decreases |chunks|
  {
    var n := |chunks| - 1;
    if i < n {
      WriteAt(base, chunks[..n], i);
      assert chunks[..n][..i] == chunks[..i];
    }
    AddrAfterOffset(base, chunks[..i]);
  }

  /** Consecutive WRITEs go to consecutive addresses: each starts where the
      one before it ended. */
  lemma WritesConsecutive(base: u32, chunks: seq<seq<byte>>, i: nat)
    requires i + 1 < |chunks|
    ensures var w := Writes(base, chunks);
      w[i + 1].addr == Wrap32(w[i].addr + |w[i].payload|)
  {
    WriteAt(base, chunks, i);
    WriteAt(base, chunks, i + 1);
    assert chunks[..i + 1][..i] == chunks[..i];
  }

  /** The first WRITE goes to `base`, and the WRITE payloads together are
      the chunks read from the file. */
  lemma {:induction false} WritesCarryChunks(base: u32, chunks: seq<seq<byte>>)
    ensures |chunks| > 0 ==> Writes(base, chunks)[0].addr == base
    ensures Concat(seq(|chunks|, i requires 0 <= i < |chunks| => Writes(base, chunks)[i].payload)) == Concat(chunks)
    decreases |chunks|
  {
    if chunks != [] {
      var n := |chunks| - 1;
      WritesCarryChunks(base, chunks[..n]);
      WriteAt(base, chunks, 0);
      assert chunks[..0] == [];
      var p := seq(|chunks|, i requires 0 <= i < |chunks| => Writes(base, chunks)[i].payload);
      var q := seq(n, i requires 0 <= i < n => Writes(base, chunks[..n])[i].payload);
      assert p[..n] == q;
      WriteAt(base, chunks, n);
    }
  }

  /** Without `skip` the ERASE of the whole file comes first; every other
      request is a WRITE of at most 64 bytes. */
  lemma ProgramOrder(base: u32, size: nat, skip: bool, chunks: seq<seq<byte>>, i: nat)
    requires ChunksFit(chunks)
    ensures var p := Program(base, size, skip, chunks);
      && (!skip ==> |p| > 0 && p[0] == Req(CMD_ERASE, base, U32Le(Wrap32(size))))
      && (var k := if skip then 0 else 1;
          k <= i < |p| ==> p[i].cmd == CMD_WRITE && 0 < |p[i].payload| <= MAX_DATA_SIZE)
  {
    var p := Program(base, size, skip, chunks);
    var k := if skip then 0 else 1;
    forall j | k <= j < |p|
      ensures p[j].cmd == CMD_WRITE && 0 < |p[j].payload| <= MAX_DATA_SIZE
    {
      WriteAt(base, chunks, j - k);
    }
    assert |EraseReq(base, size).payload| == 4;
  }

  // ---------------------------------------------------------------------
  // The image file

  /** The image file opened for reading. */
  class File {
    const content: seq<byte>
    var pos: nat
    /** A read has failed. */
    var failed: bool

    predicate Valid()
      reads this
    {
      pos <= |content|
    }

    constructor (content: seq<byte>)
      ensures Valid() && this.content == content && pos == 0 && !failed
    {
      this.content := content;
      pos := 0;
      failed := false;
    }

    /** read(fd, buf, n): -1 on an error; otherwise up to `n` bytes from
        the current position, at least one unless at the end. */
    method Read(n: nat) returns (k: int, chunk: seq<byte>)
      requires Valid()
      modifies this
      ensures Valid()
      ensures k < 0 ==> k == -1 && failed && pos == old(pos) && chunk == []
      ensures k >= 0 ==>
        && failed == old(failed) && k == |chunk| <= n
        && old(pos) <= pos && chunk == content[old(pos)..pos]
        && (k == 0 <==> n == 0 || old(pos) == |content|)
    {
      var error: bool :| true;
      if error {
        failed := true;
        return -1, [];
      }
      var m := if n < |content| - pos then n else |content| - pos;
      k :| 0 <= k <= m && (k == 0 <==> m == 0);
      chunk := content[pos..pos + k];
      pos := pos + k;
    }
  }

  // ---------------------------------------------------------------------
  // The transactions

  /** bootloader_reset: send RESET and ignore the result.  `out` is what
      went out: the request, or nothing when the write failed. */
  method Reset(port: Port) returns (ghost out: seq<Req>)
    modifies port
    ensures port.input == old(port.input)
    ensures out == [ResetReq()] || out == []
    ensures port.sent == old(port.sent) + Frames(out)
  {
    var _ := Write(port, CMD_RESET, 0, 0, []);
    FramesOne(ResetReq());
    out := if port.sent == old(port.sent) then [] else [ResetReq()];
  }

  /** bootloader_set_baud's request as written: the rate is stored in the
      buffer but the payload length is 0, so no byte of it is sent. */
  function SetBaudReq(baud: u32): Req
  {
    Req(CMD_BAUD, 0, U32Le(baud)[..0])
  }

  /** The intended request: the rate as a 4-byte payload. */
  function SetBaudReqFixed(baud: u32): Req
  {
    Req(CMD_BAUD, 0, U32Le(baud))
  }

  /** Every rate gives the same request as written; the corrected request
      carries the rate, which the device reads back exactly. */
  lemma SetBaudDropsRate(b1: u32, b2: u32)
    ensures SetBaudReq(b1) == SetBaudReq(b2) == Req(CMD_BAUD, 0, [])
    ensures U32Of(SetBaudReqFixed(b1).payload) == b1
    ensures b1 != b2 ==> SetBaudReqFixed(b1) != SetBaudReqFixed(b2)
  {
    U32RoundTrip(b1, U32Le(b1));
    U32RoundTrip(b2, U32Le(b2));
  }

  /** bootloader_set_baud: a BAUD transfer with the request as written;
      false when it fails.  `out` is the request if it went out, and `rs`
      the transfer's result once its reply has been read. */
  method SetBaud(port: Port, baud: u32) returns (ok: bool, ghost out: seq<Req>, ghost rs: seq<int>)
    modifies port
    ensures out == [SetBaudReq(baud)] || out == []
    ensures port.sent == old(port.sent) + Frames(out)
    ensures Answered(old(port.input), out, rs, port.input)
    ensures ok <==> out != [] && rs[0] >= 0
  {
    var buf := U32Le(baud);
    var r, _, _ := Transfer(port, CMD_BAUD, 0, buf[..0]);
    ok := r >= 0;
    out, rs := Sent(port, SetBaudReq(baud), old(port.sent), old(port.input), r);
  }

  /** What went out and came back in one transfer of `q`, from Transfer's
      outcome. */
  lemma Sent(port: Port, q: Req, sent: seq<byte>, input: seq<ReadEvent>, r: int)
      returns (out: seq<Req>, rs: seq<int>)
    requires |q.payload| <= MAX_DATA_SIZE
    requires || (r == -1 && port.sent == sent && port.input == input)
             || (&& port.sent == sent + Frame(q.cmd, STATUS_OK, q.addr, q.payload)
                 && port.input == Decode(input, [], 0).1
                 && Checked(Decode(input, [], 0).0, q.cmd, r))
    ensures out == [q] || out == []
    ensures port.sent == sent + Frames(out)
    ensures Answered(input, out, rs, port.input)
    ensures r >= 0 <==> out != [] && rs[0] >= 0
  {
    FramesOne(q);
    if port.sent == sent {
      out, rs := [], [];
    } else {
      out, rs := [q], [r];
      AnsweredOne(input, q, r);
    }
  }

  /** flash_erase: an ERASE transfer of `size` bytes from `base`; false
      when it fails.  `out` is the request if it went out, and `rs` the
      transfer's result once its reply has been read. */
  method FlashErase(port: Port, base: u32, size: nat) returns (ok: bool, ghost out: seq<Req>, ghost rs: seq<int>)
    modifies port
    ensures out == [EraseReq(base, size)] || out == []
    ensures port.sent == old(port.sent) + Frames(out)
    ensures Answered(old(port.input), out, rs, port.input)
    ensures ok <==> out != [] && rs[0] >= 0
  {
    var buf := U32Le(Wrap32(size));
    var r, _, _ := Transfer(port, CMD_ERASE, base, buf);
    ok := r >= 0;
    out, rs := Sent(port, EraseReq(base, size), old(port.sent), old(port.input), r);
  }

  /** One WRITE transfer of flash_file's loop; false when it fails.  `out`
      is the request if it went out, and `rs` the transfer's result once
      its reply has been read. */
  method WriteChunk(port: Port, addr: u32, chunk: seq<byte>) returns (ok: bool, ghost out: seq<Req>, ghost rs: seq<int>)
    requires |chunk| <= MAX_DATA_SIZE
    modifies port
    ensures out == [Req(CMD_WRITE, addr, chunk)] || out == []
    ensures port.sent == old(port.sent) + Frames(out)
    ensures Answered(old(port.input), out, rs, port.input)
    ensures ok <==> out != [] && rs[0] >= 0
  {
    var r, _, _ := Transfer(port, CMD_WRITE, addr, chunk);
    ok := r >= 0;
    out, rs := Sent(port, Req(CMD_WRITE, addr, chunk), old(port.sent), old(port.input), r);
  }

  /** What flash_file's loop keeps, for a file `content` read up to `pos`:
      the chunks read so far are the file up to `pos`, `addr` is where the
      next chunk goes, `len` counts the bytes left, and the WRITE of every
      chunk has gone out after `before`. */
  ghost predicate Written(content: seq<byte>, pos: nat, base: u32, addr: u32, len: int,
                          chunks: seq<seq<byte>>, before: seq<byte>, after: seq<byte>)
  {
    && pos <= |content|
    && ChunksFit(chunks) && Concat(chunks) == content[..pos]
    && len == |content| - pos
    && addr == AddrAfter(base, chunks)
    && after == before + Frames(Writes(base, chunks))
  }

  /** The address after one more chunk. */
  lemma AddrNext(base: u32, addr: u32, chunks: seq<seq<byte>>, buf: seq<byte>, sz: int)
    requires addr == AddrAfter(base, chunks) && sz == |buf|
    ensures Wrap32(addr + sz) == AddrAfter(base, chunks + [buf])
  {
    assert (chunks + [buf])[..|chunks|] == chunks;
  }

  /** A chunk read and written keeps the loop's invariant. */
  lemma NextKept(content: seq<byte>, pos: nat, pos': nat, buf: seq<byte>, sz: int, base: u32, addr: u32, len: int,
                 chunks: seq<seq<byte>>, before: seq<byte>, mid: seq<byte>, after: seq<byte>)
    requires Written(content, pos, base, addr, len, chunks, before, mid)
    requires pos <= pos' <= |content| && buf == content[pos..pos'] && 0 < |buf| <= MAX_DATA_SIZE
    requires sz == |buf| && after == mid + Frames([Req(CMD_WRITE, addr, buf)])
    ensures Written(content, pos', base, Wrap32(addr + sz), len - sz, chunks + [buf], before, after)
    ensures len - sz < len
  {
    var q := Req(CMD_WRITE, addr, buf);
    AddrNext(base, addr, chunks, buf, sz);
    ChunkStep(base, chunks, buf, content, pos, pos');
    SentAfter(before, mid, after, Writes(base, chunks), [q]);
    assert after == before + Frames(Writes(base, chunks + [buf]));
    assert |buf| == pos' - pos;
  }

  /** A chunk read whose WRITE failed: the requests sent are those of the
      chunks before it, and possibly its own. */
  lemma FailedKept(content: seq<byte>, pos: nat, pos': nat, buf: seq<byte>, base: u32, addr: u32, len: int,
                   chunks: seq<seq<byte>>, before: seq<byte>, mid: seq<byte>, after: seq<byte>, out: seq<Req>)
    requires Written(content, pos, base, addr, len, chunks, before, mid)
    requires pos <= pos' <= |content| && buf == content[pos..pos'] && 0 < |buf| <= MAX_DATA_SIZE
    requires out == [] || out == [Req(CMD_WRITE, addr, buf)]
    requires after == mid + Frames(out)
    ensures var c := chunks + [buf];
      && ChunksFit(c) && Concat(c) == content[..pos']
      && |Writes(base, chunks) + out| <= |c|
      && Writes(base, chunks) + out == Writes(base, c)[..|Writes(base, chunks) + out|]
      && after == before + Frames(Writes(base, chunks) + out)
  {
    ChunkStep(base, chunks, buf, content, pos, pos');
    SentAfter(before, mid, after, Writes(base, chunks), out);
    PrefixSnoc(Writes(base, chunks), Req(CMD_WRITE, addr, buf), out);
  }

  /** How one turn of flash_file's loop ends. */
  datatype Turn = Next | NoInput | Failed

  /** One turn of flash_file's loop: read up to 64 bytes; stop if the read
      gives nothing, else WRITE them to `addr` and advance `addr` and
      `len`.  Every WRITE since `before` and `input` was answered with
      success (results `rs`); when this one fails, `reqs` are the requests
      that went out and `rs'` their results, the last a failure unless
      this WRITE could not be sent. */
  method WriteTurn(port: Port, file: File, base: u32, addr: u32, len: int,
                   ghost chunks: seq<seq<byte>>, ghost before: seq<byte>,
                   ghost input: seq<ReadEvent>, ghost rs: seq<int>)
      returns (t: Turn, addr': u32, len': int, ghost chunks': seq<seq<byte>>, ghost reqs: seq<Req>,
               ghost rs': seq<int>)
    requires len > 0 && file.Valid()
    requires Written(file.content, file.pos, base, addr, len, chunks, before, port.sent)
    requires Answered(input, Writes(base, chunks), rs, port.input) && AllPassed(rs)
    modifies port, file
    ensures file.Valid()
    ensures t.Next? ==> Written(file.content, file.pos, base, addr', len', chunks', before, port.sent) && len' < len
    ensures t.NoInput? ==> Written(file.content, file.pos, base, addr', len', chunks', before, port.sent) && file.failed
    ensures !t.Failed? ==> Answered(input, Writes(base, chunks'), rs', port.input) && AllPassed(rs')
    ensures t.Failed? ==>
      && ChunksFit(chunks') && Concat(chunks') == file.content[..file.pos]
      && |reqs| <= |chunks'| && reqs == Writes(base, chunks')[..|reqs|]
      && port.sent == before + Frames(reqs)
      && Answered(input, reqs, rs', port.input) && FailedLast(rs', |reqs|, |chunks'|)
  {
    addr', len', chunks', reqs, rs' := addr, len, chunks, [], rs;
    ghost var pos := file.pos;
    var sz, buf := file.Read(MAX_DATA_SIZE);
    if sz <= 0 {
      return NoInput, addr', len', chunks', reqs, rs';
    }
    ghost var mid := port.sent;
    ghost var midIn := port.input;
    var written, out, got := WriteChunk(port, addr, buf);
    ghost var q := Req(CMD_WRITE, addr, buf);
    TurnReplies(input, Writes(base, chunks), rs, midIn, q, out, got, port.input, written);
    if !written {
      FailedKept(file.content, pos, file.pos, buf, base, addr, len, chunks, before, mid, port.sent, out);
      return Failed, addr', len', chunks + [buf], Writes(base, chunks) + out, rs + got;
    }
    NextKept(file.content, pos, file.pos, buf, sz, base, addr, len, chunks, before, mid, port.sent);
    ChunkStep(base, chunks, buf, file.content, pos, file.pos);
    t := Next;
    addr' := Wrap32(addr + sz);
    len' := len - sz;
    chunks' := chunks + [buf];
    rs' := rs + got;
  }

  /** One more WRITE after successful ones: it succeeded and the run goes
      on, or it failed or could not be sent and the run stops with it. */
  lemma TurnReplies(input: seq<ReadEvent>, w: seq<Req>, rs: seq<int>, mid: seq<ReadEvent>, q: Req,
                    out: seq<Req>, got: seq<int>, rest: seq<ReadEvent>, ok: bool)
    requires Answered(input, w, rs, mid) && AllPassed(rs)
    requires (out == [q] || out == []) && Answered(mid, out, got, rest)
    requires ok <==> out != [] && got[0] >= 0
    ensures ok ==> Answered(input, w + [q], rs + got, rest) && AllPassed(rs + got)
    ensures !ok ==> Answered(input, w + out, rs + got, rest) && FailedLast(rs + got, |w + out|, |w| + 1)
  {
    AnsweredAppend(input, w, rs, mid, out, got, rest);
  }

  /** flash_file's loop: read the file in chunks of at most 64 bytes and
      WRITE each to the address after the one before, from `base`, until
      the file is used up, a read gives nothing, or a transfer fails
      (`ok == false`).  `reqs` are the requests whose frames went out,
      `chunks` the pieces read and `rs` the transfers' results: a failed
      transfer is the last one. */
  method WriteImage(port: Port, file: File, base: u32)
      returns (ok: bool, ghost reqs: seq<Req>, ghost chunks: seq<seq<byte>>, ghost rs: seq<int>)
    requires file.Valid() && file.pos == 0
    modifies port, file
    ensures file.Valid()
    ensures ChunksFit(chunks) && Concat(chunks) == file.content[..file.pos]
    ensures ok ==> reqs == Writes(base, chunks)
    ensures !ok ==> |reqs| <= |chunks| && reqs == Writes(base, chunks)[..|reqs|]
    ensures port.sent == old(port.sent) + Frames(reqs)
    ensures Replied(old(port.input), port.input, Writes(base, chunks), ok, reqs, rs)
    ensures ok && !file.failed ==> file.pos == |file.content|
  {
    var len := |file.content|;
    chunks := [];
    rs := [];
    var addr := base;
    ghost var before := port.sent;
    while len > 0
      invariant file.Valid()
      invariant Written(file.content, file.pos, base, addr, len, chunks, before, port.sent)
      invariant Answered(old(port.input), Writes(base, chunks), rs, port.input) && AllPassed(rs)
      invariant before == old(port.sent)
      decreases len
    {
      var t;
      t, addr, len, chunks, reqs, rs := WriteTurn(port, file, base, addr, len, chunks, before, old(port.input), rs);
      if t.NoInput? {
        break;
      }
      if t.Failed? {
        return false, reqs, chunks, rs;
      }
    }
    ok := true;
    reqs := Writes(base, chunks);
  }

  /** What flash_file has done once it returns, for an image `content`:
      `chunks` are pieces of its start, each of at most 64 bytes; `reqs`,
      the requests that went out, are the ERASE (unless `skip`) and the
      WRITEs of those chunks and then perhaps the RESET when `ok`, and a
      prefix of them otherwise; unless a read failed, `ok` means the whole
      image was read. */
  ghost predicate Flashed(content: seq<byte>, failed: bool, base: u32, skip: bool, ok: bool,
                          reqs: seq<Req>, chunks: seq<seq<byte>>)
  {
    && ChunksFit(chunks) && |Concat(chunks)| <= |content|
    && Concat(chunks) == content[..|Concat(chunks)|]
    && (var p := Program(base, |content|, skip, chunks);
        && (ok ==> reqs == p + [ResetReq()] || reqs == p)
        && (!ok ==> |reqs| <= |p| && reqs == p[..|reqs|]))
    && (ok && !failed ==> Concat(chunks) == content)
  }

  /** flash_file: erase the image's length from `base` (unless `skip`),
      write the image, then reset the device.  A failed transfer stops
      everything (`ok == false`) before the reset; the reset's own result
      is ignored.  `reqs` are the requests whose frames went out and
      `chunks` the pieces read from the file. */
  method FlashFile(port: Port, file: File, base: u32, skip: bool)
      returns (ok: bool, ghost reqs: seq<Req>, ghost chunks: seq<seq<byte>>, ghost rs: seq<int>)
    requires file.Valid() && file.pos == 0 && |file.content| < 0x8000_0000
    modifies port, file
    ensures port.sent == old(port.sent) + Frames(reqs)
    ensures Flashed(file.content, file.failed, base, skip, ok, reqs, chunks)
    ensures Replied(old(port.input), port.input, Program(base, |file.content|, skip, chunks), ok, reqs, rs)
  {
    chunks := [];
    ghost var head, headRs;
    ok, head, headRs := EraseFirst(port, base, |file.content|, skip);
    if !ok {
      reqs, rs := head, headRs;
      EraseFailed(file.content, file.failed, base, head, headRs, old(port.input), port.input);
      return;
    }
    ghost var mid := port.sent;
    ghost var midIn := port.input;
    ghost var writes, writeRs;
    ok, writes, chunks, writeRs := WriteImage(port, file, base);
    SentCat(old(port.sent), mid, port.sent, head, writes);
    reqs, rs := head + writes, headRs + writeRs;
    if !ok {
      WriteFailed(file.content, file.pos, file.failed, base, skip, head, writes, chunks);
    } else {
      mid := port.sent;
      ghost var out := Reset(port);
      SentAfter(old(port.sent), mid, port.sent, reqs, out);
      ImageWritten(file.content, file.pos, file.failed, base, skip, head, writes, chunks, out);
      reqs := reqs + out;
    }
    ImageReplied(old(port.input), midIn, port.input, base, |file.content|, skip, chunks,
                 head, headRs, ok, writes, writeRs, reqs);
  }

  /** flash_file's ERASE of the whole image, unless `skip`; false when it
      fails.  `head` is the request if it went out, and `rs` its result. */
  method EraseFirst(port: Port, base: u32, size: nat, skip: bool)
      returns (ok: bool, ghost head: seq<Req>, ghost rs: seq<int>)
    modifies port
    ensures port.sent == old(port.sent) + Frames(head)
    ensures Answered(old(port.input), head, rs, port.input)
    ensures ok ==> head == (if skip then [] else [EraseReq(base, size)]) && AllPassed(rs)
    ensures !ok ==> !skip && (head == [] || head == [EraseReq(base, size)]) && !(head != [] && rs[0] >= 0)
  {
    if skip {
      return true, [], [];
    }
    ok, head, rs := FlashErase(port, base, size);
  }

  /** flash_file after a failed ERASE: nothing was sent, or the ERASE was
      sent and refused. */
  lemma EraseFailed(content: seq<byte>, failed: bool, base: u32, sent: seq<Req>, rs: seq<int>,
                    input: seq<ReadEvent>, rest: seq<ReadEvent>)
    requires sent == [] || sent == [EraseReq(base, |content|)]
    requires Answered(input, sent, rs, rest) && !(sent != [] && rs[0] >= 0)
    ensures Flashed(content, failed, base, false, false, sent, [])
    ensures Replied(input, rest, Program(base, |content|, false, []), false, sent, rs)
  {
    assert Program(base, |content|, false, []) == [EraseReq(base, |content|)];
  }

  /** The ERASE's result, if any, followed by the WRITEs' results; once
      all have succeeded, the RESET sent after them reads no reply. */
  lemma ImageReplied(input: seq<ReadEvent>, mid: seq<ReadEvent>, rest: seq<ReadEvent>,
                     base: u32, size: nat, skip: bool, chunks: seq<seq<byte>>,
                     head: seq<Req>, headRs: seq<int>, ok: bool, writes: seq<Req>, rs: seq<int>, reqs: seq<Req>)
    requires head == (if skip then [] else [EraseReq(base, size)])
    requires Answered(input, head, headRs, mid) && AllPassed(headRs)
    requires Replied(mid, rest, Writes(base, chunks), ok, writes, rs)
    requires !ok ==> reqs == head + writes
    ensures Replied(input, rest, Program(base, size, skip, chunks), ok, reqs, headRs + rs)
  {
    var w := Writes(base, chunks);
    assert Program(base, size, skip, chunks) == head + w;
    AnsweredAppend(input, head, headRs, mid, if ok then w else writes, rs, rest);
    assert (if ok then head + w else head + writes) == head + (if ok then w else writes);
    var all := headRs + rs;
    if ok {
      forall i | 0 <= i < |all| ensures all[i] >= 0 {
        if i >= |headRs| { assert all[i] == rs[i - |headRs|]; }
      }
    } else {
      forall i | 0 <= i < |all| - 1 ensures all[i] >= 0 {
        if i >= |headRs| { assert all[i] == rs[i - |headRs|]; }
      }
      if rs != [] {
        assert all[|all| - 1] == rs[|rs| - 1];
      }
    }
  }

  /** flash_file after a failed WRITE. */
  lemma WriteFailed(content: seq<byte>, pos: nat, failed: bool, base: u32, skip: bool,
                    head: seq<Req>, writes: seq<Req>, chunks: seq<seq<byte>>)
    requires head == (if skip then [] else [EraseReq(base, |content|)])
    requires pos <= |content| && ChunksFit(chunks) && Concat(chunks) == content[..pos]
    requires |writes| <= |chunks| && writes == Writes(base, chunks)[..|writes|]
    ensures Flashed(content, failed, base, skip, false, head + writes, chunks)
  {
    var p := Program(base, |content|, skip, chunks);
    assert p == head + Writes(base, chunks);
    assert head + writes == p[..|head + writes|];
  }

  /** flash_file after all the WRITEs and the RESET. */
  lemma ImageWritten(content: seq<byte>, pos: nat, failed: bool, base: u32, skip: bool,
                     head: seq<Req>, writes: seq<Req>, chunks: seq<seq<byte>>, out: seq<Req>)
    requires head == (if skip then [] else [EraseReq(base, |content|)])
    requires pos <= |content| && ChunksFit(chunks) && Concat(chunks) == content[..pos]
    requires writes == Writes(base, chunks) && (out == [] || out == [ResetReq()])
    requires !failed ==> pos == |content|
    ensures Flashed(content, failed, base, skip, true, head + writes + out, chunks)
  {
    assert Program(base, |content|, skip, chunks) == head + writes;
    assert content[..|content|] == content;
  }

  lemma PrefixSnoc(w: seq<Req>, q: Req, out: seq<Req>)
    requires out == [q] || out == []
    ensures |w + out| <= |w + [q]| && w + out == (w + [q])[..|w + out|]
  {
  }

  /** uint32_t addition wraps the same whether or not the first operand
      was wrapped already. */
  lemma WrapAdd(a: int, b: int)
    ensures Wrap32(Wrap32(a) + b) == Wrap32(a + b)
  {
    var q := a / TWO_TO_32;
    assert a == q * TWO_TO_32 + Wrap32(a);
    assert Wrap32(a) + b == (a + b) - q * TWO_TO_32;
    ModShift(a + b, q);
  }

  lemma ModShift(x: int, q: int)
    ensures (x - q * TWO_TO_32) % TWO_TO_32 == x % TWO_TO_32
  {
  }

  lemma WrapSmall(x: u32)
    ensures Wrap32(x) == x
  {
  }

  /** Reading one more chunk of the file extends the bytes read and adds
      the WRITE of that chunk at the next address. */
  lemma ChunkStep(base: u32, chunks: seq<seq<byte>>, buf: seq<byte>, content: seq<byte>, pos: nat, pos': nat)
    requires pos <= pos' <= |content| && Concat(chunks) == content[..pos] && buf == content[pos..pos']
    requires ChunksFit(chunks) && 0 < |buf| <= MAX_DATA_SIZE
    ensures ChunksFit(chunks + [buf])
    ensures Concat(chunks + [buf]) == content[..pos']
    ensures Writes(base, chunks + [buf]) == Writes(base, chunks) + [Req(CMD_WRITE, AddrAfter(base, chunks), buf)]
  {
    assert (chunks + [buf])[..|chunks|] == chunks;
    assert content[..pos'] == content[..pos] + content[pos..pos'];
  }
}
