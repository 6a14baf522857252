/**
 * The USART queue layer of src/usart.c for one port: a receive queue and a
 * transmit queue on top of the ring buffer, and the bodies of the three
 * interrupt handlers, each taken as one atomic step.
 *
 * The peripheral is abstract.  What the code does to it is appended to an
 * event log; what it reads from it is the sequence `pending` of received
 * bytes not yet taken (usart_hw_rx_ready holds iff it is non-empty and
 * usart_hw_rx takes its first byte).  A callback is foreign code: calling
 * it is an event.
 */
module UsartQueues {

  import opened Bytes
  import opened RingBuffer

  /** One effect on the peripheral or one callback invocation. */
  datatype HwEvent =
    | TxIrqEnable
    | TxIrqDisable
    | TxCompleteIrqDisable
    | Tx(b: byte)
    | RxCallback(b: byte)
    | TxCallback

  /** The smaller of two counts. */
  function Min(a: int, b: int): (m: int)
    ensures m <= a && m <= b && (m == a || m == b)
  {
    if a < b then a else b
  }

  /** struct usart for one port. */
  class Usart {
    const rx: Queue
    const tx: Queue
    /** rx.len: the receive buffer length given at init (0: no buffer). */
    const rxLen: nat
    /** Whether a receive / transmit callback is installed. */
    var rxCb: bool
    var txCb: bool
    /** Bytes the receiver holds and has not yet delivered. */
    var pending: seq<byte>
    /** Everything done to the peripheral, in order. */
    var events: seq<HwEvent>

    ghost predicate Valid()
      reads this, rx, rx.data, tx, tx.data
    {
      && rx != tx && rx.data != tx.data
      && rx.Valid() && tx.Valid()
      && rxLen == rx.size
    }

    /** The bytes usart_read hands out next, in order: the queued ones,
        then those still in the receiver. */
    ghost function Available(): seq<byte>
      reads this, rx
    {
      rx.Contents + pending
    }

    /** usart_init for a port whose buffers were allocated: queues of
        `rxBuf.Length` and `txBuf.Length` bytes, no callbacks. */
    constructor (rxBuf: array<byte>, txBuf: array<byte>)
      requires rxBuf != txBuf
      requires rxBuf.Length == 0 || IsPow2(rxBuf.Length)
      requires txBuf.Length == 0 || IsPow2(txBuf.Length)
      ensures Valid() && fresh(rx) && fresh(tx)
      ensures rx.Contents == [] && tx.Contents == [] && rx.data == rxBuf && tx.data == txBuf
      ensures !rxCb && !txCb && pending == [] && events == []
    {
      rx := new Queue.Init(rxBuf, rxBuf.Length);
      tx := new Queue.Init(txBuf, txBuf.Length);
      rxLen := rxBuf.Length;
      rxCb := false;
      txCb := false;
      pending := [];
      events := [];
    }

    /** usart_tx_complete_irq: run the transmit callback if there is one,
        then disable the transmit-complete interrupt. */
    method TxCompleteIrq()
      requires Valid()
      modifies this
      ensures Valid() && pending == old(pending) && rxCb == old(rxCb) && txCb == old(txCb)
      ensures rx.Contents == old(rx.Contents) && tx.Contents == old(tx.Contents)
      ensures events == old(events) + (if old(txCb) then [TxCallback] else []) + [TxCompleteIrqDisable]
    {
      if txCb {
        events := events + [TxCallback];
      }
      events := events + [TxCompleteIrqDisable];
    }

    /** usart_tx_irq: send the oldest queued byte, or disable the transmit
        interrupt when nothing is queued. */
    method TxIrq()
      requires Valid()
      modifies this, tx
      ensures Valid() && pending == old(pending) && rx.Contents == old(rx.Contents)
      ensures rxCb == old(rxCb) && txCb == old(txCb)
      ensures old(tx.Contents) == [] ==>
        tx.Contents == [] && events == old(events) + [TxIrqDisable]
      ensures old(tx.Contents) != [] ==>
        && tx.Contents == old(tx.Contents)[1..]
        && events == old(events) + [Tx(old(tx.Contents)[0])]
    {
      var data := tx.Read();
      if data < 0 {
        events := events + [TxIrqDisable];
        return;
      }
      events := events + [Tx(ToByte(data))];
      ByteValueInjective(ToByte(data), old(tx.Contents)[0]);
    }

    /** usart_rx_irq: take the received byte; hand it to the callback if
        there is one, otherwise queue it if the port has a receive buffer.
        A byte that finds the queue full is lost. */
    method RxIrq()
      requires Valid() && pending != []
      modifies this, rx, rx.data
      ensures Valid() && pending == old(pending)[1..] && tx.Contents == old(tx.Contents)
      ensures rxCb == old(rxCb) && txCb == old(txCb)
      ensures var d := old(pending)[0];
        if old(rxCb) then
          events == old(events) + [RxCallback(d)] && rx.Contents == old(rx.Contents)
        else
          && events == old(events)
          && rx.Contents == (if rxLen != 0 && |old(rx.Contents)| < rxLen
                             then old(rx.Contents) + [d] else old(rx.Contents))
    {
      var data := pending[0];
      pending := pending[1..];
      if rxCb {
        events := events + [RxCallback(data)];
      } else if rxLen != 0 {
        var _ := rx.Write(data);
      }
    }

    /** usart_write: queue `d` for sending and enable the transmit
        interrupt; -1, with nothing enabled, when the queue is full. */
    method Write(d: byte) returns (r: int)
      requires Valid()
      modifies tx, tx.data, this
      ensures Valid() && pending == old(pending) && rx.Contents == old(rx.Contents)
      ensures rxCb == old(rxCb) && txCb == old(txCb)
      ensures |old(tx.Contents)| == tx.size ==>
        r == -1 && tx.Contents == old(tx.Contents) && events == old(events)
      ensures |old(tx.Contents)| < tx.size ==>
        r == 0 && tx.Contents == old(tx.Contents) + [d] && events == old(events) + [TxIrqEnable]
    {
      var w := tx.Write(d);
      if w < 0 {
        return -1;
      }
      events := events + [TxIrqEnable];
      r := 0;
    }

    /** usart_write_buf: queue bytes of `buf` in order until the queue is
        full, enable the transmit interrupt, and return how many were
        queued. */
    method WriteBuf(buf: seq<byte>) returns (n: int)
      requires Valid()
      modifies tx, tx.data, this
      ensures Valid() && pending == old(pending) && rx.Contents == old(rx.Contents)
      ensures rxCb == old(rxCb) && txCb == old(txCb)
      ensures tx.size == old(tx.size) && 0 <= n <= |buf|
      ensures n == Min(|buf|, tx.size - |old(tx.Contents)|)
      ensures tx.Contents == old(tx.Contents) + buf[..n]
      ensures events == old(events) + [TxIrqEnable]
    {
      var len := |buf|;
      var p := 0;
      while len > 0
        invariant 0 <= p <= |buf| && len == |buf| - p
        invariant Valid() && pending == old(pending) && events == old(events)
        invariant rxCb == old(rxCb) && txCb == old(txCb)
        invariant tx.data == old(tx.data) && tx.size == old(tx.size)
        invariant rx.Contents == old(rx.Contents)
        invariant tx.Contents == old(tx.Contents) + buf[..p]
        invariant p <= tx.size - |old(tx.Contents)|
      {
        var w := tx.Write(buf[p]);
        if w < 0 {
          break;
        }
        assert buf[..p + 1] == buf[..p] + [buf[p]];
        p := p + 1;
        len := len - 1;
      }
      events := events + [TxIrqEnable];
      n := |buf| - len;
    }

    /** usart_read: the oldest queued byte, else a byte straight from the
        receiver, else -1. */
    method Read() returns (r: int)
      requires Valid()
      modifies this, rx
      ensures Valid() && events == old(events) && tx.Contents == old(tx.Contents)
      ensures rxCb == old(rxCb) && txCb == old(txCb)
      ensures rx.data == old(rx.data)
      ensures old(Available()) == [] ==> r == -1 && Available() == []
      ensures old(Available()) != [] ==>
        r == old(Available())[0] as int && Available() == old(Available())[1..]
    {
      r := rx.Read();
      if r < 0 {
        if pending != [] {
          r := pending[0] as int;
          pending := pending[1..];
        }
      }
    }

    /** usart_read_buf: read bytes into `buf` until `len` have been read or
        none is available, and return how many were read. */
    method ReadBuf(buf: array<byte>, len: nat) returns (n: int)
      requires Valid() && len <= buf.Length
      requires buf != rx.data && buf != tx.data
      modifies this, rx, buf
      ensures Valid() && events == old(events) && tx.Contents == old(tx.Contents)
      ensures rxCb == old(rxCb) && txCb == old(txCb)
      ensures n == Min(len, |old(Available())|)
      ensures buf[..n] == old(Available())[..n] && buf[n..] == old(buf[n..])
      ensures Available() == old(Available())[n..]
    {
      var left := len;
      var i := 0;
      ghost var avail := Available();
      while left > 0
        invariant 0 <= i <= len && left == len - i
        invariant Valid() && events == old(events) && tx.Contents == old(tx.Contents)
        invariant rxCb == old(rxCb) && txCb == old(txCb)
        invariant rx.data == old(rx.data)
        invariant i <= |avail| && Available() == avail[i..]
        invariant forall j :: 0 <= j < i ==> buf[j] == avail[j]
        invariant forall j :: i <= j < buf.Length ==> buf[j] == old(buf[j])
      {
        var got := ReadInto(buf, i);
        if !got {
          break;
        }
        i := i + 1;
        left := left - 1;
      }
      n := len - left;
    }

    /** One turn of usart_read_buf's loop: usart_read, and its byte stored
        at buf[i] unless it gave -1. */
    method ReadInto(buf: array<byte>, i: nat) returns (got: bool)
      requires Valid() && i < buf.Length
      requires buf != rx.data && buf != tx.data
      modifies this, rx, buf
      ensures Valid() && events == old(events) && tx.Contents == old(tx.Contents)
      ensures rxCb == old(rxCb) && txCb == old(txCb) && rx.data == old(rx.data)
      ensures got <==> old(Available()) != []
      ensures got ==> buf[..] == old(buf[..])[i := old(Available())[0]] && Available() == old(Available())[1..]
      ensures !got ==> buf[..] == old(buf[..]) && Available() == []
    {
      var c := Read();
      if c < 0 {
        return false;
      }
      buf[i] := ToByte(c);
      ByteValueInjective(buf[i], old(Available())[0]);
      got := true;
    }
  }
}
