/**
 * The on-chip flash as the protocol engine sees it: a byte map plus a log of
 * the calls made to the two primitives that change it.  Whether a write or an
 * erase succeeds is decided by the hardware; here it is a nondeterministic
 * choice, recorded in the log entry.  Reading is a plain memory copy.
 */
module Flash {

  import opened Bytes

  /** One call to flash_write or flash_erase, with its outcome. */
  datatype FlashOp =
    | WriteOp(addr: u32, data: seq<byte>, ok: bool)
    | EraseOp(addr: u32, len: u32, ok: bool)

  /** Flash contents: the byte stored at every 32-bit address. */
  type Memory = u32 -> byte

  /** The value of an erased flash byte. */
  const ERASED: byte := 0xFF

  /** The `n` bytes of `mem` from `addr` on, wrapping at 2^32. */
  function BytesAt(mem: Memory, addr: u32, n: nat): (b: seq<byte>)
    ensures |b| == n
    decreases n
  {
    if n == 0 then [] else [mem(addr)] + BytesAt(mem, Wrap32(addr + 1), n - 1)
  }

  /** `mem` with the byte at `addr` replaced by `d`. */
  function Store(mem: Memory, addr: u32, d: byte): Memory
  {
    (a: u32) => if a == addr then d else mem(a)
  }

  /** `mem` after programming `data` at `addr`. */
  function Program(mem: Memory, addr: u32, data: seq<byte>): Memory
    decreases |data|
  {
    if data == [] then mem else Program(Store(mem, addr, data[0]), Wrap32(addr + 1), data[1..])
  }

  /** Does `a` lie in the `len` bytes that start at `addr` (wrapping)? */
  predicate InRange(a: u32, addr: u32, len: int)
  {
    (a - addr) % TWO_TO_32 < len
  }

  /** `mem` after erasing the `len` bytes at `addr`. */
  function EraseRange(mem: Memory, addr: u32, len: u32): Memory
  {
    (a: u32) => if InRange(a, addr, len as int) then ERASED else mem(a)
  }

  /** Does the call `op` address the byte `a`? */
  predicate Touches(op: FlashOp, a: u32)
  {
    match op
    case WriteOp(addr, data, _) => InRange(a, addr, |data|)
    case EraseOp(addr, len, _) => InRange(a, addr, len as int)
  }

  /** `after` is the flash once `op` has been carried out on `before`; a
      failed call may leave the flash in any state. */
  ghost predicate Applied(before: Memory, after: Memory, op: FlashOp)
  {
    match op
    case WriteOp(addr, data, ok) => ok ==> after == Program(before, addr, data)
    case EraseOp(addr, len, ok) => ok ==> after == EraseRange(before, addr, len)
  }

  /** Programming leaves every address outside the programmed range as it was. */
  lemma {:induction false} ProgramOutside(mem: Memory, addr: u32, data: seq<byte>, a: u32)
    requires |data| < TWO_TO_32
    requires !InRange(a, addr, |data|)
    ensures Program(mem, addr, data)(a) == mem(a)
    decreases |data|
  {
    if data != [] {
      assert a != addr;
      var next := Wrap32(addr + 1);
      assert (a - next) % TWO_TO_32 == (a - addr) % TWO_TO_32 - 1;
      ProgramOutside(Store(mem, addr, data[0]), next, data[1..], a);
    }
  }

  /** What was programmed reads back unchanged (the partner of a later VERIFY). */
  lemma {:induction false} ProgramReadBack(mem: Memory, addr: u32, data: seq<byte>)
    requires |data| < TWO_TO_32
    ensures BytesAt(Program(mem, addr, data), addr, |data|) == data
    decreases |data|
  {
    if data != [] {
      var m1 := Store(mem, addr, data[0]);
      var next := Wrap32(addr + 1);
      assert (addr - next) % TWO_TO_32 == TWO_TO_32 - 1;
      ProgramOutside(m1, next, data[1..], addr);
      ProgramReadBack(m1, next, data[1..]);
    }
  }

  class Flash {
    var mem: Memory
    var log: seq<FlashOp>

    constructor (initial: Memory)
      ensures mem == initial && log == []
    {
      mem := initial;
      log := [];
    }

    /** flash_read: copy `n` bytes out of flash; it always reports `n`. */
    function Read(addr: u32, n: nat): seq<byte>
      reads this
    {
      BytesAt(mem, addr, n)
    }

    /** flash_write: program `data` at `addr`; returns the length or -1. */
    method Write(addr: u32, data: seq<byte>) returns (r: int)
      modifies this
      ensures r == |data| || r == -1
      ensures log == old(log) + [WriteOp(addr, data, r >= 0)]
      ensures r >= 0 ==> mem == Program(old(mem), addr, data)
    {
      var ok: bool :| true;
      if ok {
        mem := Program(mem, addr, data);
        r := |data|;
      } else {
        var partial: Memory :| true;
        mem := partial;
        r := -1;
      }
      log := log + [WriteOp(addr, data, ok)];
    }

    /** flash_erase: erase the `len` bytes at `addr`; returns 0 or -1. */
    method Erase(addr: u32, len: u32) returns (r: int)
      modifies this
      ensures r == 0 || r == -1
      ensures log == old(log) + [EraseOp(addr, len, r == 0)]
      ensures r == 0 ==> mem == EraseRange(old(mem), addr, len)
    {
      var ok: bool :| true;
      if ok {
        mem := EraseRange(mem, addr, len);
        r := 0;
      } else {
        var partial: Memory :| true;
        mem := partial;
        r := -1;
      }
      log := log + [EraseOp(addr, len, ok)];
    }
  }
}
