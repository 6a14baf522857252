/**
 * The frame checksum of the bootloader protocol: a table-free CRC-8,
 * most significant bit first, initial value 0, no reflection and no final
 * XOR, run with the generator 0xD5 (x^8+x^7+x^6+x^4+x^2+1).  These are the
 * CRC-8/DVB-S2 parameters of ETSI EN 302 307-1, clause 5.1.4.
 */
module Crc8 {

  import opened Bytes

  /** BTL_CRC_POLY */
  const POLY: byte := 0xD5

  /** One shift of the division register: shift left and, when the top bit
      falls out, XOR in the generator. */
  function Step(crc: byte, poly: byte): byte
  {
    if crc & 0x80 != 0 then (crc << 1) ^ poly else crc << 1
  }

  /** `n` shifts of the division register. */
  function Steps(crc: byte, poly: byte, n: nat): byte
    decreases n
  {
    if n == 0 then crc else Steps(Step(crc, poly), poly, n - 1)
  }

  /** crc8_calc: fold one byte `a` into the running checksum `crc`. */
  function Calc(crc: byte, a: byte, poly: byte): byte
  {
    Steps(crc ^ a, poly, 8)
  }

  /** The checksum of `s` when the running value starts at `crc`. */
  function CrcFrom(crc: byte, s: seq<byte>): byte
    decreases |s|
  {
    if s == [] then crc else CrcFrom(Calc(crc, s[0], POLY), s[1..])
  }

  /** crc8_cal_buf as a value: the checksum of `s` from the initial value 0. */
  function CrcBuf(s: seq<byte>): byte
  {
    CrcFrom(0, s)
  }

  /** crc8_calc as the source writes it: eight iterations of a loop that
      updates a local register. */
  method CalcLoop(crc: byte, a: byte, poly: byte) returns (r: byte)
    ensures r == Calc(crc, a, poly)
  {
    r := crc ^ a;
    var i := 0;
    while i < 8
      invariant 0 <= i <= 8
      invariant Steps(r, poly, 8 - i) == Calc(crc, a, poly)
    {
      if r & 0x80 != 0 {
        r := (r << 1) ^ poly;
      } else {
        r := r << 1;
      }
      i := i + 1;
    }
  }

  /** crc8_cal_buf over `n` bytes of `a` starting at `start` (both the device
      and the host tool carry an identical copy of this loop). */
  method CalBuf(a: array<byte>, start: nat, n: nat) returns (crc: byte)
    requires start + n <= a.Length
    ensures crc == CrcBuf(a[start..start + n])
  {
    crc := 0;
    var i := 0;
    while i < n
      invariant 0 <= i <= n
      invariant crc == CrcBuf(a[start..start + i])
    {
      CrcFromAppend(0, a[start..start + i], [a[start + i]]);
      assert a[start..start + i] + [a[start + i]] == a[start..start + i + 1];
      crc := CalcLoop(crc, a[start + i], POLY);
      i := i + 1;
    }
  }

  // ---------------------------------------------------------------------
  // Algebra of the register

  lemma {:induction false} StepsOfZero(poly: byte, n: nat)
    ensures Steps(0, poly, n) == 0
    decreases n
  {
    if n > 0 {
      assert Step(0, poly) == 0;
      StepsOfZero(poly, n - 1);
    }
  }

  /** crc8_calc(c, c, poly) == 0: a byte folded into a register equal to it
      clears the register, whatever the generator. */
  lemma CalcSelfIsZero(c: byte, poly: byte)
    ensures Calc(c, c, poly) == 0
  {
    StepsOfZero(poly, 8);
  }

  /** With an odd generator one shift loses no information: the bit that falls
      out of the top reappears as the lowest bit. */
  lemma StepInjective(x: byte, y: byte, poly: byte)
    requires poly & 1 == 1
    ensures Step(x, poly) == Step(y, poly) ==> x == y
  {
    // The lowest bit of a shifted register is the bit that fell out.
    assert Step(x, poly) & 1 == (x >> 7);
    assert Step(y, poly) & 1 == (y >> 7);
  }

  lemma {:induction false} StepsInjective(x: byte, y: byte, poly: byte, n: nat)
    requires poly & 1 == 1
    ensures Steps(x, poly, n) == Steps(y, poly, n) ==> x == y
    decreases n
  {
    if n > 0 {
      StepsInjective(Step(x, poly), Step(y, poly), poly, n - 1);
      StepInjective(x, y, poly);
    }
  }

  /** For a fixed data byte, crc8_calc is injective in the running value. */
  lemma CalcInjectiveInCrc(c1: byte, c2: byte, a: byte, poly: byte)
    requires poly & 1 == 1
    ensures Calc(c1, a, poly) == Calc(c2, a, poly) ==> c1 == c2
  {
    StepsInjective(c1 ^ a, c2 ^ a, poly, 8);
  }

  /** For a fixed running value, crc8_calc is injective in the data byte. */
  lemma CalcInjectiveInByte(c: byte, a1: byte, a2: byte, poly: byte)
    requires poly & 1 == 1
    ensures Calc(c, a1, poly) == Calc(c, a2, poly) ==> a1 == a2
  {
    StepsInjective(c ^ a1, c ^ a2, poly, 8);
  }

  // ---------------------------------------------------------------------
  // The checksum of a buffer

  /** Checksumming is a left fold: a buffer can be checksummed in two parts. */
  lemma {:induction false} CrcFromAppend(crc: byte, s: seq<byte>, t: seq<byte>)
    ensures CrcFrom(crc, s + t) == CrcFrom(CrcFrom(crc, s), t)
    decreases |s|
  {
    if s != [] {
      assert (s + t)[1..] == s[1..] + t;
      CrcFromAppend(Calc(crc, s[0], POLY), s[1..], t);
    } else {
      assert s + t == t;
    }
  }

  /** Running the checksum over covered bytes followed by their own checksum
      yields 0. */
  lemma CrcAppendedIsZero(s: seq<byte>)
    ensures CrcBuf(s + [CrcBuf(s)]) == 0
  {
    CrcFromAppend(0, s, [CrcBuf(s)]);
    CalcSelfIsZero(CrcBuf(s), POLY);
    assert [CrcBuf(s)][1..] == [];
  }

  /** Two different running values stay different over any common suffix. */
  lemma {:induction false} CrcFromInjective(c1: byte, c2: byte, s: seq<byte>)
    ensures CrcFrom(c1, s) == CrcFrom(c2, s) ==> c1 == c2
    decreases |s|
  {
    if s != [] {
      CrcFromInjective(Calc(c1, s[0], POLY), Calc(c2, s[0], POLY), s[1..]);
      CalcInjectiveInCrc(c1, c2, s[0], POLY);
    }
  }

  /** Changing any single covered byte changes the checksum. */
  lemma SingleByteChangeDetected(s: seq<byte>, t: seq<byte>, k: nat)
    requires |s| == |t| && k < |s|
    requires s[k] != t[k]
    requires forall i :: 0 <= i < |s| && i != k ==> s[i] == t[i]
    ensures CrcBuf(s) != CrcBuf(t)
  {
    var pre := s[..k];
    assert t[..k] == pre;
    assert s[k + 1..] == t[k + 1..];
    assert s == pre + [s[k]] + s[k + 1..];
    assert t == pre + [t[k]] + t[k + 1..];
    var c := CrcFrom(0, pre);
    CrcFromAppend(0, pre + [s[k]], s[k + 1..]);
    CrcFromAppend(0, pre, [s[k]]);
    CrcFromAppend(0, pre + [t[k]], t[k + 1..]);
    CrcFromAppend(0, pre, [t[k]]);
    assert [s[k]][1..] == [] && [t[k]][1..] == [];
    CalcInjectiveInByte(c, s[k], t[k], POLY);
    CrcFromInjective(Calc(c, s[k], POLY), Calc(c, t[k], POLY), s[k + 1..]);
  }

  /** crc8_calc written out as its eight shifts. */
  lemma CalcUnrolled(crc: byte, a: byte)
    ensures Calc(crc, a, POLY)
         == Step(Step(Step(Step(Step(Step(Step(Step(crc ^ a, POLY), POLY), POLY), POLY), POLY), POLY), POLY), POLY)
  {
    var x0 := crc ^ a;
    var x1 := Step(x0, POLY);
    var x2 := Step(x1, POLY);
    var x3 := Step(x2, POLY);
    var x4 := Step(x3, POLY);
    var x5 := Step(x4, POLY);
    var x6 := Step(x5, POLY);
    var x7 := Step(x6, POLY);
    assert Steps(x7, POLY, 1) == Step(x7, POLY);
    assert Steps(x6, POLY, 2) == Steps(x7, POLY, 1);
    assert Steps(x5, POLY, 3) == Steps(x6, POLY, 2);
    assert Steps(x4, POLY, 4) == Steps(x5, POLY, 3);
    assert Steps(x3, POLY, 5) == Steps(x4, POLY, 4);
    assert Steps(x2, POLY, 6) == Steps(x3, POLY, 5);
    assert Steps(x1, POLY, 7) == Steps(x2, POLY, 6);
    assert Steps(x0, POLY, 8) == Steps(x1, POLY, 7);
  }

  /** The catalogued check value of CRC-8/DVB-S2: the checksum of the ASCII
      digits "123456789" is 0xBC. */
  lemma CheckValue()
    ensures CrcBuf([0x31, 0x32, 0x33, 0x34, 0x35, 0x36, 0x37, 0x38, 0x39]) == 0xBC
  {
    var s: seq<byte> := [0x31, 0x32, 0x33, 0x34, 0x35, 0x36, 0x37, 0x38, 0x39];
    CalcUnrolled(0x00, 0x31);
    assert Calc(0x00, 0x31, POLY) == 0x23;
    CalcUnrolled(0x23, 0x32);
    assert Calc(0x23, 0x32, POLY) == 0x87;
    CalcUnrolled(0x87, 0x33);
    assert Calc(0x87, 0x33, POLY) == 0xE7;
    CalcUnrolled(0xE7, 0x34);
    assert Calc(0xE7, 0x34, POLY) == 0x8A;
    CalcUnrolled(0x8A, 0x35);
    assert Calc(0x8A, 0x35, POLY) == 0x64;
    CalcUnrolled(0x64, 0x36);
    assert Calc(0x64, 0x36, POLY) == 0xB0;
    CalcUnrolled(0xB0, 0x37);
    assert Calc(0xB0, 0x37, POLY) == 0xBB;
    CalcUnrolled(0xBB, 0x38);
    assert Calc(0xBB, 0x38, POLY) == 0x45;
    CalcUnrolled(0x45, 0x39);
    assert Calc(0x45, 0x39, POLY) == 0xBC;
    assert CrcFrom(0x45, s[8..]) == 0xBC;
    assert CrcFrom(0xBB, s[7..]) == 0xBC;
    assert CrcFrom(0xB0, s[6..]) == 0xBC;
    assert CrcFrom(0x64, s[5..]) == 0xBC;
    assert CrcFrom(0x8A, s[4..]) == 0xBC;
    assert CrcFrom(0xE7, s[3..]) == 0xBC;
    assert CrcFrom(0x87, s[2..]) == 0xBC;
    assert CrcFrom(0x23, s[1..]) == 0xBC;
  }
}
