/**
 The CRC of the frame codec: the table-driven form the code runs, the bitwise CRC-16/ARC
 definition it must equal (polynomial 0x8005 reflected to 0xA001, initial value 0, no final xor),
 and the error patterns it is bound to detect.
 */
module Crc16 {
  import opened Bytes

  const INITIAL_CRC: bv16 := 0

  /** One row of eight entries of the lookup table. */
  function CrcTableRow(row: nat): (entries: seq<bv16>)
    ensures |entries| == 8
  {
    match row
    case 0 => [0x0000, 0xC0C1, 0xC181, 0x0140, 0xC301, 0x03C0, 0x0280, 0xC241]
    case 1 => [0xC601, 0x06C0, 0x0780, 0xC741, 0x0500, 0xC5C1, 0xC481, 0x0440]
    case 2 => [0xCC01, 0x0CC0, 0x0D80, 0xCD41, 0x0F00, 0xCFC1, 0xCE81, 0x0E40]
    case 3 => [0x0A00, 0xCAC1, 0xCB81, 0x0B40, 0xC901, 0x09C0, 0x0880, 0xC841]
    case 4 => [0xD801, 0x18C0, 0x1980, 0xD941, 0x1B00, 0xDBC1, 0xDA81, 0x1A40]
    case 5 => [0x1E00, 0xDEC1, 0xDF81, 0x1F40, 0xDD01, 0x1DC0, 0x1C80, 0xDC41]
    case 6 => [0x1400, 0xD4C1, 0xD581, 0x1540, 0xD701, 0x17C0, 0x1680, 0xD641]
    case 7 => [0xD201, 0x12C0, 0x1380, 0xD341, 0x1100, 0xD1C1, 0xD081, 0x1040]
    case 8 => [0xF001, 0x30C0, 0x3180, 0xF141, 0x3300, 0xF3C1, 0xF281, 0x3240]
    case 9 => [0x3600, 0xF6C1, 0xF781, 0x3740, 0xF501, 0x35C0, 0x3480, 0xF441]
    case 10 => [0x3C00, 0xFCC1, 0xFD81, 0x3D40, 0xFF01, 0x3FC0, 0x3E80, 0xFE41]
    case 11 => [0xFA01, 0x3AC0, 0x3B80, 0xFB41, 0x3900, 0xF9C1, 0xF881, 0x3840]
    case 12 => [0x2800, 0xE8C1, 0xE981, 0x2940, 0xEB01, 0x2BC0, 0x2A80, 0xEA41]
    case 13 => [0xEE01, 0x2EC0, 0x2F80, 0xEF41, 0x2D00, 0xEDC1, 0xEC81, 0x2C40]
    case 14 => [0xE401, 0x24C0, 0x2580, 0xE541, 0x2700, 0xE7C1, 0xE681, 0x2640]
    case 15 => [0x2200, 0xE2C1, 0xE381, 0x2340, 0xE101, 0x21C0, 0x2080, 0xE041]
    case 16 => [0xA001, 0x60C0, 0x6180, 0xA141, 0x6300, 0xA3C1, 0xA281, 0x6240]
    case 17 => [0x6600, 0xA6C1, 0xA781, 0x6740, 0xA501, 0x65C0, 0x6480, 0xA441]
    case 18 => [0x6C00, 0xACC1, 0xAD81, 0x6D40, 0xAF01, 0x6FC0, 0x6E80, 0xAE41]
    case 19 => [0xAA01, 0x6AC0, 0x6B80, 0xAB41, 0x6900, 0xA9C1, 0xA881, 0x6840]
    case 20 => [0x7800, 0xB8C1, 0xB981, 0x7940, 0xBB01, 0x7BC0, 0x7A80, 0xBA41]
    case 21 => [0xBE01, 0x7EC0, 0x7F80, 0xBF41, 0x7D00, 0xBDC1, 0xBC81, 0x7C40]
    case 22 => [0xB401, 0x74C0, 0x7580, 0xB541, 0x7700, 0xB7C1, 0xB681, 0x7640]
    case 23 => [0x7200, 0xB2C1, 0xB381, 0x7340, 0xB101, 0x71C0, 0x7080, 0xB041]
    case 24 => [0x5000, 0x90C1, 0x9181, 0x5140, 0x9301, 0x53C0, 0x5280, 0x9241]
    case 25 => [0x9601, 0x56C0, 0x5780, 0x9741, 0x5500, 0x95C1, 0x9481, 0x5440]
    case 26 => [0x9C01, 0x5CC0, 0x5D80, 0x9D41, 0x5F00, 0x9FC1, 0x9E81, 0x5E40]
    case 27 => [0x5A00, 0x9AC1, 0x9B81, 0x5B40, 0x9901, 0x59C0, 0x5880, 0x9841]
    case 28 => [0x8801, 0x48C0, 0x4980, 0x8941, 0x4B00, 0x8BC1, 0x8A81, 0x4A40]
    case 29 => [0x4E00, 0x8EC1, 0x8F81, 0x4F40, 0x8D01, 0x4DC0, 0x4C80, 0x8C41]
    case 30 => [0x4400, 0x84C1, 0x8581, 0x4540, 0x8701, 0x47C0, 0x4680, 0x8641]
    case _ => [0x8201, 0x42C0, 0x4380, 0x8341, 0x4100, 0x81C1, 0x8081, 0x4040]
  }

  function CrcTable(index: bv8): bv16 {
    CrcTableRow((index >> 3) as nat)[(index & 7) as nat]
  }

  /** The bits of a byte, zero-extended to the width of the CRC register. */
  function Bits(b: byte): bv16 {
    (b as bv8) as bv16
  }

  function Xor(a: bv16, b: bv16): bv16 {
    a ^ b
  }

  function LowByte(x: bv16): bv8 {
    (x & 0xFF) as bv8
  }

  /** Table-driven update by one byte. */
  function CrcStep(data: byte, crc: bv16): bv16 {
    Xor(crc >> 8, CrcTable(LowByte(Xor(crc, Bits(data)))))
  }

  /** Table-driven CRC of a sequence, resumed from `initial`. */
  function Crc(s: seq<byte>, initial: bv16): bv16 {
    if s == [] then initial else CrcStep(s[|s| - 1], Crc(s[..|s| - 1], initial))
  }

  /** The accumulator loop over an array. */
  method ComputeCrc(data: array<byte>, size: nat, initial: bv16) returns (crc: bv16)
    requires size <= data.Length
    ensures crc == Crc(data[..size], initial)
  {
    crc := initial;
    for i := 0 to size
      invariant crc == Crc(data[..i], initial)
    {
      crc := CrcStep(data[i], crc);
      assert data[..i + 1][..i] == data[..i];
    }
  }

  // ----- The reference definition, one bit at a time.

  function BitStep(crc: bv16): bv16 {
    if crc & 1 == 1 then (crc >> 1) ^ 0xA001 else crc >> 1
  }

  function EightSteps(crc: bv16): bv16 {
    BitStep(BitStep(BitStep(BitStep(BitStep(BitStep(BitStep(BitStep(crc))))))))
  }

  /** CRC-16/ARC: exclusive-or each byte into the register, then shift eight times with feedback. */
  function BitwiseCrc(s: seq<byte>, initial: bv16): bv16 {
    if s == [] then initial
    else EightSteps(Xor(BitwiseCrc(s[..|s| - 1], initial), Bits(s[|s| - 1])))
  }

  lemma TableLowHalf(i: bv8)
    requires i < 0x80
    ensures CrcTable(i) == EightSteps(i as bv16)
  {
  }

  lemma TableHighHalf(i: bv8)
    requires i >= 0x80
    ensures CrcTable(i) == EightSteps(i as bv16)
  {
  }

  /** Each of the 256 table entries is the bitwise CRC of its index. */
  lemma TableIsBitwise(i: bv8)
    ensures CrcTable(i) == EightSteps(i as bv16)
  {
    if i < 0x80 { TableLowHalf(i); } else { TableHighHalf(i); }
  }

  // The CRC is linear: steps distribute over exclusive or.

  lemma StepWithout(c: bv16)
    requires c & 1 == 0
    ensures BitStep(c) == c >> 1
  {
  }

  lemma StepWith(c: bv16)
    requires c & 1 == 1
    ensures BitStep(c) == Xor(c >> 1, 0xA001)
  {
  }

  lemma XorLastBit(even: bv16, c: bv16)
    requires even & 1 == 0
    ensures Xor(even, c) & 1 == c & 1
  {
  }

  lemma XorIsXor(c: bv16, d: bv16)
    ensures Xor(c, d) == c ^ d
  {
  }

  lemma ShiftDistributes(c: bv16, d: bv16)
    ensures (c ^ d) >> 1 == (c >> 1) ^ (d >> 1)
  {
  }

  lemma XorShift(c: bv16, d: bv16)
    ensures Xor(c, d) >> 1 == Xor(c >> 1, d >> 1)
  {
    hide Xor;
    XorIsXor(c, d);
    XorIsXor(c >> 1, d >> 1);
    ShiftDistributes(c, d);
  }

  lemma StepOfEven(even: bv16, c: bv16)
    requires even & 1 == 0
    ensures BitStep(Xor(even, c)) == Xor(BitStep(even), BitStep(c))
  {
    hide Xor, BitStep;
    XorLastBit(even, c);
    XorShift(even, c);
    StepWithout(even);
    BitIsZeroOrOne(c);
    if c & 1 == 0 {
      StepWithout(c);
      StepWithout(Xor(even, c));
    } else {
      StepWith(c);
      StepWith(Xor(even, c));
      XorAssociates(even >> 1, c >> 1, 0xA001);
    }
  }

  lemma StepOfOdd(c: bv16, d: bv16)
    requires c & 1 == 1 && d & 1 == 1
    ensures BitStep(Xor(c, d)) == Xor(BitStep(c), BitStep(d))
  {
  }

  lemma XorCommutes(c: bv16, d: bv16)
    ensures Xor(c, d) == Xor(d, c)
  {
  }

  lemma XorAssociates(a: bv16, b: bv16, c: bv16)
    ensures Xor(Xor(a, b), c) == Xor(a, Xor(b, c))
  {
  }

  lemma BitIsZeroOrOne(c: bv16)
    ensures c & 1 == 0 || c & 1 == 1
  {
  }

  lemma StepLinear(c: bv16, d: bv16)
    ensures BitStep(Xor(c, d)) == Xor(BitStep(c), BitStep(d))
  {
    hide Xor, BitStep;
    BitIsZeroOrOne(c);
    BitIsZeroOrOne(d);
    if c & 1 == 0 {
      StepOfEven(c, d);
    } else if d & 1 == 0 {
      XorCommutes(c, d);
      StepOfEven(d, c);
      XorCommutes(BitStep(c), BitStep(d));
    } else {
      StepOfOdd(c, d);
    }
  }

  lemma EightStepsLinear(c: bv16, d: bv16)
    ensures EightSteps(Xor(c, d)) == Xor(EightSteps(c), EightSteps(d))
  {
    hide Xor, BitStep;
    var c1, d1 := BitStep(c), BitStep(d);
    var c2, d2 := BitStep(c1), BitStep(d1);
    var c3, d3 := BitStep(c2), BitStep(d2);
    var c4, d4 := BitStep(c3), BitStep(d3);
    var c5, d5 := BitStep(c4), BitStep(d4);
    var c6, d6 := BitStep(c5), BitStep(d5);
    var c7, d7 := BitStep(c6), BitStep(d6);
    StepLinear(c, d);
    StepLinear(c1, d1);
    StepLinear(c2, d2);
    StepLinear(c3, d3);
    StepLinear(c4, d4);
    StepLinear(c5, d5);
    StepLinear(c6, d6);
    StepLinear(c7, d7);
  }

  lemma HighAndLow(x: bv16)
    ensures x == Xor(x & 0xFF00, x & 0xFF) && (x & 0xFF00) & 0xFF == 0 && (x & 0xFF00) >> 8 == x >> 8
  {
  }

  /** Eight steps shift a register with a clear low byte out without feedback. */
  lemma StepsShiftHigh(h: bv16)
    requires h & 0xFF == 0
    ensures EightSteps(h) == h >> 8
  {
  }

  lemma StepsSplit(x: bv16)
    ensures EightSteps(x) == Xor(x >> 8, EightSteps(x & 0xFF))
  {
    hide Xor, EightSteps;
    HighAndLow(x);
    StepsShiftHigh(x & 0xFF00);
    EightStepsLinear(x & 0xFF00, x & 0xFF);
  }

  lemma XorBytes(crc: bv16, d: bv16)
    requires d <= 0xFF
    ensures Xor(crc, d) >> 8 == crc >> 8
    ensures LowByte(Xor(crc, d)) as bv16 == Xor(crc, d) & 0xFF
  {
  }

  lemma BitsAreLow(b: byte)
    ensures Bits(b) <= 0xFF
  {
  }

  lemma StepIsBitwise(d: byte, crc: bv16)
    ensures CrcStep(d, crc) == EightSteps(Xor(crc, Bits(d)))
  {
    hide Xor, LowByte, Bits, CrcTable, EightSteps;
    var x := Xor(crc, Bits(d));
    BitsAreLow(d);
    XorBytes(crc, Bits(d));
    StepsSplit(x);
    TableIsBitwise(LowByte(x));
  }

  /** The table-driven CRC is CRC-16/ARC on every byte sequence and from every initial value. */
  lemma {:induction false} CrcIsBitwise(s: seq<byte>, initial: bv16)
    ensures Crc(s, initial) == BitwiseCrc(s, initial)
  {
    if s != [] {
      CrcIsBitwise(s[..|s| - 1], initial);
      StepIsBitwise(s[|s| - 1], Crc(s[..|s| - 1], initial));
    }
  }

  /** Resuming over the data from the header CRC is one pass over header and data. */
  lemma {:induction false} CrcResumes(a: seq<byte>, b: seq<byte>, initial: bv16)
    ensures Crc(a + b, initial) == Crc(b, Crc(a, initial))
  {
    if b == [] {
      assert a + b == a;
    } else {
      CrcResumes(a, b[..|b| - 1], initial);
      ConcatFront(a, b);
    }
  }

  // ----- Error detection

  lemma HighBytesOfSteps(i: bv8, j: bv8)
    requires EightSteps(i as bv16) >> 8 == EightSteps(j as bv16) >> 8
    ensures i == j
  {
  }

  /** The high bytes of the table entries are pairwise distinct. */
  lemma TableHighBytesDistinct(i: bv8, j: bv8)
    requires CrcTable(i) >> 8 == CrcTable(j) >> 8
    ensures i == j
  {
    TableIsBitwise(i);
    TableIsBitwise(j);
    HighBytesOfSteps(i, j);
  }

  lemma XorCancels(a: bv16, b: bv16, d: bv16)
    requires Xor(a, d) == Xor(b, d)
    ensures a == b
  {
  }

  lemma EightStepsInjective(c1: bv16, c2: bv16)
    requires EightSteps(c1) == EightSteps(c2)
    ensures c1 == c2
  {
  }

  /** Two CRCs that differ stay different over any common continuation. */
  lemma {:induction false} DifferencePersists(s: seq<byte>, c1: bv16, c2: bv16)
    requires c1 != c2
    ensures Crc(s, c1) != Crc(s, c2)
  {
    if s != [] {
      var front, last := s[..|s| - 1], s[|s| - 1];
      DifferencePersists(front, c1, c2);
      var d1, d2 := Crc(front, c1), Crc(front, c2);
      StepIsBitwise(last, d1);
      StepIsBitwise(last, d2);
      if CrcStep(last, d1) == CrcStep(last, d2) {
        EightStepsInjective(Xor(d1, Bits(last)), Xor(d2, Bits(last)));
        XorCancels(d1, d2, Bits(last));
      }
    }
  }

  lemma NextByte(v: bv8)
    requires v as int < 255
    ensures (v + 1) as int == v as int + 1
  {
    NotLastByte(v);
  }

  lemma NotLastByte(v: bv8)
    requires v as int < 255
    ensures v != 255
  {
  }

  lemma NatAndBack(v: bv8)
    ensures (v as int) as bv8 == v
  {
  }

  lemma {:induction false} ByteRoundTrip(n: int)
    requires 0 <= n < 256
    ensures (n as bv8) as int == n
  {
    if n > 0 {
      ByteRoundTrip(n - 1);
      var v := (n - 1) as bv8;
      NextByte(v);
      NatAndBack(v + 1);
    }
  }

  lemma WidenInjective(a: bv8, b: bv8)
    requires a as bv16 == b as bv16
    ensures a == b
  {
  }

  lemma BitsInjective(a: byte, b: byte)
    requires Bits(a) == Bits(b)
    ensures a == b
  {
    WidenInjective(a as bv8, b as bv8);
    ByteRoundTrip(a as int);
    ByteRoundTrip(b as int);
  }

  // Linearity reduces a question about two messages to one about their difference.

  lemma XorExchanges(c1: bv16, a: bv16, c2: bv16, b: bv16)
    ensures Xor(Xor(c1, a), Xor(c2, b)) == Xor(Xor(c1, c2), Xor(a, b))
  {
    hide Xor;
    XorAssociates(c1, a, Xor(c2, b));
    XorAssociates(a, c2, b);
    XorCommutes(a, c2);
    XorAssociates(c2, a, b);
    XorAssociates(c1, c2, Xor(a, b));
  }

  lemma XorFacts(c: bv16, d: bv16)
    ensures Xor(c, c) == 0
    ensures Xor(0, d) == d
    ensures Xor(c, d) == 0 <==> c == d
  {
  }

  /** How the difference of two registers evolves when they take in bytes a and b. */
  lemma DifferenceStep(a: byte, b: byte, c1: bv16, c2: bv16)
    ensures Xor(CrcStep(a, c1), CrcStep(b, c2)) == EightSteps(Xor(Xor(c1, c2), Xor(Bits(a), Bits(b))))
  {
    hide Xor, Bits, CrcStep, EightSteps;
    StepIsBitwise(a, c1);
    StepIsBitwise(b, c2);
    EightStepsLinear(Xor(c1, Bits(a)), Xor(c2, Bits(b)));
    XorExchanges(c1, Bits(a), c2, Bits(b));
  }

  lemma DifferenceOfBytesIsLow(a: byte, b: byte)
    ensures Xor(Bits(a), Bits(b)) <= 0xFF
  {
    BitsAreLow(a);
    BitsAreLow(b);
  }

  /** Three adjacent byte differences, in the order a serial line sends their bits. */
  function Word(d0: bv16, d1: bv16, d2: bv16): bv24
    requires d0 <= 0xFF && d1 <= 0xFF && d2 <= 0xFF
  {
    d0 as bv24 | (d1 as bv24 << 8) | (d2 as bv24 << 16)
  }

  /** Not zero, and all set bits lie within sixteen consecutive positions. */
  predicate IsBurst(diff: bv24) {
    diff != 0 &&
    (|| diff & 0xFF0000 == 0 || diff & 0xFE0001 == 0 || diff & 0xFC0003 == 0
     || diff & 0xF80007 == 0 || diff & 0xF0000F == 0 || diff & 0xE0001F == 0
     || diff & 0xC0003F == 0 || diff & 0x80007F == 0 || diff & 0x0000FF == 0)
  }

  predicate DifferByBurst(x: seq<byte>, y: seq<byte>)
    requires |x| == |y| == 3
  {
    DifferenceOfBytesIsLow(x[0], y[0]);
    DifferenceOfBytesIsLow(x[1], y[1]);
    DifferenceOfBytesIsLow(x[2], y[2]);
    IsBurst(Word(Xor(Bits(x[0]), Bits(y[0])), Xor(Bits(x[1]), Bits(y[1])), Xor(Bits(x[2]), Bits(y[2]))))
  }

  lemma BurstLeavesRemainder(d0: bv16, d1: bv16, d2: bv16)
    requires d0 <= 0xFF && d1 <= 0xFF && d2 <= 0xFF
    requires IsBurst(Word(d0, d1, d2))
    ensures EightSteps(Xor(EightSteps(Xor(EightSteps(d0), d1)), d2)) != 0
  {
  }

  lemma PairLeavesRemainder(d0: bv16, d1: bv16)
    requires d0 <= 0xFF && d1 <= 0xFF && (d0 != 0 || d1 != 0)
    ensures EightSteps(Xor(EightSteps(d0), d1)) != 0
  {
  }

  lemma CrcSnoc(s: seq<byte>, b: byte, initial: bv16)
    ensures Crc(s + [b], initial) == CrcStep(b, Crc(s, initial))
  {
    hide CrcStep;
    Snoc(s, b);
  }

  /** The difference two unlike byte pairs leave, started from the same register. */
  lemma PairDifference(x0: byte, x1: byte, y0: byte, y1: byte, crc: bv16)
    ensures Xor(Crc([x0, x1], crc), Crc([y0, y1], crc))
         == EightSteps(Xor(EightSteps(Xor(Bits(x0), Bits(y0))), Xor(Bits(x1), Bits(y1))))
  {
    hide Xor, Bits, CrcStep, EightSteps;
    CrcSnoc([], x0, crc);
    CrcSnoc([], y0, crc);
    CrcSnoc([x0], x1, crc);
    CrcSnoc([y0], y1, crc);
    assert [] + [x0] == [x0] && [] + [y0] == [y0];
    assert [x0] + [x1] == [x0, x1] && [y0] + [y1] == [y0, y1];
    DifferenceStep(x0, y0, crc, crc);
    XorFacts(crc, Xor(Bits(x0), Bits(y0)));
    DifferenceStep(x1, y1, CrcStep(x0, crc), CrcStep(y0, crc));
  }

  lemma TripleDifference(x: seq<byte>, y: seq<byte>, crc: bv16)
    requires |x| == |y| == 3
    ensures Xor(Crc(x, crc), Crc(y, crc))
         == EightSteps(Xor(EightSteps(Xor(EightSteps(Xor(Bits(x[0]), Bits(y[0]))),
                                          Xor(Bits(x[1]), Bits(y[1])))),
                           Xor(Bits(x[2]), Bits(y[2]))))
  {
    hide Xor, Bits, CrcStep, EightSteps;
    PairDifference(x[0], x[1], y[0], y[1], crc);
    assert x == [x[0], x[1]] + [x[2]] && y == [y[0], y[1]] + [y[2]];
    CrcSnoc([x[0], x[1]], x[2], crc);
    CrcSnoc([y[0], y[1]], y[2], crc);
    DifferenceStep(x[2], y[2], Crc([x[0], x[1]], crc), Crc([y[0], y[1]], crc));
  }

  /** A difference confined to the middle of a message survives to its end. */
  lemma MiddleDetected(front: seq<byte>, x: seq<byte>, y: seq<byte>, back: seq<byte>, initial: bv16)
    requires Crc(x, Crc(front, initial)) != Crc(y, Crc(front, initial))
    ensures Crc(front + x + back, initial) != Crc(front + y + back, initial)
  {
    hide CrcStep;
    CrcResumes(front, x, initial);
    CrcResumes(front, y, initial);
    CrcResumes(front + x, back, initial);
    CrcResumes(front + y, back, initial);
    DifferencePersists(back, Crc(front + x, initial), Crc(front + y, initial));
  }

  /** Two messages that differ in one byte only have different CRCs. */
  lemma SingleByteDetected(front: seq<byte>, x: byte, y: byte, back: seq<byte>, initial: bv16)
    requires x != y
    ensures Crc(front + [x] + back, initial) != Crc(front + [y] + back, initial)
  {
    hide Xor, Bits, CrcStep, EightSteps;
    var crc := Crc(front, initial);
    CrcSnoc([], x, crc);
    CrcSnoc([], y, crc);
    assert [] + [x] == [x] && [] + [y] == [y];
    StepIsBitwise(x, crc);
    StepIsBitwise(y, crc);
    if CrcStep(x, crc) == CrcStep(y, crc) {
      EightStepsInjective(Xor(crc, Bits(x)), Xor(crc, Bits(y)));
      XorCommutes(crc, Bits(x));
      XorCommutes(crc, Bits(y));
      XorCancels(Bits(x), Bits(y), crc);
      BitsInjective(x, y);
    }
    MiddleDetected(front, [x], [y], back, initial);
  }

  /** Two messages that differ only within two adjacent bytes have different CRCs. */
  lemma AdjacentPairDetected(front: seq<byte>, x: seq<byte>, y: seq<byte>, back: seq<byte>, initial: bv16)
    requires |x| == |y| == 2 && x != y
    ensures Crc(front + x + back, initial) != Crc(front + y + back, initial)
  {
    hide Xor, Bits, CrcStep, EightSteps;
    var crc := Crc(front, initial);
    assert x == [x[0], x[1]] && y == [y[0], y[1]];
    PairDifference(x[0], x[1], y[0], y[1], crc);
    var d0, d1 := Xor(Bits(x[0]), Bits(y[0])), Xor(Bits(x[1]), Bits(y[1]));
    DifferenceOfBytesIsLow(x[0], y[0]);
    DifferenceOfBytesIsLow(x[1], y[1]);
    XorFacts(Bits(x[0]), Bits(y[0]));
    XorFacts(Bits(x[1]), Bits(y[1]));
    if x[0] != y[0] {
      if d0 == 0 { BitsInjective(x[0], y[0]); }
    } else {
      if d1 == 0 { BitsInjective(x[1], y[1]); }
    }
    PairLeavesRemainder(d0, d1);
    XorFacts(Crc(x, crc), Crc(y, crc));
    MiddleDetected(front, x, y, back, initial);
  }

  /** Two messages whose difference is a burst of at most sixteen bits have different CRCs. */
  lemma BurstDetected(front: seq<byte>, x: seq<byte>, y: seq<byte>, back: seq<byte>, initial: bv16)
    requires |x| == |y| == 3 && DifferByBurst(x, y)
    ensures Crc(front + x + back, initial) != Crc(front + y + back, initial)
  {
    hide Xor, Bits, CrcStep, EightSteps, IsBurst, Word;
    var crc := Crc(front, initial);
    TripleDifference(x, y, crc);
    DifferenceOfBytesIsLow(x[0], y[0]);
    DifferenceOfBytesIsLow(x[1], y[1]);
    DifferenceOfBytesIsLow(x[2], y[2]);
    BurstLeavesRemainder(Xor(Bits(x[0]), Bits(y[0])), Xor(Bits(x[1]), Bits(y[1])), Xor(Bits(x[2]), Bits(y[2])));
    XorFacts(Crc(x, crc), Crc(y, crc));
    MiddleDetected(front, x, y, back, initial);
  }
}
