/** hashmap_crc32_helper: the table-driven loop is division of the message by the CRC-32C polynomial. */
module Crc32 {
  import opened Crc32Table
  import opened ShiftRegister

  // ---- the code ----

  function ByteStep(crc: bv32, b: bv8): bv32 {
    Crc32Tab(LowPart(crc, b)) ^ (crc >> 8)
  }

  /** The table index: the register's low byte, XORed with the next byte of the string. */
  function LowPart(crc: bv32, b: bv8): bv8 {
    ((crc & 0xFF) as bv8) ^ b
  }

  function Crc(s: seq<bv8>): bv32 {
    Fold(ByteStep, 0, s)
  }

  method TableStep(crc: bv32, b: bv8) returns (r: bv32)
    ensures r == ByteStep(crc, b)
  {
    r := Crc32Tab(((crc & 0xFF) as bv8) ^ b) ^ (crc >> 8);
  }

  method Crc32Helper(s: seq<bv8>) returns (crc: bv32)
    ensures crc == Crc(s)
  {
    crc := 0;
    for i := 0 to |s|
      invariant crc == Crc(s[..i])
    {
      assert s[..i + 1][..i] == s[..i];
      crc := TableStep(crc, s[i]);
    }
    assert s[..|s|] == s;
  }

  // ---- the reference: long division by hand, highest power first ----

  const POLYNOMIAL: bv32 := 0x1EDC6F41  // x^32 is implied

  /** Multiply by x; if the x^32 term is then set, subtract the polynomial. */
  function TimesX(r: bv32): bv32 {
    if r & 0x8000_0000 != 0 then (r << 1) ^ POLYNOMIAL else r << 1
  }

  function Constant(bit: bool): bv32 {
    if bit then 1 else 0
  }

  /** Bring down one more coefficient. */
  function DivisionStep(r: bv32, bit: bool): bv32 {
    Xor(TimesX(r), Constant(bit))
  }

  function Remainder(bits: seq<bool>): bv32 {
    Fold(DivisionStep, 0, bits)
  }

  function Reverse32(x: bv32): bv32 {
    var a := ((x & 0x5555_5555) << 1) ^ ((x >> 1) & 0x5555_5555);
    var b := ((a & 0x3333_3333) << 2) ^ ((a >> 2) & 0x3333_3333);
    var c := ((b & 0x0F0F_0F0F) << 4) ^ ((b >> 4) & 0x0F0F_0F0F);
    var d := ((c & 0x00FF_00FF) << 8) ^ ((c >> 8) & 0x00FF_00FF);
    (d << 16) ^ (d >> 16)
  }

  // ---- the reversed register ----

  function Xor(c: bv32, d: bv32): bv32 { c ^ d }

  function Half(c: bv32): bv32 { c >> 1 }

  predicate Odd(c: bv32) { c & 1 == 1 }

  const Word: Register<bv32> := Register(0, 1, 0x8000_0000, Xor, Shift1, Half, Odd)

  // Each law of the register is a bit-vector fact, proved with the lowest bits' cases laid out.

  lemma LowBits(c: bv32, d: bv32)
    ensures (c ^ d) >> 1 == (c >> 1) ^ (d >> 1)
    ensures (c ^ d) & 1 == (c & 1) ^ (d & 1)
    ensures c & 1 == 0 || c & 1 == 1
    ensures d & 1 == 0 || d & 1 == 1
  {
  }

  lemma ShiftXor(c: bv32, d: bv32)
    ensures Shift1(c ^ d) == Shift1(c) ^ Shift1(d)
  {
    LowBits(c, d);
    if c & 1 == 1 {
      if d & 1 == 1 {
      } else {
      }
    } else if d & 1 == 1 {
    } else {
    }
  }

  lemma LowBitParts(c: bv32, b: bv32)
    ensures (c ^ b) >> 1 == (c >> 1) ^ (b >> 1)
    ensures b & 1 == 1 ==> (c ^ 1) >> 1 == c >> 1 && (c ^ 1) & 1 == (c ^ b) & 1
    ensures b & 1 == 0 ==> (c ^ 0) == c && c & 1 == (c ^ b) & 1
    ensures b & 1 == 0 || b & 1 == 1
  {
  }

  lemma ShiftInjectOne(c: bv32, b: bv32)
    requires b & 1 == 1
    ensures Shift1(c ^ b) == Shift1(c ^ 1) ^ (b >> 1)
  {
    LowBitParts(c, b);
    if (c ^ 1) & 1 == 1 {
    } else {
    }
  }

  lemma ShiftInjectZero(c: bv32, b: bv32)
    requires b & 1 == 0
    ensures Shift1(c ^ b) == Shift1(c) ^ (b >> 1)
  {
    LowBitParts(c, b);
    if c & 1 == 1 {
    } else {
    }
  }

  // The abstract register's operations, read as bit-vector ones.

  lemma ShiftOfXor(c: bv32, d: bv32)
    ensures Word.shift(Word.xor(c, d)) == Shift1(c ^ d)
  {
  }

  lemma XorOfShifts(c: bv32, d: bv32)
    ensures Word.xor(Word.shift(c), Word.shift(d)) == Shift1(c) ^ Shift1(d)
  {
  }

  lemma XorHalf(x: bv32, b: bv32)
    ensures Word.xor(x, Word.half(b)) == x ^ (b >> 1)
  {
  }

  lemma WordLinear(c: bv32, d: bv32)
    ensures Word.LinearAt(c, d)
  {
    ShiftOfXor(c, d);
    XorOfShifts(c, d);
    ShiftXor(c, d);
  }

  lemma LowOfOdd(b: bv32)
    ensures Word.Low(Word.odd(b)) == if b & 1 == 1 then 1 else 0
  {
  }

  lemma WordInjectsOne(c: bv32, b: bv32)
    requires b & 1 == 1
    ensures Word.shift(Word.xor(c, b)) == Word.xor(Word.shift(Word.xor(c, 1)), Word.half(b))
  {
    ShiftOfXor(c, b);
    ShiftOfXor(c, 1);
    XorHalf(Shift1(c ^ 1), b);
    ShiftInjectOne(c, b);
  }

  lemma XorZero(c: bv32)
    ensures Word.xor(c, 0) == c
  {
  }

  lemma WordInjectsZero(c: bv32, b: bv32)
    requires b & 1 == 0
    ensures Word.shift(Word.xor(c, b)) == Word.xor(Word.shift(Word.xor(c, 0)), Word.half(b))
  {
    ShiftOfXor(c, b);
    XorZero(c);
    ShiftOfXor(c, 0);
    XorHalf(Shift1(c), b);
    ShiftInjectZero(c, b);
  }

  lemma WordInjects(c: bv32, b: bv32)
    ensures Word.InjectsAt(c, b)
  {
    LowOfOdd(b);
    LowBitParts(c, b);
    if b & 1 == 1 {
      WordInjectsOne(c, b);
    } else {
      WordInjectsZero(c, b);
    }
  }

  lemma EightShifts(c: bv32)
    ensures Word.Power(8, c) == Shift8(c)
  {
    PowerEight(Word, c);
  }

  /** The constant term, moved up by 32 powers, is what a set bit does to the serial register. */
  lemma ConstantTermUp()
    ensures Word.Power(32, 0x8000_0000) == Shift1(1) && Word.Power(32, 0) == 0
  {
    PowerAdd(Word, 8, 8, 0x8000_0000);
    PowerAdd(Word, 16, 8, 0x8000_0000);
    PowerAdd(Word, 24, 8, 0x8000_0000);
    PowerAdd(Word, 8, 8, 0);
    PowerAdd(Word, 16, 8, 0);
    PowerAdd(Word, 24, 8, 0);
    EightShifts(0x8000_0000);
    EightShifts(0x80_0000);
    EightShifts(0x8000);
    EightShifts(0x80);
    EightShifts(0);
  }

  lemma WordLawful()
    ensures Lawful(Word)
  {
    forall c, d ensures Word.LinearAt(c, d) { WordLinear(c, d); }
    forall c, b ensures Word.InjectsAt(c, b) { WordInjects(c, b); }
    ConstantTermUp();
    forall c ensures Word.XorsAt(c) { XorZero(c); }
    forall c, d, e ensures Word.AssociatesAt(c, d, e) { XorAround(c, d, e); }
    forall c, d ensures Word.CommutesAt(c, d) { XorSwapped(c, d); }
  }

  lemma XorIs(c: bv32, d: bv32)
    ensures Word.xor(c, d) == c ^ d
  {
  }

  lemma XorAround(c: bv32, d: bv32, e: bv32)
    ensures Word.AssociatesAt(c, d, e)
  {
    XorIs(c, d);
    XorIs(c ^ d, e);
    XorIs(d, e);
    XorIs(c, d ^ e);
    Associates(c, d, e);
  }

  lemma XorSwapped(c: bv32, d: bv32)
    ensures Word.CommutesAt(c, d)
  {
    XorIs(c, d);
    XorIs(d, c);
    Commutes(c, d);
  }

  lemma Commutes(c: bv32, d: bv32)
    ensures c ^ d == d ^ c
  {
  }

  lemma Associates(c: bv32, d: bv32, e: bv32)
    ensures (c ^ d) ^ e == c ^ (d ^ e)
  {
  }

  // ---- the table step ----

  lemma TableIsPower(i: bv8)
    ensures Crc32Tab(i) == Word.Power(8, i as bv32)
  {
    TableIsDivision(i);
    EightShifts(i as bv32);
  }

  lemma SplitWord(crc: bv32, b: bv8)
    ensures Word.xor(crc, b as bv32) == Word.xor(LowPart(crc, b) as bv32, crc & 0xFFFF_FF00)
  {
  }

  lemma HighBytes(crc: bv32)
    ensures (crc & 0xFFFF_FF00) & 0xFF == 0 && (crc & 0xFFFF_FF00) >> 8 == crc >> 8
  {
  }

  lemma DropEightBits(c: bv32)
    ensures Word.Drop(8, c) == c >> 8
  {
    DropEight(Word, c);
  }

  lemma DropTwoBits(c: bv32)
    ensures Word.Drop(2, c) == c >> 2
  {
    DropTwo(Word, c);
  }

  lemma ClearTwo(z: bv32)
    requires z & 3 == 0
    ensures NoLowBits(Word, 2, z)
  {
  }

  lemma ClearPairs(z: bv32)
    requires z & 0xFF == 0
    ensures z & 3 == 0 && (z >> 2) & 3 == 0 && (z >> 4) & 3 == 0 && (z >> 6) & 3 == 0
    ensures (z >> 2) >> 2 == z >> 4 && (z >> 4) >> 2 == z >> 6
  {
  }

  lemma ClearFour(z: bv32)
    requires z & 3 == 0 && (z >> 2) & 3 == 0
    ensures NoLowBits(Word, 4, z)
  {
    ClearTwo(z);
    ClearTwo(z >> 2);
    DropTwoBits(z);
    NoLowBitsAdd(Word, 2, 2, z);
  }

  lemma ClearSix(z: bv32)
    requires z & 3 == 0 && (z >> 2) & 3 == 0 && ((z >> 2) >> 2) & 3 == 0
    ensures NoLowBits(Word, 6, z)
  {
    ClearTwo(z);
    ClearFour(z >> 2);
    DropTwoBits(z);
    NoLowBitsAdd(Word, 2, 4, z);
  }

  lemma ClearEight(z: bv32)
    requires z & 0xFF == 0
    ensures NoLowBits(Word, 8, z)
  {
    ClearPairs(z);
    ClearTwo(z);
    ClearSix(z >> 2);
    DropTwoBits(z);
    NoLowBitsAdd(Word, 2, 6, z);
  }

  function Wide(b: bv8): bv32 { b as bv32 }

  lemma ByteDropped(b: bv8)
    ensures Word.Drop(8, Wide(b)) == 0
  {
    DropEightBits(Wide(b));
    WideHigh(b);
  }

  lemma WideHigh(b: bv8)
    ensures Wide(b) >> 8 == 0
  {
  }

  lemma StepIsXor(crc: bv32, b: bv8)
    ensures ByteStep(crc, b) == Word.xor(Crc32Tab(LowPart(crc, b)), crc >> 8)
  {
  }

  lemma HighDropped(crc: bv32)
    ensures NoLowBits(Word, 8, crc & 0xFFFF_FF00) && Word.Drop(8, crc & 0xFFFF_FF00) == crc >> 8
  {
    HighBytes(crc);
    ClearEight(crc & 0xFFFF_FF00);
    DropEightBits(crc & 0xFFFF_FF00);
  }

  lemma StepIsPower(crc: bv32, b: bv8)
    ensures ByteStep(crc, b) == Word.Power(8, Word.xor(LowPart(crc, b) as bv32, crc & 0xFFFF_FF00))
  {
    StepIsXor(crc, b);
    TableIsPower(LowPart(crc, b));
    HighDropped(crc);
    WordLawful();
    HighBits(Word, 8, LowPart(crc, b) as bv32, crc & 0xFFFF_FF00);
  }

  lemma ByteStepShifts(crc: bv32, b: bv8)
    ensures ByteShiftsAt(Word, ByteStep, Wide, crc, b)
  {
    StepIsPower(crc, b);
    SplitWord(crc, b);
    ByteDropped(b);
  }

  /** The coefficients of a message, each byte's lowest bit first. */
  function Coefficients(s: seq<bv8>): seq<bool> {
    ByteCoefficients(Word, Wide, s)
  }

  lemma CrcIsSerial(s: seq<bv8>)
    ensures Crc(s) == Fold(Word.SerialStep, 0, Coefficients(s))
  {
    WordLawful();
    forall crc, b ensures ByteShiftsAt(Word, ByteStep, Wide, crc, b) { ByteStepShifts(crc, b); }
    SerialBytes(Word, ByteStep, Wide, s);
  }

  // ---- reversing the register ----

  lemma ReverseXor(x: bv32, y: bv32)
    ensures Reverse32(x ^ y) == Reverse32(x) ^ Reverse32(y)
  {
  }

  lemma ReverseConstants()
    ensures Reverse32(POLYNOMIAL) == 0x82F63B78 && Reverse32(1) == 0x8000_0000 && Reverse32(0) == 0
  {
  }

  lemma ReverseTimesXSet(r: bv32)
    requires r & 0x8000_0000 != 0
    ensures Reverse32((r << 1) ^ POLYNOMIAL) == Shift1(Reverse32(r))
  {
  }

  lemma ReverseTimesXClear(r: bv32)
    requires r & 0x8000_0000 == 0
    ensures Reverse32(r << 1) == Shift1(Reverse32(r))
  {
  }

  lemma ReverseTimesX(r: bv32)
    ensures Reverse32(TimesX(r)) == Shift1(Reverse32(r))
  {
    if r & 0x8000_0000 != 0 {
      ReverseTimesXSet(r);
    } else {
      ReverseTimesXClear(r);
    }
  }

  lemma ReverseConstant(bit: bool)
    ensures Reverse32(Constant(bit)) == Word.Top(bit)
  {
  }

  lemma ReverseXorWord(x: bv32, y: bv32)
    ensures Reverse32(x ^ y) == Word.xor(Reverse32(x), Reverse32(y))
  {
    ReverseXor(x, y);
    XorIs(Reverse32(x), Reverse32(y));
  }

  lemma ReverseSum(x: bv32, y: bv32, c: bv32, t: bv32)
    requires Reverse32(x) == c && Reverse32(y) == t
    ensures Reverse32(Xor(x, y)) == Word.xor(c, t)
  {
    ReverseXorWord(x, y);
  }

  lemma ReverseStep(r: bv32, bit: bool)
    ensures CarriesAt(Reverse32, DivisionStep, Word.BringStep, r, bit)
  {
    ReverseTimesX(r);
    ReverseConstant(bit);
    ReverseSum(TimesX(r), Constant(bit), Shift1(Reverse32(r)), Word.Top(bit));
  }

  lemma RemainderReversed(bits: seq<bool>)
    ensures Reverse32(Remainder(bits)) == Fold(Word.BringStep, 0, bits)
  {
    forall r, bit ensures CarriesAt(Reverse32, DivisionStep, Word.BringStep, r, bit) { ReverseStep(r, bit); }
    FoldCarried(Reverse32, DivisionStep, Word.BringStep, 0, bits);
    ReverseConstants();
  }

  /** For every byte string the helper returns the remainder, on division by x^32 + 0x1EDC6F41, of the message
      times x^32, its coefficients reversed. */
  lemma CrcIsRemainder(s: seq<bv8>)
    ensures Crc(s) == Reverse32(Remainder(Coefficients(s) + Zeros(32)))
  {
    CrcIsSerial(s);
    WordLawful();
    SerialIsPadded(Word, Coefficients(s));
    PadZeros(Word, Coefficients(s), 32);
    RemainderReversed(Coefficients(s) + Zeros(32));
  }

  // ---- consequences ----

  function XorByte(a: bv8, b: bv8): bv8 { a ^ b }

  lemma XorWide(a: bv8, b: bv8)
    ensures Wide(XorByte(a, b)) == Word.xor(Wide(a), Wide(b))
  {
  }

  /** The checksum of the XOR of two strings of one length is the XOR of their checksums. */
  lemma CrcLinear(s: seq<bv8>, t: seq<bv8>)
    requires |s| == |t|
    ensures Crc(Zip(XorByte, s, t)) == Crc(s) ^ Crc(t)
  {
    WordLawful();
    forall crc, b ensures ByteShiftsAt(Word, ByteStep, Wide, crc, b) { ByteStepShifts(crc, b); }
    forall a, b ensures WidensAt(Word, Wide, XorByte, a, b) { XorWide(a, b); }
    BytesLinear(Word, ByteStep, Wide, XorByte, s, t);
  }

  lemma ZeroStep()
    ensures ByteStep(0, 0) == 0
  {
  }

  /** Zero bytes in front of a string do not change its checksum. */
  lemma CrcLeadingZeros(n: nat, s: seq<bv8>)
    ensures Crc(Repeat(0, n) + s) == Crc(s)
  {
    ZeroStep();
    FoldLeading(ByteStep, 0, 0, n, s);
  }
}
