/** The checksums of arm9/source/utils.c: division of the message by a polynomial, bit by
    bit and through a lookup table, and the errors the division detects. */
module Crc {
  // ----- one bit position -----

  function Half(w: bv32): bv32 {
    w >> 1
  }

  predicate Odd(w: bv32) {
    w & 1 == 1
  }

  function Xor(a: bv32, b: bv32): bv32 {
    a ^ b
  }

  function Low8(w: bv32): bv32 {
    w & 0xFF
  }

  function High24(w: bv32): bv32 {
    w & 0xFFFF_FF00
  }

  function Shift8(w: bv32): bv32 {
    w >> 8
  }

  function Wide(b: bv8): bv32 {
    b as bv32
  }

  lemma HalfOfXor(a: bv32, b: bv32)
    ensures Half(Xor(a, b)) == Xor(Half(a), Half(b))
    ensures Odd(Xor(a, b)) <==> Odd(a) != Odd(b)
  {
  }

  lemma XorCommutes(a: bv32, b: bv32)
    ensures Xor(a, b) == Xor(b, a)
  {
  }

  lemma XorAssoc(a: bv32, b: bv32, c: bv32)
    ensures Xor(Xor(a, b), c) == Xor(a, Xor(b, c))
  {
  }

  lemma XorSwaps(a: bv32, b: bv32, c: bv32)
    ensures Xor(Xor(a, b), c) == Xor(Xor(a, c), b)
  {
    hide Xor;
    XorAssoc(a, b, c);
    XorCommutes(b, c);
    XorAssoc(a, c, b);
  }

  lemma XorZero(a: bv32)
    ensures Xor(a, 0) == a && Xor(0, a) == a
  {
  }

  lemma XorCancels(a: bv32, b: bv32, c: bv32)
    ensures Xor(a, c) == Xor(b, c) <==> a == b
    ensures Xor(c, a) == Xor(c, b) <==> a == b
  {
  }

  // ----- division bit by bit -----

  /** Shift in one message bit, the lowest of w, and subtract the polynomial if the bit that
      falls out is set. */
  function FeedBit(poly: bv32, r: bv32, w: bv32): bv32 {
    Xor(Half(r), if Odd(r) != Odd(w) then poly else 0)
  }

  /** The n low bits of w, lowest first. */
  function FeedBits(poly: bv32, r: bv32, w: bv32, n: nat): bv32
    decreases n
  {
    if n == 0 then r else FeedBits(poly, FeedBit(poly, r, w), Half(w), n - 1)
  }

  function FeedByte(poly: bv32, r: bv32, b: bv8): bv32 {
    FeedBits(poly, r, Wide(b), 8)
  }

  /** The remainder after a message, each byte's lowest bit first. */
  function Remainder(poly: bv32, r: bv32, message: seq<bv8>): bv32
    decreases |message|
  {
    if message == [] then r else Remainder(poly, FeedByte(poly, r, message[0]), message[1..])
  }

  // ----- division without input -----

  function Step(poly: bv32, r: bv32): bv32 {
    Xor(Half(r), if Odd(r) then poly else 0)
  }

  function Steps(poly: bv32, r: bv32, n: nat): bv32
    decreases n
  {
    if n == 0 then r else Steps(poly, Step(poly, r), n - 1)
  }

  function Shr(w: bv32, n: nat): bv32
    decreases n
  {
    if n == 0 then w else Shr(Half(w), n - 1)
  }

  predicate LowZero(w: bv32, n: nat)
    decreases n
  {
    n == 0 || (!Odd(w) && LowZero(Half(w), n - 1))
  }

  lemma FeedIsStep(poly: bv32, r: bv32, w: bv32)
    ensures Step(poly, Xor(r, w)) == Xor(FeedBit(poly, r, w), Half(w))
  {
    hide Half, Odd, Xor;
    HalfOfXor(r, w);
    XorSwaps(Half(r), Half(w), if Odd(r) != Odd(w) then poly else 0);
  }

  lemma StepHigh(poly: bv32, x: bv32, h: bv32)
    requires !Odd(h)
    ensures Step(poly, Xor(x, h)) == Xor(Step(poly, x), Half(h))
  {
    hide Half, Odd, Xor;
    HalfOfXor(x, h);
    XorSwaps(Half(x), Half(h), if Odd(x) then poly else 0);
  }

  /** Feeding bits is dividing their exclusive or with the register. */
  lemma {:induction false} FeedIsSteps(poly: bv32, r: bv32, w: bv32, n: nat)
    requires Shr(w, n) == 0
    ensures FeedBits(poly, r, w, n) == Steps(poly, Xor(r, w), n)
    decreases n
  {
    hide Step, FeedBit, Xor, Half;
    if n == 0 {
      XorZero(r);
    } else {
      FeedIsStep(poly, r, w);
      FeedIsSteps(poly, FeedBit(poly, r, w), Half(w), n - 1);
    }
  }

  /** Bits that are not reached within n steps are only shifted. */
  lemma {:induction false} HighBitsShift(poly: bv32, x: bv32, h: bv32, n: nat)
    requires LowZero(h, n)
    ensures Steps(poly, Xor(x, h), n) == Xor(Steps(poly, x, n), Shr(h, n))
    decreases n
  {
    hide Step, Xor, Half, Odd;
    if n != 0 {
      StepHigh(poly, x, h);
      HighBitsShift(poly, Step(poly, x), Half(h), n - 1);
    }
  }

  lemma {:induction false} StepsAdd(poly: bv32, x: bv32, m: nat, n: nat)
    ensures Steps(poly, Steps(poly, x, m), n) == Steps(poly, x, m + n)
    decreases m
  {
    hide Step;
    if m != 0 { StepsAdd(poly, Step(poly, x), m - 1, n); }
  }

  // ----- the lookup table -----

  function Half8(w: bv32): bv32 {
    Half(Half(Half(Half(Half(Half(Half(Half(w))))))))
  }

  lemma EightHalves(w: bv32)
    ensures Half8(w) == Shift8(w)
  {
  }

  lemma ShrEight(w: bv32)
    ensures Shr(w, 8) == Shift8(w)
  {
    EightHalves(w);
    hide Half;
    assert Shr(w, 8) == Shr(Half(Half(w)), 6);
    assert Shr(Half(Half(w)), 6) == Shr(Half(Half(Half(Half(w)))), 4);
    assert Shr(Half(Half(Half(Half(w)))), 4) == Shr(Half(Half(Half(Half(Half(Half(w)))))), 2);
  }

  lemma EightBits(w: bv32)
    requires Low8(w) == 0
    ensures !Odd(w) && !Odd(Half(w)) && !Odd(Half(Half(w))) && !Odd(Half(Half(Half(w))))
    ensures var v := Half(Half(Half(Half(w))));
      !Odd(v) && !Odd(Half(v)) && !Odd(Half(Half(v))) && !Odd(Half(Half(Half(v))))
  {
  }

  lemma LowZeroEight(w: bv32)
    requires Low8(w) == 0
    ensures LowZero(w, 8)
  {
    EightBits(w);
    hide Half, Odd;
    var v := Half(Half(Half(Half(w))));
    assert LowZero(Half(Half(v)), 2);
    assert LowZero(v, 4);
    assert LowZero(Half(Half(w)), 6);
  }

  /** One message byte as the table-driven loop takes it. */
  function TableByte(poly: bv32, r: bv32, b: bv8): bv32 {
    Xor(Shift8(r), Steps(poly, Low8(Xor(r, Wide(b))), 8))
  }

  lemma SplitLow(x: bv32)
    ensures Xor(Low8(x), High24(x)) == x
    ensures Low8(High24(x)) == 0 && Shift8(High24(x)) == Shift8(x)
  {
  }

  lemma ByteFits(r: bv32, b: bv8)
    ensures Shift8(Wide(b)) == 0 && Shift8(Xor(r, Wide(b))) == Shift8(r)
  {
  }

  /** The table gives the same remainder as eight single bits. */
  lemma TableIsBitByBit(poly: bv32, r: bv32, b: bv8)
    ensures TableByte(poly, r, b) == FeedByte(poly, r, b)
  {
    hide Steps, FeedBits, Xor, Shr, LowZero, Low8, High24, Shift8, Wide;
    var w := Wide(b);
    var x := Xor(r, w);
    var h := High24(x);
    ByteFits(r, b);
    ShrEight(w);
    FeedIsSteps(poly, r, w, 8);
    SplitLow(x);
    LowZeroEight(h);
    ShrEight(h);
    HighBitsShift(poly, Low8(x), h, 8);
    XorCommutes(Shift8(r), Steps(poly, Low8(x), 8));
  }

  lemma IndexInTable(index: bv32)
    ensures index == Low8(index) ==> index as int < 0x100
    ensures (index as int) as bv32 == index
  {
  }

  // ----- the checksum routines -----

  /** The static table and flag of a checksum routine. */
  class Table {
    const poly: bv32
    const lut: array<bv32>
    var initialized: bool

    constructor (poly: bv32)
      ensures this.poly == poly && Valid() && fresh(lut) && !initialized
    {
      this.poly, lut, initialized := poly, new bv32[0x100], false;
    }

    ghost predicate Valid()
      reads this, lut
    {
      lut.Length == 0x100 && (initialized ==> forall i: nat :: i < 0x100 ==> lut[i] == Steps(poly, i as bv32, 8))
    }

    method Initialize()
      requires Valid()
      modifies this`initialized, lut
      requires !initialized
      ensures Valid() && initialized
    {
      hide Step;
      for i := 0 to 0x100
        invariant Valid() && !initialized
        invariant forall k: nat :: k < i ==> lut[k] == Steps(poly, k as bv32, 8)
      {
        var r := i as bv32;
        for j := 0 to 8
          invariant Steps(poly, r, 8 - j) == Steps(poly, i as bv32, 8)
        {
          r := Step(poly, r);
        }
        lut[i] := r;
      }
      initialized := true;
    }

    /** The loop over the message bytes, filling the table on the first call. */
    method Update(data: seq<bv8>, initialValue: bv32) returns (r: bv32)
      requires Valid()
      modifies this`initialized, lut
      ensures Valid() && initialized && r == Remainder(poly, initialValue, data)
    {
      if !initialized { Initialize(); }
      r := initialValue;
      for i := 0 to |data|
        invariant Valid() && initialized
        invariant Remainder(poly, r, data[i..]) == Remainder(poly, initialValue, data)
      {
        var index := Low8(Xor(r, Wide(data[i])));
        IndexInTable(index);
        TableIsBitByBit(poly, r, data[i]);
        assert lut[index as int] == Steps(poly, index, 8);
        hide Steps, FeedByte, Xor, Shift8, Low8, Wide;
        r := Xor(Shift8(r), lut[index as int]);
        assert data[i..][1..] == data[i + 1..];
      }
    }
  }

  // ----- the two polynomials -----

  const CRC16: bv32 := 0xA001
  const CRC32: bv32 := 0xEDB8_8320

  /** The registers of a routine: 16 or 32 bits. */
  predicate Register(poly: bv32, r: bv32) {
    poly == CRC32 || (poly == CRC16 && r < 0x1_0000)
  }

  method Crc16(table: Table, data: seq<bv8>, initialValue: bv32) returns (r: bv32)
    requires table.Valid() && table.poly == CRC16
    requires Register(CRC16, initialValue)
    modifies table`initialized, table.lut
    ensures table.Valid() && table.initialized
    ensures r == Remainder(CRC16, initialValue, data) && Register(CRC16, r)
  {
    r := table.Update(data, initialValue);
    RemainderFits(CRC16, initialValue, data);
  }

  /** With initial value 0xFFFFFFFF, the checksum of section 8 of RFC 1952. */
  method Crc32(table: Table, data: seq<bv8>, initialValue: bv32) returns (r: bv32)
    requires table.Valid() && table.poly == CRC32
    modifies table`initialized, table.lut
    ensures table.Valid() && table.initialized
    ensures r == !Remainder(CRC32, initialValue, data)
  {
    r := table.Update(data, initialValue);
    r := !r;
  }

  // ----- check values -----

  /** The text 123456789 in ASCII. */
  function CheckText(): seq<bv8> {
    [0x31, 0x32, 0x33, 0x34, 0x35, 0x36, 0x37, 0x38, 0x39]
  }

  /** The published check values of the two routines. */
  lemma CheckValues()
    ensures !Remainder(CRC32, 0xFFFF_FFFF, CheckText()) == 0xCBF4_3926
    ensures Remainder(CRC16, 0xFFFF, CheckText()) == 0x4B37
  {
    Crc32Bytes();
    Crc16Bytes();
    hide FeedByte;
  }

  lemma FeedsEight(poly: bv32, r: bv32, b: bv8)
    ensures var w0 := Wide(b);
      var w1, w2, w3, w4, w5, w6, w7 := w0 >> 1, w0 >> 2, w0 >> 3, w0 >> 4, w0 >> 5, w0 >> 6, w0 >> 7;
      var r1 := FeedBit(poly, r, w0);
      var r2 := FeedBit(poly, r1, w1);
      var r3 := FeedBit(poly, r2, w2);
      var r4 := FeedBit(poly, r3, w3);
      var r5 := FeedBit(poly, r4, w4);
      var r6 := FeedBit(poly, r5, w5);
      var r7 := FeedBit(poly, r6, w6);
      FeedByte(poly, r, b) == FeedBit(poly, r7, w7)
  {
    hide FeedBit;
  }

  lemma Crc32Bytes()
    ensures FeedByte(CRC32, 0xFFFF_FFFF, 0x31) == 0x7C23_1048
    ensures FeedByte(CRC32, 0x7C23_1048, 0x32) == 0xB0AC_BB32
    ensures FeedByte(CRC32, 0xB0AC_BB32, 0x33) == 0x77B7_9C2D
    ensures FeedByte(CRC32, 0x77B7_9C2D, 0x34) == 0x641C_1F5C
    ensures FeedByte(CRC32, 0x641C_1F5C, 0x35) == 0x340A_C5E3
    ensures FeedByte(CRC32, 0x340A_C5E3, 0x36) == 0xF68D_2C9E
    ensures FeedByte(CRC32, 0xF68D_2C9E, 0x37) == 0xAFFC_9660
    ensures FeedByte(CRC32, 0xAFFC_9660, 0x38) == 0x651F_2550
    ensures FeedByte(CRC32, 0x651F_2550, 0x39) == 0x340B_C6D9
  {
    FeedsEight(CRC32, 0xFFFF_FFFF, 0x31);
    FeedsEight(CRC32, 0x7C23_1048, 0x32);
    FeedsEight(CRC32, 0xB0AC_BB32, 0x33);
    FeedsEight(CRC32, 0x77B7_9C2D, 0x34);
    FeedsEight(CRC32, 0x641C_1F5C, 0x35);
    FeedsEight(CRC32, 0x340A_C5E3, 0x36);
    FeedsEight(CRC32, 0xF68D_2C9E, 0x37);
    FeedsEight(CRC32, 0xAFFC_9660, 0x38);
    FeedsEight(CRC32, 0x651F_2550, 0x39);
  }

  lemma Crc16Bytes()
    ensures FeedByte(CRC16, 0xFFFF, 0x31) == 0x947E
    ensures FeedByte(CRC16, 0x947E, 0x32) == 0xF595
    ensures FeedByte(CRC16, 0xF595, 0x33) == 0x7A75
    ensures FeedByte(CRC16, 0x7A75, 0x34) == 0x30BA
    ensures FeedByte(CRC16, 0x30BA, 0x35) == 0xA471
    ensures FeedByte(CRC16, 0xA471, 0x36) == 0x32E4
    ensures FeedByte(CRC16, 0x32E4, 0x37) == 0x9D73
    ensures FeedByte(CRC16, 0x9D73, 0x38) == 0x37DD
    ensures FeedByte(CRC16, 0x37DD, 0x39) == 0x4B37
  {
    FeedsEight(CRC16, 0xFFFF, 0x31);
    FeedsEight(CRC16, 0x947E, 0x32);
    FeedsEight(CRC16, 0xF595, 0x33);
    FeedsEight(CRC16, 0x7A75, 0x34);
    FeedsEight(CRC16, 0x30BA, 0x35);
    FeedsEight(CRC16, 0xA471, 0x36);
    FeedsEight(CRC16, 0x32E4, 0x37);
    FeedsEight(CRC16, 0x9D73, 0x38);
    FeedsEight(CRC16, 0x37DD, 0x39);
  }

  // ----- what a checksum detects -----

  lemma StepFits(poly: bv32, r: bv32)
    requires Register(poly, r)
    ensures Register(poly, Step(poly, r))
  {
  }

  lemma FeedBitFits(poly: bv32, r: bv32, w: bv32)
    requires Register(poly, r)
    ensures Register(poly, FeedBit(poly, r, w))
  {
  }

  lemma {:induction false} FeedBitsFits(poly: bv32, r: bv32, w: bv32, n: nat)
    requires Register(poly, r)
    ensures Register(poly, FeedBits(poly, r, w, n))
    decreases n
  {
    hide FeedBit, Half, Register;
    if n != 0 {
      FeedBitFits(poly, r, w);
      FeedBitsFits(poly, FeedBit(poly, r, w), Half(w), n - 1);
    }
  }

  lemma {:induction false} RemainderFits(poly: bv32, r: bv32, message: seq<bv8>)
    requires Register(poly, r)
    ensures Register(poly, Remainder(poly, r, message))
    decreases |message|
  {
    hide FeedBits, Register;
    if message != [] {
      FeedBitsFits(poly, r, Wide(message[0]), 8);
      RemainderFits(poly, FeedByte(poly, r, message[0]), message[1..]);
    }
  }

  /** No two registers have the same successor: the bit that falls out shows in the top bit. */
  lemma StepInjective(poly: bv32, x: bv32, y: bv32)
    requires Register(poly, x) && Register(poly, y)
    requires Step(poly, x) == Step(poly, y)
    ensures x == y
  {
    if poly == CRC32 {
      StepInjective32(x, y);
    } else {
      StepInjective16(x, y);
    }
  }

  lemma StepInjective32(x: bv32, y: bv32)
    requires Step(CRC32, x) == Step(CRC32, y)
    ensures x == y
  {
  }

  lemma StepInjective16(x: bv32, y: bv32)
    requires x < 0x1_0000 && y < 0x1_0000
    requires Step(CRC16, x) == Step(CRC16, y)
    ensures x == y
  {
  }

  lemma {:induction false} StepsInjective(poly: bv32, x: bv32, y: bv32, n: nat)
    requires Register(poly, x) && Register(poly, y)
    requires Steps(poly, x, n) == Steps(poly, y, n)
    ensures x == y
    decreases n
  {
    hide Step, Register;
    if n != 0 {
      StepFits(poly, x);
      StepFits(poly, y);
      StepsInjective(poly, Step(poly, x), Step(poly, y), n - 1);
      StepInjective(poly, x, y);
    }
  }

  /** The message bytes as one word, the first byte lowest. */
  function Pack(x: seq<bv8>): bv32
    decreases |x|
  {
    if x == [] then 0 else Xor(Wide(x[0]), Shift8Up(Pack(x[1..])))
  }

  function Shift8Up(w: bv32): bv32 {
    w << 8
  }

  function Limit(n: nat): bv32
    requires n <= 3
  {
    match n
    case 0 => 1
    case 1 => 0x100
    case 2 => 0x1_0000
    case _ => 0x100_0000
  }

  /** w fits n bytes. */
  predicate Fits(w: bv32, n: nat)
    requires n <= 3
  {
    w < Limit(n)
  }

  lemma PackStep(b: bv8, w: bv32, n: nat)
    requires n <= 3 && Fits(w, n)
    ensures n < 3 ==> Fits(Xor(Wide(b), Shift8Up(w)), n + 1)
  {
  }

  lemma EmptyBound()
    ensures Fits(Pack([]), 0)
  {
  }

  lemma {:induction false} PackBound(x: seq<bv8>)
    requires |x| <= 3
    ensures Fits(Pack(x), |x|)
    decreases |x|
  {
    hide Xor, Wide, Shift8Up, Fits;
    if x == [] {
      EmptyBound();
    } else {
      PackBound(x[1..]);
      PackStep(x[0], Pack(x[1..]), |x| - 1);
    }
  }

  lemma ShiftUpDown(w: bv32)
    requires Fits(w, 3)
    ensures Low8(Shift8Up(w)) == 0 && Shift8(Shift8Up(w)) == w
  {
  }

  lemma SmallLimits(w: bv32, n: nat)
    requires n <= 3 && Fits(w, n)
    ensures Fits(w, 3)
  {
  }

  lemma FeedByteIsSteps(poly: bv32, r: bv32, b: bv8)
    ensures FeedByte(poly, r, b) == Steps(poly, Xor(r, Wide(b)), 8)
  {
    hide Xor, Wide, Shr, Shift8;
    ByteFits(r, b);
    ShrEight(Wide(b));
    FeedIsSteps(poly, r, Wide(b), 8);
  }

  /** A message of at most four bytes is divided like one word. */
  lemma {:induction false} ShortMessage(poly: bv32, r: bv32, x: seq<bv8>)
    requires |x| <= 4
    ensures Remainder(poly, r, x) == Steps(poly, Xor(r, Pack(x)), 8 * |x|)
    decreases |x|
  {
    hide Xor, Wide, Shr, Shift8, Shift8Up, Low8, FeedByte, Fits, Steps, LowZero;
    if x == [] {
      XorZero(r);
      NoSteps(poly, r);
    } else {
      var rest := Pack(x[1..]);
      var h := Shift8Up(rest);
      var start := Xor(r, Wide(x[0]));
      ShortMessage(poly, FeedByte(poly, r, x[0]), x[1..]);
      FeedByteIsSteps(poly, r, x[0]);
      PackBound(x[1..]);
      SmallLimits(rest, |x| - 1);
      ShiftUpDown(rest);
      LowZeroEight(h);
      ShrEight(h);
      HighBitsShift(poly, start, h, 8);
      StepsAdd(poly, Xor(start, h), 8, 8 * |x[1..]|);
      XorAssoc(r, Wide(x[0]), h);
    }
  }

  lemma NoSteps(poly: bv32, r: bv32)
    ensures Steps(poly, r, 0) == r
  {
  }

  lemma WordsApart(a: bv8, v: bv32, b: bv8, w: bv32)
    requires Fits(v, 3) && Fits(w, 3)
    requires Xor(Wide(a), Shift8Up(v)) == Xor(Wide(b), Shift8Up(w))
    ensures a == b && v == w
  {
  }

  lemma PackParts(x: seq<bv8>)
    requires 0 < |x| <= 4
    ensures Pack(x) == Xor(Wide(x[0]), Shift8Up(Pack(x[1..])))
    ensures Fits(Pack(x[1..]), 3)
  {
    hide Xor, Wide, Shift8Up, Fits;
    PackBound(x[1..]);
    SmallLimits(Pack(x[1..]), |x| - 1);
  }

  lemma {:induction false} PackInjective(x: seq<bv8>, y: seq<bv8>)
    requires |x| == |y| <= 4 && Pack(x) == Pack(y)
    ensures x == y
    decreases |x|
  {
    hide *;
    if x != [] {
      PackParts(x);
      PackParts(y);
      WordsApart(x[0], Pack(x[1..]), y[0], Pack(y[1..]));
      PackInjective(x[1..], y[1..]);
      assert x == [x[0]] + x[1..] && y == [y[0]] + y[1..];
    }
  }

  /** Register width in bytes: the longest burst that is always detected. */
  function BurstLimit(poly: bv32): nat {
    if poly == CRC32 then 4 else 2
  }

  lemma XorFits(poly: bv32, a: bv32, n: nat, w: bv32)
    requires Register(poly, a) && n <= 3 && Fits(w, n)
    requires poly == CRC16 ==> n <= 2
    ensures Register(poly, Xor(a, w))
  {
  }

  lemma PackFits(poly: bv32, r: bv32, x: seq<bv8>)
    requires Register(poly, r) && |x| <= BurstLimit(poly)
    ensures Register(poly, Xor(r, Pack(x)))
  {
    if |x| <= 3 {
      PackBound(x);
      XorFits(poly, r, |x|, Pack(x));
    }
  }

  /** From one register, different bursts of the same length leave different registers. */
  lemma BurstSeen(poly: bv32, r: bv32, x: seq<bv8>, y: seq<bv8>)
    requires Register(poly, r) && |x| == |y| <= BurstLimit(poly)
    requires Remainder(poly, r, x) == Remainder(poly, r, y)
    ensures x == y
  {
    hide Xor, Register, Remainder, Steps, Pack;
    ShortMessage(poly, r, x);
    ShortMessage(poly, r, y);
    PackFits(poly, r, x);
    PackFits(poly, r, y);
    StepsInjective(poly, Xor(r, Pack(x)), Xor(r, Pack(y)), 8 * |x|);
    XorCancels(Pack(x), Pack(y), r);
    PackInjective(x, y);
  }

  /** A common suffix keeps registers apart. */
  lemma {:induction false} SuffixKeepsApart(poly: bv32, a: bv32, b: bv32, suffix: seq<bv8>)
    requires Register(poly, a) && Register(poly, b)
    requires Remainder(poly, a, suffix) == Remainder(poly, b, suffix)
    ensures a == b
    decreases |suffix|
  {
    hide Register, FeedByte, FeedBits, Pack, Steps, Xor;
    if suffix != [] {
      var s := suffix[..1];
      RemainderFits(poly, a, s);
      RemainderFits(poly, b, s);
      RemainderSplits(poly, a, s, suffix[1..]);
      RemainderSplits(poly, b, s, suffix[1..]);
      assert s + suffix[1..] == suffix;
      SuffixKeepsApart(poly, Remainder(poly, a, s), Remainder(poly, b, s), suffix[1..]);
      OneByteKeepsApart(poly, a, b, suffix[0]);
      assert s == [suffix[0]];
    }
  }

  lemma OneByteKeepsApart(poly: bv32, a: bv32, b: bv32, v: bv8)
    requires Register(poly, a) && Register(poly, b)
    requires Remainder(poly, a, [v]) == Remainder(poly, b, [v])
    ensures a == b
  {
    hide Xor, Register, Remainder, Steps, Pack;
    ShortMessage(poly, a, [v]);
    ShortMessage(poly, b, [v]);
    PackFits(poly, a, [v]);
    PackFits(poly, b, [v]);
    StepsInjective(poly, Xor(a, Pack([v])), Xor(b, Pack([v])), 8);
    XorCancels(a, b, Pack([v]));
  }

  /** A message can be checked in pieces, each starting from the register the last one left. */
  lemma {:induction false} RemainderSplits(poly: bv32, r: bv32, a: seq<bv8>, b: seq<bv8>)
    ensures Remainder(poly, r, a + b) == Remainder(poly, Remainder(poly, r, a), b)
    decreases |a|
  {
    hide FeedByte;
    if a == [] {
      assert a + b == b;
    } else {
      assert (a + b)[1..] == a[1..] + b;
      RemainderSplits(poly, FeedByte(poly, r, a[0]), a[1..], b);
    }
  }

  /** Equal-length messages that differ only inside a window as wide as the register (four
      bytes for CRC-32, two for CRC-16) never have the same remainder. */
  lemma BurstDetected(poly: bv32, init: bv32, before: seq<bv8>, x: seq<bv8>, y: seq<bv8>, after: seq<bv8>)
    requires Register(poly, init)
    requires |x| == |y| <= BurstLimit(poly)
    ensures Remainder(poly, init, before + x + after) == Remainder(poly, init, before + y + after) <==> x == y
  {
    hide Register, Remainder;
    var r := Remainder(poly, init, before);
    RemainderFits(poly, init, before);
    RemainderSplits(poly, init, before, x);
    RemainderSplits(poly, init, before, y);
    RemainderSplits(poly, init, before + x, after);
    RemainderSplits(poly, init, before + y, after);
    if Remainder(poly, init, before + x + after) == Remainder(poly, init, before + y + after) {
      RemainderFits(poly, r, x);
      RemainderFits(poly, r, y);
      SuffixKeepsApart(poly, Remainder(poly, r, x), Remainder(poly, r, y), after);
      BurstSeen(poly, r, x, y);
    }
  }

  /** Changing any one byte of a message changes its remainder. */
  lemma ByteChangeDetected(poly: bv32, init: bv32, message: seq<bv8>, i: nat, v: bv8)
    requires Register(poly, init) && i < |message| && v != message[i]
    ensures Remainder(poly, init, message[i := v]) != Remainder(poly, init, message)
  {
    hide Register, Remainder;
    BurstDetected(poly, init, message[..i], [message[i]], [v], message[i + 1..]);
    assert message[..i] + [message[i]] + message[i + 1..] == message;
    assert message[..i] + [v] + message[i + 1..] == message[i := v];
  }
}
