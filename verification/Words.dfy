/** 32-bit words, their byte order, and bitwise exclusive or on naturals. */
module Words {
  import opened Machine

  // ----- exclusive or -----

  function Xor(a: nat, b: nat): nat
    decreases a + b
  {
    if a == 0 then b
    else if b == 0 then a
    else (a + b) % 2 + 2 * Xor(a / 2, b / 2)
  }

  function Pow2(n: nat): nat {
    if n == 0 then 1 else 2 * Pow2(n - 1)
  }

  lemma HalvesOf(m: nat, y: nat)
    requires m < 2
    ensures (m + 2 * y) % 2 == m && (m + 2 * y) / 2 == y
  {
  }

  lemma XorHalves(a: nat, b: nat)
    ensures Xor(a, b) % 2 == (a + b) % 2 && Xor(a, b) / 2 == Xor(a / 2, b / 2)
  {
    if a == 0 {
      assert Xor(a / 2, b / 2) == b / 2;
    } else if b == 0 {
      assert Xor(a / 2, b / 2) == a / 2;
    } else {
      HalvesOf((a + b) % 2, Xor(a / 2, b / 2));
    }
  }

  lemma ParityTwice(a: nat, b: nat, x: nat)
    requires x % 2 == (a + b) % 2
    ensures (x + b) % 2 == a % 2
  {
  }

  lemma SameHalves(p: nat, q: nat)
    requires p / 2 == q / 2 && p % 2 == q % 2
    ensures p == q
  {
  }

  lemma {:induction false} XorInverts(a: nat, b: nat)
    ensures Xor(Xor(a, b), b) == a
    decreases a + b
  {
    if a != 0 || b != 0 {
      var x := Xor(a, b);
      var y := Xor(x, b);
      XorHalves(a, b);
      XorHalves(x, b);
      XorInverts(a / 2, b / 2);
      ParityTwice(a, b, x);
      SameHalves(y, a);
    }
  }

  lemma {:induction false} XorBound(a: nat, b: nat, n: nat)
    requires a < Pow2(n) && b < Pow2(n)
    ensures Xor(a, b) < Pow2(n)
  {
    if n > 0 && a > 0 && b > 0 { XorBound(a / 2, b / 2, n - 1); }
  }

  lemma {:induction false} PowAdds(m: nat, n: nat)
    ensures Pow2(m + n) == Pow2(m) * Pow2(n)
  {
    if m > 0 {
      PowAdds(m - 1, n);
      assert Pow2(m + n) == 2 * (Pow2(m - 1) * Pow2(n));
    }
  }

  type Block = x: int | 0 <= x < 0x1_0000_0000_0000_0000_0000_0000_0000_0000

  lemma BlockBits()
    ensures Pow2(128) == 0x1_0000_0000_0000_0000_0000_0000_0000_0000
  {
    assert Pow2(4) == 0x10;
    assert Pow2(8) == 0x100 by { PowAdds(4, 4); }
    assert Pow2(16) == 0x1_0000 by { PowAdds(8, 8); }
    assert Pow2(32) == 0x1_0000_0000 by { PowAdds(16, 16); }
    assert Pow2(64) == 0x1_0000_0000_0000_0000 by { PowAdds(32, 32); }
    PowAdds(64, 64);
  }

  function XorBlock(a: Block, b: Block): Block {
    BlockBits();
    XorBound(a, b, 128);
    Xor(a, b)
  }

  lemma XorBlockInverts(a: Block, b: Block)
    ensures XorBlock(XorBlock(a, b), b) == a
  {
    XorInverts(a, b);
  }

  // ----- byte order -----

  function Byte(x: u32, i: nat): u8
    requires i < 4
  {
    var v: int := x;
    match i
    case 0 => v % 0x100
    case 1 => v / 0x100 % 0x100
    case 2 => v / 0x100 / 0x100 % 0x100
    case _ => v / 0x100 / 0x100 / 0x100
  }

  lemma BytesOfWord(b0: u8, b1: u8, b2: u8, b3: u8)
    ensures var x := FromBytes(b0, b1, b2, b3);
      Byte(x, 0) == b0 && Byte(x, 1) == b1 && Byte(x, 2) == b2 && Byte(x, 3) == b3
  {
    var x: int := FromBytes(b0, b1, b2, b3);
    assert x == b0 + 0x100 * (b1 + 0x100 * (b2 + 0x100 * b3));
    assert x / 0x100 == b1 + 0x100 * (b2 + 0x100 * b3);
    assert x / 0x100 / 0x100 == b2 + 0x100 * b3;
  }

  lemma WordOfBytes(x: u32)
    ensures FromBytes(Byte(x, 0), Byte(x, 1), Byte(x, 2), Byte(x, 3)) == x
  {
  }

  /** The n low bytes of x moved, lowest first, to the low end of acc. */
  function MoveBytes(x: nat, n: nat, acc: nat): nat {
    if n == 0 then acc else MoveBytes(x / 0x100, n - 1, acc * 0x100 + x % 0x100)
  }

  lemma MovesFourBytes(x: u32)
    ensures MoveBytes(x, 4, 0) == FromBytes(Byte(x, 3), Byte(x, 2), Byte(x, 1), Byte(x, 0))
  {
    var v: int := x;
    var b0: int, b1: int, b2: int, b3: int := Byte(x, 0), Byte(x, 1), Byte(x, 2), Byte(x, 3);
    assert MoveBytes(v, 4, 0) == MoveBytes(v / 0x100, 3, b0);
    assert MoveBytes(v / 0x100, 3, b0) == MoveBytes(v / 0x100 / 0x100, 2, b0 * 0x100 + b1);
    var q := v / 0x100 / 0x100;
    assert q / 0x100 % 0x100 == b3 && q % 0x100 == b2;
    assert MoveBytes(q / 0x100, 1, (b0 * 0x100 + b1) * 0x100 + b2) == ((b0 * 0x100 + b1) * 0x100 + b2) * 0x100 + b3;
  }

  function ByteSwap(x: u32): u32 {
    MovesFourBytes(x);
    MoveBytes(x, 4, 0)
  }

  /** A swapped word has the bytes of the word from the other end. */
  lemma SwapReverses(x: u32, i: nat)
    requires i < 4
    ensures Byte(ByteSwap(x), i) == Byte(x, 3 - i)
  {
    MovesFourBytes(x);
    BytesOfWord(Byte(x, 3), Byte(x, 2), Byte(x, 1), Byte(x, 0));
  }

  lemma SwapTwice(x: u32)
    ensures ByteSwap(ByteSwap(x)) == x
  {
    var y := ByteSwap(x);
    MovesFourBytes(x);
    MovesFourBytes(y);
    BytesOfWord(Byte(x, 3), Byte(x, 2), Byte(x, 1), Byte(x, 0));
    WordOfBytes(x);
  }
}
