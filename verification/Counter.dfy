/** The 128-bit counter of the AES driver as four 32-bit words in memory
    (arm9/source/crypto.c): how a word layout denotes a number, advancing it,
    and changing the layout. */
module Counter {
  import opened Machine
  import opened Words

  /** The two flags of an input mode: byte order within a word and word order. */
  datatype Layout = Layout(bigEndian: bool, normalOrder: bool)

  /** The layout of data blocks in memory (AES_INPUT_BE | AES_INPUT_NORMAL). */
  const MEMORY := Layout(true, true)

  type Words4 = s: seq<u32> | |s| == 4 witness [0, 0, 0, 0]

  function SwapAll(w: seq<u32>): (v: seq<u32>)
    ensures |v| == |w|
  {
    seq(|w|, i requires 0 <= i < |w| => ByteSwap(w[i]))
  }

  /** The number whose 32-bit limbs these are, least significant first. */
  function Number(limbs: seq<u32>): nat {
    if limbs == [] then 0 else Number(limbs[1..]) * 0x1_0000_0000 + limbs[0]
  }

  /** The limbs of a counter, least significant first. */
  function LimbsOf(w: seq<u32>, l: Layout): (v: seq<u32>)
    ensures |v| == |w|
  {
    var x := if l.bigEndian then SwapAll(w) else w;
    if l.normalOrder then Reverse(x) else x
  }

  /** The number that the words of a counter denote. */
  function Value(w: Words4, l: Layout): Block {
    NumberOfFour(LimbsOf(w, l));
    Number(LimbsOf(w, l))
  }

  /** Four limbs, least significant first. */
  function Limbs(a0: u32, a1: u32, a2: u32, a3: u32): Block {
    var x0: int, x1: int, x2: int, x3: int := a0, a1, a2, a3;
    x0 + 0x1_0000_0000 * x1 + 0x1_0000_0000_0000_0000 * x2 + 0x1_0000_0000_0000_0000_0000_0000 * x3
  }

  lemma NumberOfFour(v: Words4)
    ensures Number(v) == Limbs(v[0], v[1], v[2], v[3])
  {
    var v3: int, v2: int := v[3], v[2];
    assert v[3..][1..] == [];
    assert Number(v[3..]) == v3;
    assert v[2..][1..] == v[3..];
    assert Number(v[2..]) == v3 * 0x1_0000_0000 + v2;
    assert v[1..][1..] == v[2..];
  }

  // ----- the bytes of a counter -----

  /** The number whose bytes these are, the most significant first. */
  function BigEndian(bytes: seq<u8>): nat {
    if bytes == [] then 0 else 0x100 * BigEndian(bytes[..|bytes| - 1]) + bytes[|bytes| - 1]
  }

  /** The bytes of a counter as they lie in memory. */
  function MemoryBytes(w: Words4): (b: seq<u8>)
    ensures |b| == 16
  {
    seq(16, i requires 0 <= i < 16 => Byte(w[i / 4], i % 4))
  }

  /** The bytes of a counter, the most significant first: the words in memory order or the other
      way round, and likewise the bytes of each word. */
  function OrderedBytes(w: Words4, l: Layout): (b: seq<u8>)
    ensures |b| == 16
  {
    seq(16, i requires 0 <= i < 16 =>
      MemoryBytes(w)[4 * (if l.normalOrder then i / 4 else 3 - i / 4) + (if l.bigEndian then i % 4 else 3 - i % 4)])
  }

  /** The bytes of a word, the most significant first. */
  function WordBytes(w: u32): (b: seq<u8>)
    ensures |b| == 4
  {
    [Byte(w, 3), Byte(w, 2), Byte(w, 1), Byte(w, 0)]
  }

  lemma OneMore(s: seq<u8>, x: u8)
    ensures BigEndian(s + [x]) == 0x100 * BigEndian(s) + x
  {
    assert (s + [x])[..|s|] == s;
  }

  lemma FourMore(s: seq<u8>, w: u32)
    ensures BigEndian(s + WordBytes(w)) == 0x1_0000_0000 * BigEndian(s) + w
  {
    WordOfBytes(w);
    hide Byte, BigEndian;
    var b := WordBytes(w);
    OneMore(s, b[0]);
    OneMore(s + [b[0]], b[1]);
    OneMore(s + [b[0]] + [b[1]], b[2]);
    OneMore(s + [b[0]] + [b[1]] + [b[2]], b[3]);
    assert s + b == s + [b[0]] + [b[1]] + [b[2]] + [b[3]];
  }

  lemma BigEndianOfLimbs(v: Words4)
    ensures BigEndian(WordBytes(v[3]) + WordBytes(v[2]) + WordBytes(v[1]) + WordBytes(v[0]))
         == Limbs(v[0], v[1], v[2], v[3])
  {
    assert BigEndian([]) == 0;
    hide WordBytes, BigEndian;
    var s3 := WordBytes(v[3]);
    FourMore([], v[3]);
    assert [] + s3 == s3;
    FourMore(s3, v[2]);
    FourMore(s3 + WordBytes(v[2]), v[1]);
    FourMore(s3 + WordBytes(v[2]) + WordBytes(v[1]), v[0]);
  }

  lemma LimbAt(w: Words4, l: Layout, q: nat)
    requires q < 4
    ensures var x := w[if l.normalOrder then q else 3 - q];
      LimbsOf(w, l)[3 - q] == if l.bigEndian then ByteSwap(x) else x
  {
    hide ByteSwap;
  }

  lemma OrderedAt(w: Words4, l: Layout, i: nat)
    requires i < 16
    ensures OrderedBytes(w, l)[i] == WordBytes(LimbsOf(w, l)[3 - i / 4])[i % 4]
  {
    var q, r := i / 4, i % 4;
    var k, j := if l.normalOrder then q else 3 - q, if l.bigEndian then r else 3 - r;
    OrderedPlace(w, l, i, k, j);
    LimbAt(w, l, q);
    SwapReverses(w[k], 3 - r);
    hide Byte, ByteSwap, LimbsOf, OrderedBytes;
    var x := LimbsOf(w, l)[3 - q];
    assert WordBytes(x)[r] == Byte(x, 3 - r);
  }

  lemma OrderedPlace(w: Words4, l: Layout, i: nat, k: nat, j: nat)
    requires i < 16
    requires k == (if l.normalOrder then i / 4 else 3 - i / 4) && j == if l.bigEndian then i % 4 else 3 - i % 4
    ensures OrderedBytes(w, l)[i] == Byte(w[k], j)
  {
    hide Byte;
    assert (4 * k + j) / 4 == k && (4 * k + j) % 4 == j;
    assert MemoryBytes(w)[4 * k + j] == Byte(w[k], j);
  }

  /** In every layout the counter is the big-endian number of its bytes in their order. In that of
      data blocks, this is the order in memory. */
  lemma CounterBytes(w: Words4, l: Layout)
    ensures Value(w, l) == BigEndian(OrderedBytes(w, l))
    ensures OrderedBytes(w, MEMORY) == MemoryBytes(w)
  {
    var b, v := OrderedBytes(w, l), LimbsOf(w, l);
    var c := WordBytes(v[3]) + WordBytes(v[2]) + WordBytes(v[1]) + WordBytes(v[0]);
    NumberOfFour(v);
    BigEndianOfLimbs(v);
    InMemoryOrder(w);
    hide WordBytes, LimbsOf, OrderedBytes, BigEndian, Number, Limbs;
    forall i | 0 <= i < 16 ensures b[i] == c[i] {
      OrderedAt(w, l, i);
      InFourParts(WordBytes(v[3]), WordBytes(v[2]), WordBytes(v[1]), WordBytes(v[0]), i);
    }
    assert b == c;
  }

  lemma InFourParts(a: seq<u8>, b: seq<u8>, c: seq<u8>, d: seq<u8>, i: nat)
    requires |a| == |b| == |c| == |d| == 4 && i < 16
    ensures (a + b + c + d)[i] == [a, b, c, d][i / 4][i % 4]
  {
  }

  lemma InMemoryOrder(w: Words4)
    ensures OrderedBytes(w, MEMORY) == MemoryBytes(w)
  {
    forall i | 0 <= i < 16 ensures OrderedBytes(w, MEMORY)[i] == MemoryBytes(w)[i] {
      assert 4 * (i / 4) + i % 4 == i;
    }
  }

  function AddBlock(x: Block, n: nat): Block {
    var v: int := x;
    (v + n) % 0x1_0000_0000_0000_0000_0000_0000_0000_0000
  }

  lemma AddBlockTwice(x: Block, m: nat, n: nat)
    ensures AddBlock(AddBlock(x, m), n) == AddBlock(x, m + n)
  {
  }

  // ----- advancing the counter -----

  /** One limb of an addition: the sum word and the carry out. */
  method AddLimb(a: u32, n: u32) returns (b: u32, carry: u32)
    ensures b + 0x1_0000_0000 * carry == a + n && carry <= 1
  {
    var x: int, y: int := a, n;
    var s := x + y;
    if s >= 0x1_0000_0000 {
      b, carry := s - 0x1_0000_0000, 1;
    } else {
      b, carry := s, 0;
    }
  }

  lemma CarryOut(total: nat, limbs: Block, carry: nat)
    requires total == limbs + 0x1_0000_0000_0000_0000_0000_0000_0000_0000 * carry
    ensures total % 0x1_0000_0000_0000_0000_0000_0000_0000_0000 == limbs
  {
  }

  /** The macro for ARM state: a later limb is touched only while the carry is set. */
  method AddArm(a0: u32, a1: u32, a2: u32, a3: u32, n: u32) returns (b0: u32, b1: u32, b2: u32, b3: u32)
    ensures Limbs(b0, b1, b2, b3) == AddBlock(Limbs(a0, a1, a2, a3), n)
  {
    var carry: u32;
    b0, carry := AddLimb(a0, n);
    b1, b2, b3 := a1, a2, a3;
    if carry == 1 {
      b1, carry := AddLimb(b1, 1);
    }
    if carry == 1 {
      b2, carry := AddLimb(b2, 1);
    }
    if carry == 1 {
      b3, carry := AddLimb(b3, 1);
    }
    CarryOut(Limbs(a0, a1, a2, a3) + n, Limbs(b0, b1, b2, b3), carry);
  }

  /** The macro for Thumb state: the carry is added to every limb. */
  method AddThumb(a0: u32, a1: u32, a2: u32, a3: u32, n: u32) returns (b0: u32, b1: u32, b2: u32, b3: u32)
    ensures Limbs(b0, b1, b2, b3) == AddBlock(Limbs(a0, a1, a2, a3), n)
  {
    var carry: u32;
    b0, carry := AddLimb(a0, n);
    b1, carry := AddLimb(a1, carry);
    b2, carry := AddLimb(a2, carry);
    b3, carry := AddLimb(a3, carry);
    CarryOut(Limbs(a0, a1, a2, a3) + n, Limbs(b0, b1, b2, b3), carry);
  }

  lemma SwapAllTwice(w: Words4)
    ensures SwapAll(SwapAll(w)) == w
  {
    forall i | 0 <= i < 4 ensures SwapAll(SwapAll(w))[i] == w[i] { SwapTwice(w[i]); }
  }

  method SwapWords(ctr: array<u32>)
    requires ctr.Length == 4
    modifies ctr
    ensures ctr[..] == SwapAll(old(ctr[..]))
  {
    for i := 0 to 4
      invariant forall k :: 0 <= k < 4 ==> ctr[k] == if k < i then ByteSwap(old(ctr[k])) else old(ctr[k])
    {
      ctr[i] := ByteSwap(ctr[i]);
    }
  }

  lemma AdvancedBytes(w: Words4, w': Words4, l: Layout, n: u32)
    requires Value(w', l) == AddBlock(Value(w, l), n)
    ensures BigEndian(OrderedBytes(w', l)) ==
      (BigEndian(OrderedBytes(w, l)) + n) % 0x1_0000_0000_0000_0000_0000_0000_0000_0000
  {
    hide Value, BigEndian, OrderedBytes;
    CounterBytes(w, l);
    CounterBytes(w', l);
  }

  /** The big-endian number of the counter's bytes, in their order, grows by n. */
  method AdvanceCounter(ctr: array<u32>, n: u32, l: Layout)
    requires ctr.Length == 4
    modifies ctr
    ensures Value(ctr[..], l) == AddBlock(Value(old(ctr[..]), l), n)
    ensures BigEndian(OrderedBytes(ctr[..], l)) ==
      (BigEndian(OrderedBytes(old(ctr[..]), l)) + n) % 0x1_0000_0000_0000_0000_0000_0000_0000_0000
  {
    hide BigEndian, OrderedBytes, AddBlock;
    ghost var was: Words4 := ctr[..];
    ghost var before := LimbsOf(ctr[..], l);
    if l.bigEndian { SwapWords(ctr); }
    assert before == if l.normalOrder then Reverse(ctr[..]) else ctr[..];
    if l.normalOrder {
      ctr[3], ctr[2], ctr[1], ctr[0] := AddArm(ctr[3], ctr[2], ctr[1], ctr[0], n);
    } else {
      ctr[0], ctr[1], ctr[2], ctr[3] := AddArm(ctr[0], ctr[1], ctr[2], ctr[3], n);
    }
    ghost var v: Words4 := ctr[..];
    ghost var after := if l.normalOrder then Reverse(v) else v;
    NumberOfFour(before);
    NumberOfFour(after);
    if l.bigEndian {
      SwapWords(ctr);
      SwapAllTwice(v);
    }
    assert LimbsOf(ctr[..], l) == after;
    AdvancedBytes(was, ctr[..], l, n);
  }

  // ----- changing the layout -----

  function Relaid(w: Words4, from: Layout, to: Layout): (v: Words4) {
    var x := if from.bigEndian != to.bigEndian then SwapAll(w) else w;
    if from.normalOrder != to.normalOrder then Reverse(x) else x
  }

  lemma RelaidKeepsLimbs(w: Words4, from: Layout, to: Layout)
    ensures LimbsOf(Relaid(w, from, to), to) == LimbsOf(w, from)
  {
    var v := Relaid(w, from, to);
    SwapAllTwice(w);
    forall i | 0 <= i < 4 ensures LimbsOf(v, to)[i] == LimbsOf(w, from)[i] {
      SwapTwice(w[i]);
      SwapTwice(w[3 - i]);
    }
  }

  lemma RelaidKeepsValue(w: Words4, from: Layout, to: Layout)
    ensures Value(Relaid(w, from, to), to) == Value(w, from)
  {
    RelaidKeepsLimbs(w, from, to);
  }

  method ReverseWords(ctr: array<u32>)
    requires ctr.Length == 4
    modifies ctr
    ensures ctr[..] == Reverse(old(ctr[..]))
  {
    var temp := ctr[0];
    ctr[0] := ctr[3];
    ctr[3] := temp;
    temp := ctr[1];
    ctr[1] := ctr[2];
    ctr[2] := temp;
  }

  method ChangeLayout(ctr: array<u32>, from: Layout, to: Layout)
    requires ctr.Length == 4
    modifies ctr
    ensures ctr[..] == Relaid(old(ctr[..]), from, to)
    ensures Value(ctr[..], to) == Value(old(ctr[..]), from)
  {
    RelaidKeepsValue(ctr[..], from, to);
    if from.bigEndian != to.bigEndian { SwapWords(ctr); }
    if from.normalOrder != to.normalOrder { ReverseWords(ctr); }
  }

  // ----- data blocks as words -----

  /** The words of a data block in memory. */
  function BlockWords(x: Block): (w: Words4) {
    var v: int := x;
    [ByteSwap(v / 0x1_0000_0000 / 0x1_0000_0000 / 0x1_0000_0000),
     ByteSwap(v / 0x1_0000_0000 / 0x1_0000_0000 % 0x1_0000_0000),
     ByteSwap(v / 0x1_0000_0000 % 0x1_0000_0000),
     ByteSwap(v % 0x1_0000_0000)]
  }

  lemma BlockWordsValue(x: Block)
    ensures Value(BlockWords(x), MEMORY) == x
  {
    var v: int := x;
    var q1 := v / 0x1_0000_0000;
    var q2 := q1 / 0x1_0000_0000;
    SwapTwice(q2 / 0x1_0000_0000);
    SwapTwice(q2 % 0x1_0000_0000);
    SwapTwice(q1 % 0x1_0000_0000);
    SwapTwice(v % 0x1_0000_0000);
    NumberOfFour(LimbsOf(BlockWords(x), MEMORY));
  }
}
