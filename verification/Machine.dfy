/** Bytes, words and the few sequence helpers that every component shares. */
module Machine {
  type u8 = x: int | 0 <= x < 0x100
  type u32 = x: int | 0 <= x < 0x1_0000_0000
  type u64 = x: int | 0 <= x < 0x1_0000_0000_0000_0000
  type s64 = x: int | -0x8000_0000_0000_0000 <= x < 0x8000_0000_0000_0000

  /** Reduction to 32 bits. */
  function Wrap(x: int): u32 {
    x % 0x1_0000_0000
  }

  function Min(a: int, b: int): int {
    if a < b then a else b
  }

  function Max(a: int, b: int): int {
    if a > b then a else b
  }

  datatype Option<+T> = None | Some(value: T)

  /** The 32-bit word of four bytes, the lowest one first. */
  function FromBytes(b0: u8, b1: u8, b2: u8, b3: u8): u32 {
    var x0: int, x1: int, x2: int, x3: int := b0, b1, b2, b3;
    x0 + 0x100 * x1 + 0x1_0000 * x2 + 0x100_0000 * x3
  }

  /** The little-endian word stored at byte offset i. */
  function LoadWord(bytes: seq<u8>, i: nat): (w: u32)
    requires i + 4 <= |bytes|
  {
    FromBytes(bytes[i], bytes[i + 1], bytes[i + 2], bytes[i + 3])
  }

  function Reverse<T>(s: seq<T>): (r: seq<T>)
    ensures |r| == |s|
    ensures forall i :: 0 <= i < |s| ==> r[i] == s[|s| - 1 - i]
  {
    seq(|s|, i requires 0 <= i < |s| => s[|s| - 1 - i])
  }

  function Concat<T>(parts: seq<seq<T>>): seq<T> {
    if parts == [] then [] else parts[0] + Concat(parts[1..])
  }

  lemma AppendAssoc<T>(a: seq<T>, b: seq<T>, c: seq<T>)
    ensures (a + b) + c == a + (b + c)
  {
  }

  lemma HeadAppend<T>(s: seq<T>, t: seq<T>)
    requires s != []
    ensures [s[0]] + (s[1..] + t) == s + t
    ensures (s + t)[0] == s[0] && (s + t)[1..] == s[1..] + t
  {
  }

  // ----- packing bit fields -----

  lemma Digit2(low: nat, q: nat)
    requires low < 2
    ensures (low + 2 * q) % 2 == low && (low + 2 * q) / 2 == q
  {
  }

  lemma Digit4(low: nat, q: nat)
    requires low < 4
    ensures (low + 4 * q) % 4 == low && (low + 4 * q) / 4 == q
  {
  }

  lemma Digit8(low: nat, q: nat)
    requires low < 8
    ensures (low + 8 * q) % 8 == low && (low + 8 * q) / 8 == q
  {
  }

  lemma Digit16(low: nat, q: nat)
    requires low < 0x10
    ensures (low + 0x10 * q) % 0x10 == low && (low + 0x10 * q) / 0x10 == q
  {
  }

  lemma Digit32(low: nat, q: nat)
    requires low < 0x20
    ensures (low + 0x20 * q) % 0x20 == low && (low + 0x20 * q) / 0x20 == q
  {
  }

  lemma Digit4096(low: nat, q: nat)
    requires low < 0x1000
    ensures (low + 0x1000 * q) % 0x1000 == low && (low + 0x1000 * q) / 0x1000 == q
  {
  }
}
