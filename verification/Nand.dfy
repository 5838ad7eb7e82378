/** Encrypted access to the CTR partition of the NAND (arm9/source/crypto.c): the
    counter of a sector, reads decrypted in place, and writes encrypted chunk by chunk. */
module Nand {
  import opened Machine
  import opened Words
  import opened Counter
  import opened Fifo
  import opened Aes

  const CHUNK_SECTORS := 32  // a 0x4000-byte bounce buffer

  /** The number of blocks before a sector as the u32 arithmetic of the driver computes it. */
  function BlockOffset(sector: nat): u32 {
    sector * 0x200 % 0x1_0000_0000 / 0x10
  }

  /** The counter for the data of a sector, counted from the start of the card. */
  function SectorCounter(base: Block, sector: nat): Block {
    AddBlock(base, BlockOffset(sector))
  }

  /** Encryption or decryption of whole sectors. */
  function Crypt(c: Cipher, base: Block, sector: nat, data: seq<Block>): (r: seq<Block>)
    ensures |r| == |data|
  {
    Out(StepOf(c, Ctr), SectorCounter(base, sector), data)
  }

  /** Sectors lo..lo + n of a card. */
  function Sectors(card: seq<Block>, lo: nat, n: nat): (r: seq<Block>)
    requires 32 * (lo + n) <= |card|
    ensures |r| == 32 * n
  {
    card[32 * lo..32 * (lo + n)]
  }

  /** What is read back is what was written. */
  lemma ReadAfterWrite(c: Cipher, base: Block, card: seq<Block>, sector: nat, n: nat, data: seq<Block>)
    requires |data| == 32 * n && 32 * (sector + n) <= |card|
    ensures var card' := Overwritten(card, 32 * sector, Crypt(c, base, sector, data));
      Crypt(c, base, sector, Sectors(card', sector, n)) == data
  {
    var written := Crypt(c, base, sector, data);
    assert Sectors(Overwritten(card, 32 * sector, written), sector, n) == written;
    CtrRoundTrip(c, SectorCounter(base, sector), data);
  }

  // ----- reading part of a larger read -----

  /** Both sectors have byte offsets in the same window of 2^32. */
  predicate SameWindow(a: nat, b: nat) {
    a / 0x80_0000 == b / 0x80_0000
  }

  lemma BlockOffsetOf(sector: nat)
    ensures BlockOffset(sector) == 32 * (sector % 0x80_0000)
  {
    var q, r := sector / 0x80_0000, sector % 0x80_0000;
    assert sector * 0x200 == 0x1_0000_0000 * q + 0x200 * r;
  }

  lemma AddBlockInjective(base: Block, m: nat, n: nat)
    requires m < 0x100_0000_0000 && n < 0x100_0000_0000
    ensures AddBlock(base, m) == AddBlock(base, n) <==> m == n
  {
  }

  /** The counter computed for a sector k further on is the one reached by counting exactly
      when no 2^32 boundary lies between them. */
  lemma CounterContinues(base: Block, sector: nat, k: nat)
    requires sector + k < 0x1_0000_0000
    ensures SectorCounter(base, sector + k) == AddBlock(SectorCounter(base, sector), 32 * k)
      <==> SameWindow(sector, sector + k)
  {
    BlockOffsetOf(sector);
    BlockOffsetOf(sector + k);
    var off, off' := BlockOffset(sector), BlockOffset(sector + k);
    AddBlockTwice(base, off, 32 * k);
    AddBlockInjective(base, off', off + 32 * k);
  }

  lemma XorCommutes(a: nat, b: nat)
    ensures Xor(a, b) == Xor(b, a)
    decreases a + b
  {
  }

  lemma XorBlockInjective(x: Block, a: Block, b: Block)
    requires XorBlock(x, a) == XorBlock(x, b)
    ensures a == b
  {
    XorCommutes(x, a);
    XorCommutes(x, b);
    XorInverts(a, x);
    XorInverts(b, x);
  }

  lemma CryptPart(c: Cipher, t: Block, data: seq<Block>, lo: nat, n: nat)
    requires lo + n <= |data|
    ensures Out(StepOf(c, Ctr), t, data)[lo..lo + n] == Out(StepOf(c, Ctr), AddBlock(t, lo), data[lo..lo + n])
  {
    ChainOfCtr(c, t, data, lo);
    OutSplits(StepOf(c, Ctr), t, data, lo, n);
  }

  lemma FirstCtrBlock(c: Cipher, t: Block, data: seq<Block>)
    requires data != []
    ensures Out(StepOf(c, Ctr), t, data)[0] == XorBlock(data[0], c.encrypt(t))
  {
    assert ChainAt(StepOf(c, Ctr), t, data, 0) == t;
  }

  /** Different counters never decrypt the same data alike. */
  lemma CounterMatters(c: Cipher, t: Block, t': Block, data: seq<Block>)
    requires (forall x: Block :: c.decrypt(c.encrypt(x)) == x) && data != []
    ensures Out(StepOf(c, Ctr), t, data) == Out(StepOf(c, Ctr), t', data) <==> t == t'
  {
    FirstCtrBlock(c, t, data);
    FirstCtrBlock(c, t', data);
    if Out(StepOf(c, Ctr), t, data) == Out(StepOf(c, Ctr), t', data) {
      XorBlockInjective(data[0], c.encrypt(t), c.encrypt(t'));
      assert c.decrypt(c.encrypt(t)) == t && c.decrypt(c.encrypt(t')) == t';
    }
  }

  lemma SectorsPart(card: seq<Block>, sector: nat, count: nat, k: nat, n: nat)
    requires k + n <= count && 32 * (sector + count) <= |card|
    ensures Sectors(card, sector, count)[32 * k..32 * k + 32 * n] == Sectors(card, sector + k, n)
  {
    SliceOfSlice(card, 32 * sector, 32 * (sector + count), 32 * k, 32 * k + 32 * n);
  }

  lemma SliceOfSlice<T>(s: seq<T>, from: nat, to: nat, lo: nat, hi: nat)
    requires from <= to <= |s| && lo <= hi <= to - from
    ensures s[from..to][lo..hi] == s[from + lo..from + hi]
  {
    var a, b := s[from..to][lo..hi], s[from + lo..from + hi];
    forall k | 0 <= k < hi - lo ensures a[k] == b[k] {
      assert s[from..to][lo + k] == s[from + (lo + k)];
    }
  }

  /** Reading n sectors from the middle of a larger read gives the matching slice exactly when
      no 2^32 boundary of byte offsets lies between the two starting sectors. */
  lemma SubRead(c: Cipher, base: Block, card: seq<Block>, sector: nat, count: nat, k: nat, n: nat)
    requires (forall x: Block :: c.decrypt(c.encrypt(x)) == x) && 0 < n && k + n <= count
    requires 32 * (sector + count) <= |card| && sector + count < 0x1_0000_0000
    ensures Crypt(c, base, sector + k, Sectors(card, sector + k, n))
         == Crypt(c, base, sector, Sectors(card, sector, count))[32 * k..32 * k + 32 * n]
      <==> SameWindow(sector, sector + k)
  {
    hide Sectors, SectorCounter, StepOf, Out, SameWindow, AddBlock;
    var t, u := SectorCounter(base, sector), SectorCounter(base, sector + k);
    var whole, part := Sectors(card, sector, count), Sectors(card, sector + k, n);
    SectorsPart(card, sector, count, k, n);
    CryptPart(c, t, whole, 32 * k, 32 * n);
    var slice, own := Crypt(c, base, sector, whole)[32 * k..32 * k + 32 * n], Crypt(c, base, sector + k, part);
    assert slice == Out(StepOf(c, Ctr), AddBlock(t, 32 * k), part);
    assert own == Out(StepOf(c, Ctr), u, part);
    CounterMatters(c, u, AddBlock(t, 32 * k), part);
    assert own == slice <==> u == AddBlock(t, 32 * k);
    CounterContinues(base, sector, k);
    assert own == slice <==> SameWindow(sector, sector + k);
  }

  // ----- the driver -----

  method CopyBlocks(dst: array<Block>, at: nat, src: array<Block>, from: nat, n: nat)
    requires dst != src && at + n <= dst.Length && from + n <= src.Length
    modifies dst
    ensures dst[..] == Overwritten(old(dst[..]), at, src[..][from..from + n])
  {
    ghost var a := dst[..];
    for i := 0 to n
      invariant forall k :: 0 <= k < |a| ==> dst[k] == if at <= k < at + i then src[from + (k - at)] else a[k]
    {
      dst[at + i] := src[from + i];
    }
    assert forall k :: 0 <= k < |a| ==> dst[k] == Overwritten(a, at, src[..][from..from + n])[k];
  }

  /** The driver in CTR mode on the first n blocks of a buffer. */
  method CryptFront(e: Engine<Block>, c: Cipher, buf: array<Block>, n: nat, ctr: array<u32>,
                    ghost f: Step<Block>, ghost v: Block, ghost xs: seq<Block>)
    requires n <= buf.Length && ctr.Length == 4
    requires f == StepOf(c, Ctr) && v == Value(ctr[..], MEMORY) && xs == buf[..][..n]
    modifies e, buf, ctr
    ensures buf[..][..n] == Out(f, v, xs)
    ensures Value(ctr[..], MEMORY) == Chain(f, v, xs)
  {
    ghost var b := buf[..];
    assert b[0..0 + n] == xs;
    RunAes(e, c, buf, 0, 0, n, ctr, Ctr, MEMORY);
    assert buf[..] == Overwritten(b, 0, Out(f, v, xs));
  }

  predicate Sound(faulty: set<nat>, sector: nat, n: nat) {
    forall s <- faulty :: !(sector <= s < sector + n)
  }

  lemma SoundSplits(faulty: set<nat>, sector: nat, m: nat, n: nat)
    ensures Sound(faulty, sector, m + n) <==> Sound(faulty, sector, m) && Sound(faulty, sector + m, n)
  {
    if Sound(faulty, sector, m + n) {
      forall s | sector + m <= s < sector + m + n ensures s !in faulty {}
    }
  }

  /** A write of so many sectors has failed at the chunk that begins after `done` of them. */
  predicate StoppedAt(faulty: set<nat>, start: nat, count: nat, done: nat) {
    done % 0x20 == 0 && done < count && !Sound(faulty, start + done, Min(0x20, count - done))
  }

  /** A card: its contents by 16-byte blocks, and the sectors whose transfers fail. */
  class Card {
    const blocks: array<Block>
    const faulty: set<nat>

    constructor (blocks: array<Block>, faulty: set<nat>)
      ensures this.blocks == blocks && this.faulty == faulty
    {
      this.blocks, this.faulty := blocks, faulty;
    }

    method ReadSectors(sector: nat, n: nat, out: array<Block>) returns (result: int)
      requires 32 * (sector + n) <= blocks.Length && 32 * n <= out.Length && out != blocks
      modifies out
      ensures result == 0 <==> Sound(faulty, sector, n)
      ensures result == 0 ==> out[..] == Overwritten(old(out[..]), 0, Sectors(blocks[..], sector, n))
    {
      if s :| sector <= s < sector + n && s in faulty {
        return 1;
      }
      CopyBlocks(out, 0, blocks, 32 * sector, 32 * n);
      assert blocks[..][32 * sector..32 * sector + 32 * n] == Sectors(blocks[..], sector, n);
      result := 0;
    }

    method WriteSectors(sector: nat, n: nat, data: array<Block>) returns (result: int)
      requires 32 * (sector + n) <= blocks.Length && 32 * n <= data.Length && data != blocks
      modifies blocks
      ensures result == 0 <==> Sound(faulty, sector, n)
      ensures blocks[..] == if result == 0 then Overwritten(old(blocks[..]), 32 * sector, data[..][..32 * n])
                            else old(blocks[..])
    {
      if s :| sector <= s < sector + n && s in faulty {
        return 1;
      }
      CopyBlocks(blocks, 32 * sector, data, 0, 32 * n);
      result := 0;
    }

    /** The blocks from lo on of the output ys, which starts at block `at` of the card. */
    method Store(sector: nat, sectors: nat, lo: nat, data: array<Block>,
                 ghost card: seq<Block>, ghost at: nat, ghost ys: seq<Block>)
      returns (result: int)
      requires 32 * sectors <= data.Length && data != blocks && 32 * sector == at + lo
      requires lo + 32 * sectors <= |ys| && data[..][..32 * sectors] == ys[lo..lo + 32 * sectors]
      requires Written(card, blocks[..], at, ys, lo)
      modifies blocks
      ensures result == 0 <==> Sound(faulty, sector, sectors)
      ensures Written(card, blocks[..], at, ys, if result == 0 then lo + 32 * sectors else lo)
    {
      ghost var before, part := blocks[..], ys[lo..lo + 32 * sectors];
      OverwrittenNext(card, before, at, ys, lo, 32 * sectors);
      result := WriteSectors(sector, sectors, data);
      assert result == 0 ==> blocks[..] == Overwritten(before, at + lo, part);
    }
  }

  lemma WholeOverwritten(a: seq<Block>, ys: seq<Block>)
    requires |ys| == |a|
    ensures Overwritten(a, 0, ys) == ys
  {
  }

  class CtrNand {
    const cipher: Cipher
    const engine: Engine<Block>
    const nandCtr: array<u32>
    const buffer: array<Block>
    const nand: Card
    const sd: Card
    const sysNand: bool
    const emuOffset: nat
    var fatStart: u32

    /** The cards and the bounce buffer are separate, and the registers have their sizes. */
    ghost predicate Valid()
      reads this
    {
      && nandCtr.Length == 4 && buffer.Length == 32 * CHUNK_SECTORS
      && nand.blocks != buffer && sd.blocks != buffer && nand.blocks != sd.blocks
    }

    constructor (cipher: Cipher, nandCtr: array<u32>, buffer: array<Block>,
                 nand: Card, sd: Card, sysNand: bool, emuOffset: nat)
      requires nandCtr.Length == 4 && buffer.Length == 32 * CHUNK_SECTORS
      requires nand.blocks != buffer && sd.blocks != buffer && nand.blocks != sd.blocks
      ensures Valid() && fresh(engine) && fatStart == 0
      ensures this.cipher == cipher && this.nandCtr == nandCtr && this.buffer == buffer
      ensures this.nand == nand && this.sd == sd && this.sysNand == sysNand && this.emuOffset == emuOffset
    {
      this.cipher, this.nandCtr, this.buffer, this.nand, this.sd := cipher, nandCtr, buffer, nand, sd;
      this.sysNand, this.emuOffset, this.fatStart := sysNand, emuOffset, 0;
      engine := new Engine(StepOf(cipher, Ctr), 0);
    }

    /** A copy of the card's base counter, advanced to a sector. */
    method StartCounter(sector: nat) returns (ctr: array<u32>)
      requires Valid()
      ensures fresh(ctr) && ctr.Length == 4
      ensures Value(ctr[..], MEMORY) == SectorCounter(Value(nandCtr[..], MEMORY), sector)
    {
      ctr := new u32[4] [nandCtr[0], nandCtr[1], nandCtr[2], nandCtr[3]];
      assert ctr[..] == nandCtr[..];
      AdvanceCounter(ctr, BlockOffset(sector), MEMORY);
    }

    /** Copy n blocks into the bounce buffer and encrypt them there. */
    method FillBuffer(ctr: array<u32>, inbuf: array<Block>, lo: nat, n: nat,
                      ghost f: Step<Block>, ghost t: Block, ghost data: seq<Block>, ghost ys: seq<Block>)
      requires Valid() && ctr.Length == 4 && inbuf != buffer && lo + n <= inbuf.Length && n <= buffer.Length
      requires f == StepOf(cipher, Ctr) && data == inbuf[..] && ys == Out(f, t, data)
      requires Value(ctr[..], MEMORY) == ChainAt(f, t, data, lo)
      modifies engine, ctr, buffer
      ensures buffer[..][..n] == ys[lo..lo + n]
      ensures Value(ctr[..], MEMORY) == ChainAt(f, t, data, lo + n)
    {
      ghost var v, part := ChainAt(f, t, data, lo), data[lo..lo + n];
      OutSplits(f, t, data, lo, n);
      CopyBlocks(buffer, 0, inbuf, lo, n);
      assert buffer[..][..n] == part;
      CryptFront(engine, cipher, buffer, n, ctr, f, v, part);
    }

    /** All chunks of a write with a counter whose value is t, up to the first one that fails. */
    method WriteChunks(ctr: array<u32>, start: nat, count: nat, inbuf: array<Block>,
                       ghost f: Step<Block>, ghost t: Block, ghost card: seq<Block>)
      returns (result: int, ghost done: nat)
      requires Valid() && ctr.Length == 4 && inbuf != buffer && inbuf != nand.blocks && inbuf.Length == 32 * count
      requires 32 * (start + count) <= nand.blocks.Length
      requires f == StepOf(cipher, Ctr) && Value(ctr[..], MEMORY) == t && card == nand.blocks[..]
      modifies engine, ctr, buffer, nand.blocks
      ensures result == 0 <==> Sound(nand.faulty, start, count)
      ensures done <= count && (result == 0 ==> done == count)
      ensures result != 0 ==> StoppedAt(nand.faulty, start, count, done)
      ensures Written(card, nand.blocks[..], 32 * start, Out(f, t, inbuf[..]), 32 * done)
    {
      hide StepOf, Value;
      ghost var data, ys := inbuf[..], Out(f, t, inbuf[..]);
      assert (ctr as object) != nand.blocks;
      result, done := 0, 0;
      var at := 0;
      while at < count && result == 0
        invariant at <= count && done <= count && (result == 0 ==> done == at && (at == count || at % 0x20 == 0))
        invariant result != 0 ==> StoppedAt(nand.faulty, start, count, done)
        invariant result == 0 <==> Sound(nand.faulty, start, at)
        invariant inbuf[..] == data && Value(ctr[..], MEMORY) == ChainAt(f, t, data, 32 * at)
        invariant Written(card, nand.blocks[..], 32 * start, ys, 32 * done)
        decreases count - at
      {
        var n := if CHUNK_SECTORS < count - at then CHUNK_SECTORS else count - at;
        FillBuffer(ctr, inbuf, 32 * at, 32 * n, f, t, data, ys);
        assert Value(ctr[..], MEMORY) == ChainAt(f, t, data, 32 * (at + n));
        SoundSplits(nand.faulty, start, at, n);
        result := nand.Store(start + at, n, 32 * at, buffer, card, 32 * start, ys);
        at := at + n;
        done := if result == 0 then at else done;
      }
    }

    /** Sectors are numbered within the partition; all that is written is the encryption of the
        data in one go, up to the first chunk that fails. */
    method Write(sector: nat, count: nat, inbuf: array<Block>) returns (result: int, ghost done: nat)
      requires Valid() && inbuf != buffer && inbuf != nand.blocks && inbuf.Length == 32 * count
      requires sector + fatStart + count < 0x1_0000_0000 && 32 * (sector + fatStart + count) <= nand.blocks.Length
      modifies engine, buffer, nand.blocks
      ensures result == 0 <==> Sound(nand.faulty, sector + fatStart, count)
      ensures done <= count && (result == 0 ==> done == count)
      ensures result != 0 ==>
        done % 0x20 == 0 && done < count && !Sound(nand.faulty, sector + fatStart + done, Min(0x20, count - done))
      ensures Written(old(nand.blocks[..]), nand.blocks[..], 32 * (sector + fatStart),
                      Crypt(cipher, old(Value(nandCtr[..], MEMORY)), sector + fatStart, inbuf[..]), 32 * done)
    {
      hide Value, StepOf, Out, Sound, Written;
      var ctr := StartCounter(sector + fatStart);
      result, done := WriteChunks(ctr, sector + fatStart, count, inbuf, StepOf(cipher, Ctr),
                                  Value(ctr[..], MEMORY), nand.blocks[..]);
    }

    /** Where a sector of the partition lies, and on which card. */
    function Source(): Card {
      if sysNand then nand else sd
    }

    function SourceSector(sector: nat): nat
      reads this
    {
      sector + fatStart + if sysNand then 0 else emuOffset
    }

    /** Transfer and decrypt in place with a counter whose value is v. */
    method ReadWith(ctr: array<u32>, at: nat, count: nat, out: array<Block>,
                    ghost f: Step<Block>, ghost v: Block) returns (result: int)
      requires Valid() && ctr.Length == 4 && out.Length == 32 * count && out != Source().blocks
      requires 32 * (at + count) <= Source().blocks.Length
      requires f == StepOf(cipher, Ctr) && v == Value(ctr[..], MEMORY)
      modifies engine, out, ctr
      ensures result == 0 <==> Sound(Source().faulty, at, count)
      ensures result == 0 ==> out[..] == Out(f, v, Sectors(Source().blocks[..], at, count))
    {
      ghost var stored := Sectors(Source().blocks[..], at, count);
      WholeOverwritten(out[..], stored);
      result := Source().ReadSectors(at, count, out);
      ghost var raw := out[..];
      assert raw == raw[..out.Length];
      CryptFront(engine, cipher, out, out.Length, ctr, f, v, raw);
      assert out[..] == out[..][..out.Length];
    }

    /** The sectors as stored, decrypted in place in the caller's buffer. The counter does not
        depend on which card holds the partition. */
    method Read(sector: nat, count: nat, out: array<Block>) returns (result: int)
      requires Valid() && out.Length == 32 * count && out != Source().blocks
      requires SourceSector(sector) + count < 0x1_0000_0000
      requires 32 * (SourceSector(sector) + count) <= Source().blocks.Length
      modifies engine, out
      ensures var card := if sysNand then nand else sd;
        var at := sector + fatStart + if sysNand then 0 else emuOffset;
        && (result == 0 <==> Sound(card.faulty, at, count))
        && (result == 0 ==> out[..] == Crypt(cipher, old(Value(nandCtr[..], MEMORY)), sector + fatStart,
                                             Sectors(card.blocks[..], at, count)))
    {
      hide Value, StepOf, Out, Sound;
      var ctr := StartCounter(sector + fatStart);
      result := ReadWith(ctr, SourceSector(sector), count, out, StepOf(cipher, Ctr), Value(ctr[..], MEMORY));
    }

    /** Data written to SysNAND and read back, into any buffer, is the data. */
    method WriteThenRead(sector: nat, count: nat, inbuf: array<Block>, out: array<Block>) returns (result: int)
      requires Valid() && sysNand && inbuf != buffer && inbuf != nand.blocks && out != nand.blocks
      requires inbuf.Length == out.Length == 32 * count
      requires sector + fatStart + count < 0x1_0000_0000 && 32 * (sector + fatStart + count) <= nand.blocks.Length
      modifies engine, buffer, nand.blocks, out
      ensures result == 0 <==> Sound(nand.faulty, sector + fatStart, count)
      ensures result == 0 ==> out[..] == old(inbuf[..])
    {
      hide Value, StepOf, Out, Sound, Written, Crypt, Sectors;
      ghost var base, card, data := Value(nandCtr[..], MEMORY), nand.blocks[..], inbuf[..];
      assert (nandCtr as object) != nand.blocks && (nandCtr as object) != buffer;
      ghost var done;
      result, done := Write(sector, count, inbuf);
      if result != 0 { return; }
      AllWritten(card, nand.blocks[..], 32 * (sector + fatStart), Crypt(cipher, base, sector + fatStart, data));
      ReadAfterWrite(cipher, base, card, sector + fatStart, count, data);
      result := Read(sector, count, out);
    }
  }
}
