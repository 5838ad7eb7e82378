/** The argument block of arm9/source/deliver_arg.c that the boot loader hands to its own next
    run across a reboot, sealed with a checksum in CTR mode. */
module DeliverArg {
  import opened Machine
  import opened Crc
  import opened LegacyBlock

  const PATTERN_AT: nat := 0x438
  const CRC_AT: nat := 0x43C
  const COVERED_FROM: nat := 0x400
  const COVERED_TO: nat := 0x540

  // ----- words in the image -----

  function ByteOf(w: bv32, k: nat): bv8
    requires k < 4
  {
    match k
    case 0 => (w & 0xFF) as bv8
    case 1 => ((w >> 8) & 0xFF) as bv8
    case 2 => ((w >> 16) & 0xFF) as bv8
    case _ => ((w >> 24) & 0xFF) as bv8
  }

  function Join(b0: bv8, b1: bv8, b2: bv8, b3: bv8): bv32 {
    b0 as bv32 | (b1 as bv32 << 8) | (b2 as bv32 << 16) | (b3 as bv32 << 24)
  }

  lemma JoinOfBytes(w: bv32)
    ensures Join(ByteOf(w, 0), ByteOf(w, 1), ByteOf(w, 2), ByteOf(w, 3)) == w
  {
  }

  lemma JoinInjective(a0: bv8, a1: bv8, a2: bv8, a3: bv8, b0: bv8, b1: bv8, b2: bv8, b3: bv8)
    requires Join(a0, a1, a2, a3) == Join(b0, b1, b2, b3)
    ensures a0 == b0 && a1 == b1 && a2 == b2 && a3 == b3
  {
  }

  function GetWord(s: seq<bv8>, i: nat): bv32
    requires i + 4 <= |s|
  {
    Join(s[i], s[i + 1], s[i + 2], s[i + 3])
  }

  function PutWord(s: seq<bv8>, i: nat, w: bv32): (r: seq<bv8>)
    requires i + 4 <= |s|
    ensures |r| == |s|
    ensures forall k :: 0 <= k < |s| && !(i <= k < i + 4) ==> r[k] == s[k]
  {
    s[i := ByteOf(w, 0)][i + 1 := ByteOf(w, 1)][i + 2 := ByteOf(w, 2)][i + 3 := ByteOf(w, 3)]
  }

  lemma GetPut(s: seq<bv8>, i: nat, w: bv32)
    requires i + 4 <= |s|
    ensures GetWord(PutWord(s, i, w), i) == w
  {
    hide ByteOf, Join;
    JoinOfBytes(w);
  }

  /** Two stores at the same place: the second one wins. */
  lemma PutPut(s: seq<bv8>, i: nat, v: bv32, w: bv32)
    requires i + 4 <= |s|
    ensures PutWord(PutWord(s, i, v), i, w) == PutWord(s, i, w)
  {
    hide ByteOf;
  }

  /** Storing the word that is already there changes nothing. */
  lemma PutGet(s: seq<bv8>, i: nat)
    requires i + 4 <= |s|
    ensures PutWord(s, i, GetWord(s, i)) == s
  {
    hide ByteOf, Join;
    var w := GetWord(s, i);
    JoinOfBytes(w);
    JoinInjective(ByteOf(w, 0), ByteOf(w, 1), ByteOf(w, 2), ByteOf(w, 3), s[i], s[i + 1], s[i + 2], s[i + 3]);
  }

  // ----- sealing and checking -----

  /** The checksum of the covered range, taken with the checksum field cleared. */
  function Covered(image: Image): (r: seq<bv8>)
    ensures |r| == COVERED_TO - COVERED_FROM
  {
    PutWord(image, CRC_AT, 0)[COVERED_FROM..COVERED_TO]
  }

  function Checksum(image: Image): bv32 {
    !Remainder(CRC32, 0xFFFF_FFFF, Covered(image))
  }

  predicate Accepted(image: Image) {
    GetWord(image, PATTERN_AT) == 0xFFFF && GetWord(image, CRC_AT) == Checksum(image)
  }

  function Marked(image: Image): Image {
    PutWord(image, PATTERN_AT, 0xFFFF)
  }

  function Sealed(image: Image): Image {
    PutWord(Marked(image), CRC_AT, Checksum(Marked(image)))
  }

  /** What a fresh run finds, given the boot register and the block in memory: nothing after a
      cold boot, a sealed block in CTR mode, which is mode 0, and a legacy one in other modes. */
  function Found(bootenv: u32, memory: Image): Image {
    if bootenv % 2 == 0 then Zero(SIZE)
    else if bootenv / 2 == 0 then (if Accepted(memory) then memory else Zero(SIZE))
    else FoundLegacy(memory)
  }

  /** What a run stores, given its block: memory in CTR mode or after a cold boot holds the
      sealed block, in other modes the legacy part of the block as it is. */
  function Stored(bootenv: u32, memory: Image, block: Image): Image {
    if bootenv % 2 == 0 || bootenv / 2 == 0 then Sealed(block) else ToLegacy(memory, block)
  }

  /** The boot register after a commit. */
  function NextBoot(bootenv: u32): u32 {
    if bootenv % 2 == 0 then 1 else bootenv
  }

  lemma ChecksumIgnoresField(image: Image, w: bv32)
    ensures Checksum(PutWord(image, CRC_AT, w)) == Checksum(image)
  {
    hide Remainder, PutWord;
    PutPut(image, CRC_AT, w, 0);
  }

  /** A sealed block is accepted, and sealing changes only the pattern and checksum words. */
  lemma SealedIsAccepted(image: Image)
    ensures Accepted(Sealed(image))
    ensures forall k :: 0 <= k < SIZE && !(0x438 <= k < 0x440) ==> Sealed(image)[k] == image[k]
  {
    hide Checksum, ByteOf, Join;
    var m := Marked(image);
    GetPut(image, PATTERN_AT, 0xFFFF);
    GetPut(m, CRC_AT, Checksum(m));
    ChecksumIgnoresField(m, Checksum(m));
  }

  /** The words of a sealed block: the pattern at 0x438, and at 0x43C the checksum of the bytes
      from 0x400 to 0x540, in which it stands itself as zero. */
  lemma SealedWords(image: Image)
    ensures GetWord(Sealed(image), 0x438) == 0xFFFF
    ensures GetWord(Sealed(image), 0x43C) ==
      !Remainder(CRC32, 0xFFFF_FFFF, PutWord(PutWord(image, 0x438, 0xFFFF), 0x43C, 0)[0x400..0x540])
  {
    hide ByteOf, Join, Remainder;
    var m := Marked(image);
    GetPut(image, PATTERN_AT, 0xFFFF);
    GetPut(m, CRC_AT, Checksum(m));
  }

  /** What one run commits, the run after the reboot finds. */
  lemma RebootKeepsBlock(image: Image)
    ensures Found(1, Sealed(image)) == Sealed(image)
  {
    hide Sealed, Accepted;
    SealedIsAccepted(image);
  }

  /** In every mode: the next run finds the block committed, sealed in CTR mode. In a legacy mode
      it does so if and only if the block is clean. */
  lemma NextRunFinds(bootenv: u32, memory: Image, block: Image)
    ensures var committed := if NextBoot(bootenv) == 1 then Sealed(block) else block;
      Found(NextBoot(bootenv), Stored(bootenv, memory, block)) == committed <==>
        NextBoot(bootenv) == 1 || Clean(block)
  {
    hide Sealed, Clean, ToLegacy, FoundLegacy, Zero, Accepted;
    RebootKeepsBlock(block);
    LegacyRoundTrip(memory, block);
  }

  /** So a block that was found and not edited is found by every later run. */
  lemma FoundIsKept(bootenv: u32, memory: Image, before: Image)
    requires bootenv % 2 == 1
    ensures var block := Found(bootenv, before);
      (Accepted(block) || bootenv != 1) ==> Found(bootenv, Stored(bootenv, memory, block)) == block
  {
    hide Sealed, Clean, ToLegacy, FoundLegacy, Zero, Accepted;
    var block := Found(bootenv, before);
    NextRunFinds(bootenv, memory, block);
    FoundIsClean(before);
    if Accepted(block) { SealedTwice(block); }
  }

  /** Committing what was found and not edited stores the same block. */
  lemma SealedTwice(image: Image)
    requires Accepted(image)
    ensures Sealed(image) == image
  {
    hide Checksum, ByteOf, Join;
    PutGet(image, PATTERN_AT);
    PutGet(image, CRC_AT);
  }

  lemma ClearedElsewhere(image: Image, i: nat, v: bv8)
    requires i < SIZE && !(CRC_AT <= i < CRC_AT + 4)
    ensures PutWord(image[i := v], CRC_AT, 0) == PutWord(image, CRC_AT, 0)[i := v]
  {
    hide ByteOf;
  }

  lemma ClearedInField(image: Image, i: nat, v: bv8)
    requires CRC_AT <= i < CRC_AT + 4
    ensures PutWord(image[i := v], CRC_AT, 0) == PutWord(image, CRC_AT, 0)
    ensures v != image[i] ==> GetWord(image[i := v], CRC_AT) != GetWord(image, CRC_AT)
  {
    hide ByteOf, Join;
    var t := image[i := v];
    if GetWord(t, CRC_AT) == GetWord(image, CRC_AT) {
      JoinInjective(t[CRC_AT], t[CRC_AT + 1], t[CRC_AT + 2], t[CRC_AT + 3],
        image[CRC_AT], image[CRC_AT + 1], image[CRC_AT + 2], image[CRC_AT + 3]);
      assert t[i] == v;
    }
  }

  lemma CoveredChange(image: Image, i: nat, v: bv8)
    requires COVERED_FROM <= i < COVERED_TO && !(CRC_AT <= i < CRC_AT + 4)
    ensures Covered(image)[i - COVERED_FROM] == image[i]
    ensures Covered(image[i := v]) == Covered(image)[i - COVERED_FROM := v]
  {
    hide PutWord;
    ClearedElsewhere(image, i, v);
  }

  lemma UncoveredChange(image: Image, i: nat, v: bv8)
    requires i < SIZE && !(COVERED_FROM <= i < COVERED_TO)
    ensures Checksum(image[i := v]) == Checksum(image)
  {
    hide PutWord, Remainder;
    ClearedElsewhere(image, i, v);
    assert Covered(image[i := v]) == Covered(image);
  }

  lemma CoveredDamage(image: Image, i: nat, v: bv8)
    requires COVERED_FROM <= i < COVERED_TO && !(CRC_AT <= i < CRC_AT + 4) && v != image[i]
    ensures Checksum(image[i := v]) != Checksum(image)
  {
    hide PutWord, Remainder, Register, Covered;
    var c := Covered(image);
    CoveredChange(image, i, v);
    InitialRegister();
    ByteChangeDetected(CRC32, 0xFFFF_FFFF, c, i - COVERED_FROM, v);
    ComplementInjective(Remainder(CRC32, 0xFFFF_FFFF, c), Remainder(CRC32, 0xFFFF_FFFF, Covered(image[i := v])));
  }

  lemma InitialRegister()
    ensures Register(CRC32, 0xFFFF_FFFF)
  {
  }

  /** A damaged byte makes the next run start from an all-zero block if and only if it lies in
      the covered range; the rest of the block is not protected. */
  lemma DamageDetected(image: Image, i: nat, v: bv8)
    requires Accepted(image) && i < SIZE && v != image[i]
    ensures Found(1, image[i := v]) == if 0x400 <= i < 0x540 then Zero(0x1000) else image[i := v]
  {
    hide Checksum, Join, ByteOf, Zero;
    if CRC_AT <= i < CRC_AT + 4 {
      FieldDamage(image, i, v);
    } else if COVERED_FROM <= i < COVERED_TO {
      CoveredDamage(image, i, v);
    } else {
      UncoveredChange(image, i, v);
    }
  }

  lemma FieldDamage(image: Image, i: nat, v: bv8)
    requires CRC_AT <= i < CRC_AT + 4 && v != image[i]
    ensures Checksum(image[i := v]) == Checksum(image)
    ensures GetWord(image[i := v], CRC_AT) != GetWord(image, CRC_AT)
  {
    hide Remainder, PutWord, GetWord;
    ClearedInField(image, i, v);
  }

  lemma ComplementInjective(a: bv32, b: bv32)
    ensures !a == !b <==> a == b
  {
    assert !a == Xor(a, 0xFFFF_FFFF) && !b == Xor(b, 0xFFFF_FFFF);
    XorCancels(a, b, 0xFFFF_FFFF);
  }

  // ----- the routines -----

  /** What survives a reboot: the boot register and the block at 0x20000000. */
  class Persistent {
    var bootenv: u32
    const memory: array<bv8>

    constructor (bootenv: u32)
      ensures this.bootenv == bootenv && memory.Length == SIZE && fresh(memory)
    {
      this.bootenv, memory := bootenv, new bv8[SIZE];
    }
  }

  method StoreWord(a: array<bv8>, i: nat, w: bv32)
    requires i + 4 <= a.Length
    modifies a
    ensures a[..] == PutWord(old(a[..]), i, w)
  {
    hide ByteOf;
    a[i], a[i + 1], a[i + 2], a[i + 3] := ByteOf(w, 0), ByteOf(w, 1), ByteOf(w, 2), ByteOf(w, 3);
  }

  method Clear(a: array<bv8>, from: nat, to: nat)
    requires from <= to <= a.Length
    modifies a
    ensures a[..] == old(a[..from]) + Zero(to - from) + old(a[to..])
  {
    forall i | from <= i < to { a[i] := 0; }
  }

  method Copy(to: array<bv8>, source: array<bv8>)
    requires to.Length == source.Length && to != source
    modifies to
    ensures to[..] == source[..]
  {
    forall i | 0 <= i < source.Length { to[i] := source[i]; }
  }

  /** The static variables of one run. */
  class Run {
    const block: array<bv8>
    var loaded: bool
    const table: Table
    const table16: Table

    constructor ()
      ensures Valid() && !loaded && fresh(block) && fresh(table) && fresh(table.lut)
      ensures fresh(table16) && fresh(table16.lut)
    {
      block, loaded := new bv8[SIZE](_ => 0), false;
      table := new Table(CRC32);
      table16 := new Table(CRC16);
    }

    /** The block is zero until it has been loaded. */
    ghost predicate Valid()
      reads this, block, table, table.lut, table16, table16.lut
    {
      && Ready() && (!loaded ==> block[..] == Zero(SIZE))
    }

    /** The tables of the two checksum routines are separate. */
    ghost predicate Ready()
      reads this, table, table.lut, table16, table16.lut
    {
      && block.Length == SIZE && table.Valid() && table.poly == CRC32
      && table16.Valid() && table16.poly == CRC16 && table.lut != table16.lut
    }

    /** The block as this run sees it. */
    ghost function Current(p: Persistent): Image
      requires Valid() && p.memory.Length == SIZE && p.memory != block
      reads this, block, table, table.lut, table16, table16.lut, p, p.memory
    {
      if loaded then block[..] else Found(p.bootenv, p.memory[..])
    }

    /** Clears the checksum field and returns the checksum of the rest. */
    method ComputeChecksum(ghost image: Image) returns (crc: bv32)
      requires Ready() && block[..] == image
      modifies block, table`initialized, table.lut
      ensures Ready() && block[..] == PutWord(image, CRC_AT, 0) && crc == Checksum(image)
    {
      hide Remainder, PutWord, Register;
      StoreWord(block, CRC_AT, 0);
      assert block[COVERED_FROM..COVERED_TO] == block[..][COVERED_FROM..COVERED_TO];
      crc := Crc32(table, block[COVERED_FROM..COVERED_TO], 0xFFFF_FFFF);
    }

    /** Whether the block was sealed; the block itself is put back as it was. */
    method Validate(ghost image: Image) returns (ok: bool)
      requires Ready() && block[..] == image
      modifies block, table`initialized, table.lut
      ensures Ready() && block[..] == image && ok == Accepted(image)
    {
      hide Checksum, PutWord, Join;
      var testPattern := GetWord(block[..], PATTERN_AT);
      var crc := GetWord(block[..], CRC_AT);
      var expectedCrc := ComputeChecksum(image);
      StoreWord(block, CRC_AT, crc);
      PutPut(image, CRC_AT, 0, crc);
      PutGet(image, CRC_AT);
      ok := testPattern == 0xFFFF && crc == expectedCrc;
    }

    method Seal(ghost image: Image)
      requires Ready() && block[..] == image
      modifies block, table`initialized, table.lut
      ensures Ready() && block[..] == Sealed(image)
    {
      hide Checksum, PutWord, Join;
      StoreWord(block, PATTERN_AT, 0xFFFF);
      var crc := ComputeChecksum(Marked(image));
      ChecksumIgnoresField(Marked(image), 0);
      StoreWord(block, CRC_AT, crc);
      PutPut(Marked(image), CRC_AT, 0, crc);
    }

    method LoadSealed(p: Persistent)
      requires Ready() && p.memory.Length == SIZE && p.memory != block
      modifies block, table`initialized, table.lut
      ensures Ready()
      ensures block[..] == Found(1, p.memory[..])
    {
      hide Accepted, Zero;
      Copy(block, p.memory);
      var ok := Validate(block[..]);
      if !ok { Clear(block, 0, SIZE); }
    }

    /** The check of the launcher block, on a buffer that is zero behind the legacy part. */
    method ValidateTlnc(ghost t: seq<bv8>) returns (ok: bool)
      requires Ready() && |t| == LEGACY && block[..] == t + Zero(SIZE - LEGACY)
      modifies table16`initialized, table16.lut
      ensures Ready() && ok == TlncAccepted(t)
    {
      hide Halfword, Remainder, Zero;
      var hasMagic := block[TLNC_AT..TLNC_AT + 4] == MAGIC;
      var crcLen, crc := block[TLNC_AT + 5], Halfword(block[..], TLNC_AT + 6);
      var data := block[TLNC_AT + 8..TLNC_AT + 8 + crcLen as int];
      assert data == TlncData(t) && block[TLNC_AT..TLNC_AT + 4] == t[TLNC_AT..TLNC_AT + 4];
      assert Halfword(block[..], TLNC_AT + 6) == Halfword(t, TLNC_AT + 6) by {
        HalfwordInFront(t, Zero(SIZE - LEGACY), TLNC_AT + 6);
      }
      var expected := Crc16(table16, data, 0xFFFF);
      ok := hasMagic && crcLen > 248 && crc == expected;
    }

    method LoadLegacy(p: Persistent)
      requires Ready() && p.memory.Length == SIZE && p.memory != block && block[..] == Zero(SIZE)
      modifies block, table16`initialized, table16.lut
      ensures Ready()
      ensures block[..] == FoundLegacy(p.memory[..])
    {
      hide TlncAccepted, FromLegacy;
      CopyFromLegacyModeFcram(block, p.memory);
      ghost var t := FromLegacy(p.memory[..]);
      var ok := ValidateTlnc(t);
      if !ok { Clear(block, TLNC_AT, LEGACY); }
      Clear(block, LEGACY, SIZE);
    }

    method Load(p: Persistent)
      requires Valid() && p.memory.Length == SIZE && p.memory != block
      modifies block, this`loaded, table`initialized, table.lut, table16`initialized, table16.lut
      ensures Valid() && p.memory.Length == SIZE && p.memory != block && loaded
      ensures block[..] == old(Current(p))
    {
      hide Accepted, Zero, FoundLegacy;
      if !loaded {
        if p.bootenv % 2 == 0 {
          Clear(block, 0, SIZE);
        } else if p.bootenv / 2 == 0 {
          LoadSealed(p);
        } else {
          LoadLegacy(p);
        }
        loaded := true;
      }
    }

    /** Everything a commit changes: the run's block is sealed, except in a legacy mode, and
        what is stored is what the next run finds as far as the mode allows. */
    method Commit(p: Persistent)
      requires Valid() && p.memory.Length == SIZE && p.memory != block
      modifies block, this`loaded, table`initialized, table.lut, table16`initialized, table16.lut, p`bootenv, p.memory
      ensures Valid() && p.memory.Length == SIZE && p.memory != block && loaded
      ensures p.bootenv == NextBoot(old(p.bootenv))
      ensures block[..] == if p.bootenv == 1 then Sealed(old(Current(p))) else old(Current(p))
      ensures p.memory[..] == Stored(old(p.bootenv), old(p.memory[..]), old(Current(p)))
      ensures Found(p.bootenv, p.memory[..]) == block[..] <==> p.bootenv == 1 || Clean(block[..])
    {
      hide Accepted, Sealed, Clean, ToLegacy, FoundLegacy, Zero;
      ghost var memory, bootenv := p.memory[..], p.bootenv;
      Load(p);
      ghost var image: Image := block[..];
      if p.bootenv % 2 == 0 { p.bootenv := 1; }
      if p.bootenv / 2 == 0 {
        Seal(image);
        Copy(p.memory, block);
      } else {
        CopyToLegacyModeFcram(p.memory, block);
      }
      NextRunFinds(bootenv, memory, image);
    }
  }

  lemma HalfwordInFront(t: seq<bv8>, rest: seq<bv8>, i: nat)
    requires i + 2 <= |t|
    ensures Halfword(t + rest, i) == Halfword(t, i)
  {
  }
}
