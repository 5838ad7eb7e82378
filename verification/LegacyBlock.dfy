/** The argument block in the reboot modes of the older console: it is kept in every fourth
    halfword of memory, and carries a launcher block with a checksum of its own. */
module LegacyBlock {
  import opened Crc

  const SIZE: nat := 0x1000
  const LEGACY: nat := 0x400
  const TLNC_AT: nat := 0x300
  const MAGIC: seq<bv8> := [0x54, 0x4C, 0x4E, 0x43]

  type Image = s: seq<bv8> | |s| == SIZE witness Zero(SIZE)

  function Zero(n: nat): (z: seq<bv8>)
    ensures |z| == n
  {
    seq(n, _ => 0)
  }

  // ----- the bytes in memory -----

  function FromLegacy(memory: Image): (t: seq<bv8>)
    ensures |t| == LEGACY
  {
    seq(LEGACY, k requires 0 <= k < LEGACY => memory[8 * (k / 2) + k % 2])
  }

  function ToLegacy(memory: Image, block: Image): Image {
    seq(SIZE, j requires 0 <= j < SIZE => if j % 8 < 2 then block[2 * (j / 8) + j % 8] else memory[j])
  }

  lemma LegacyBytes(memory: Image, block: Image)
    ensures FromLegacy(ToLegacy(memory, block)) == block[..LEGACY]
  {
    var m := ToLegacy(memory, block);
    forall k | 0 <= k < LEGACY ensures m[8 * (k / 2) + k % 2] == block[k] {
      var j := 8 * (k / 2) + k % 2;
      assert j / 8 == k / 2 && j % 8 == k % 2;
    }
  }

  method CopyFromLegacyModeFcram(dst: array<bv8>, src: array<bv8>)
    requires dst.Length == src.Length == SIZE && dst != src
    modifies dst
    ensures dst[..] == FromLegacy(src[..]) + old(dst[LEGACY..])
  {
    for i := 0 to LEGACY / 2
      invariant forall k :: 0 <= k < 2 * i ==> dst[k] == src[8 * (k / 2) + k % 2]
      invariant forall k :: 2 * i <= k < SIZE ==> dst[k] == old(dst[k])
    {
      dst[2 * i], dst[2 * i + 1] := src[8 * i], src[8 * i + 1];
      assert 8 * (2 * i / 2) + 2 * i % 2 == 8 * i && 8 * ((2 * i + 1) / 2) + (2 * i + 1) % 2 == 8 * i + 1;
    }
    assert dst[..] == dst[..LEGACY] + dst[LEGACY..] && dst[..LEGACY] == FromLegacy(src[..]);
  }

  method CopyToLegacyModeFcram(dst: array<bv8>, src: array<bv8>)
    requires dst.Length == src.Length == SIZE && dst != src
    modifies dst
    ensures dst[..] == ToLegacy(old(dst[..]), src[..])
  {
    for i := 0 to LEGACY / 2
      invariant forall j :: 0 <= j < SIZE ==>
        dst[j] == if j % 8 < 2 && j < 8 * i then src[2 * (j / 8) + j % 8] else old(dst[j])
    {
      dst[8 * i], dst[8 * i + 1] := src[2 * i], src[2 * i + 1];
      assert 8 * i / 8 == i == (8 * i + 1) / 8 && 8 * i % 8 == 0 && (8 * i + 1) % 8 == 1;
    }
  }

  // ----- the launcher block -----

  /** The bytes that the launcher block's checksum is taken over: as many as its length field
      says, also past the end of the block, where the buffer still is zero. */
  function TlncData(t: seq<bv8>): (d: seq<bv8>)
    requires |t| == LEGACY
  {
    (t + Zero(SIZE - LEGACY))[TLNC_AT + 8..TLNC_AT + 8 + t[TLNC_AT + 5] as int]
  }

  function Halfword(s: seq<bv8>, i: nat): bv32
    requires i + 2 <= |s|
  {
    s[i] as bv32 | (s[i + 1] as bv32 << 8)
  }

  lemma HalfwordIs(s: seq<bv8>, i: nat)
    requires i + 2 <= |s|
    ensures Halfword(s, i) as int == s[i] as int + 0x100 * s[i + 1] as int
  {
    TwoBytes(s[i], s[i + 1]);
  }

  lemma TwoBytes(low: bv8, high: bv8)
    ensures (low as bv32 | (high as bv32 << 8)) as int == low as int + 0x100 * high as int
  {
  }

  predicate TlncAccepted(t: seq<bv8>)
    requires |t| == LEGACY
  {
    && t[TLNC_AT..TLNC_AT + 4] == MAGIC && t[TLNC_AT + 5] > 248
    && Halfword(t, TLNC_AT + 6) == Remainder(CRC16, 0xFFFF, TlncData(t))
  }

  /** What a run finds in memory. */
  function FoundLegacy(memory: Image): Image {
    var t := FromLegacy(memory);
    (if TlncAccepted(t) then t else t[..TLNC_AT] + Zero(LEGACY - TLNC_AT)) + Zero(SIZE - LEGACY)
  }

  /** Nothing lies behind the legacy part, and the launcher block is accepted or empty. */
  predicate Clean(block: Image) {
    && block[LEGACY..] == Zero(SIZE - LEGACY)
    && (TlncAccepted(block[..LEGACY]) || block[TLNC_AT..LEGACY] == Zero(LEGACY - TLNC_AT))
  }

  /** A stored block is found again by the next run if and only if it is clean. */
  lemma LegacyRoundTrip(memory: Image, block: Image)
    ensures FoundLegacy(ToLegacy(memory, block)) == block <==> Clean(block)
  {
    hide TlncAccepted, ToLegacy, FromLegacy, Zero;
    LegacyBytes(memory, block);
    var t, found := block[..LEGACY], FoundLegacy(ToLegacy(memory, block));
    assert block == t + block[LEGACY..] && t == t[..TLNC_AT] + t[TLNC_AT..] && t[TLNC_AT..] == block[TLNC_AT..LEGACY];
    assert found[LEGACY..] == Zero(SIZE - LEGACY);
    assert found[..LEGACY] == if TlncAccepted(t) then t else t[..TLNC_AT] + Zero(LEGACY - TLNC_AT);
    if !TlncAccepted(t) { assert found[TLNC_AT..LEGACY] == Zero(LEGACY - TLNC_AT); }
  }

  /** Every block that is found is clean: committing it unchanged keeps it for all later runs. */
  lemma FoundIsClean(memory: Image)
    ensures Clean(FoundLegacy(memory))
  {
    hide TlncAccepted, FromLegacy, Zero;
    var t, found := FromLegacy(memory), FoundLegacy(memory);
    assert found[LEGACY..] == Zero(SIZE - LEGACY);
    if TlncAccepted(t) {
      assert found[..LEGACY] == t;
    } else {
      assert found[TLNC_AT..LEGACY] == Zero(LEGACY - TLNC_AT);
    }
  }

  /** The length check is the wrong way round: a launcher block survives only if its length
      field points past its end, so that its checksum also covers some of the zeros there. */
  lemma OnlyLongBlocksSurvive(memory: Image)
    ensures var found := FoundLegacy(memory);
      var length := found[0x305];
      found[0x300..0x400] == Zero(0x100)
      || (found[0x300..0x304] == [0x54, 0x4C, 0x4E, 0x43] && length > 248
          && TlncData(found[..0x400]) == found[0x308..0x400] + Zero(length as int - 248))
  {
    hide FromLegacy;
    FoundIsClean(memory);
  }
}
