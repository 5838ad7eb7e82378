/** Firmware images: the check of arm9/source/firm.c and the launch of
    arm9/source/chainloader.c. */
module Firm {
  import opened Machine

  const MEMORY: nat := 0x1_0000_0000
  const IMAGE: nat := 0x2000_1000

  type Memory = s: seq<u8> | |s| == MEMORY witness seq(MEMORY, _ => 0)

  datatype Section = Section(offset: u32, address: u32, size: u32, hash: seq<u8>)

  datatype Header = Header(magic: seq<u8>, arm11Entry: u32, arm9Entry: u32, section: seq<Section>)

  type Image = h: Header | |h.section| == 4 witness Header([], 0, 0, seq(4, _ => Section(0, 0, 0, [])))

  function SectionAt(mem: Memory, i: nat): Section
    requires i < 4
  {
    var at := IMAGE + 0x40 + 0x30 * i;
    Section(LoadWord(mem, at), LoadWord(mem, at + 4), LoadWord(mem, at + 8), mem[at + 0x10..at + 0x30])
  }

  /** The header at the start of the image. */
  function HeaderOf(mem: Memory): Image {
    Header(mem[IMAGE..IMAGE + 4], LoadWord(mem, IMAGE + 8), LoadWord(mem, IMAGE + 12),
      [SectionAt(mem, 0), SectionAt(mem, 1), SectionAt(mem, 2), SectionAt(mem, 3)])
  }

  // ----- the checks, as the code makes them -----

  predicate Overlaps(a: u32, ae: u32, b: u32, be: u32) {
    (a <= b && b <= ae) || (b <= a && a <= be)
  }

  predicate InRange(a: u32, ae: u32, b: u32, be: u32) {
    a >= b && ae <= be
  }

  predicate InSomeWindow(a: u32, ae: u32) {
    || InRange(a, ae, 0x0800_0000, 0x0810_0000)
    || InRange(a, ae, 0x1800_0000, 0x1860_0000)
    || InRange(a, ae, 0x1FF0_0000, 0x1FFF_FC00)
    || InRange(a, ae, 0x2000_0000, 0x2800_0000)
  }

  // ----- the meaning of acceptance, in unbounded arithmetic -----

  function SizeBefore(h: Image, n: nat): nat
    requires n <= 4
  {
    if n == 0 then 0x200 else SizeBefore(h, n - 1) + h.section[n - 1].size
  }

  /** Header and sections together. */
  function TotalSize(h: Image): nat {
    SizeBefore(h, 4)
  }

  predicate Within(a: nat, size: nat, first: nat, end: nat) {
    first <= a && a + size <= end
  }

  predicate Placed(s: Section) {
    || Within(s.address, s.size, 0x0800_0000, 0x0800_0000 + 0x10_0000)
    || Within(s.address, s.size, 0x1800_0000, 0x1800_0000 + 0x60_0000)
    || Within(s.address, s.size, 0x1FF0_0000, 0x1FFF_FC00)
    || Within(s.address, s.size, 0x2000_0000, 0x2000_0000 + 0x800_0000)
  }

  predicate Aligned(s: Section) {
    s.address % 4 == 0 && s.offset % 0x200 == 0 && s.size % 0x200 == 0
  }

  /** Not even touching the image. */
  predicate Apart(s: Section, total: nat) {
    s.address + s.size < IMAGE || IMAGE + total < s.address
  }

  predicate Contains(s: Section, entry: u32) {
    s.size != 0 && s.address <= entry < s.address + s.size
  }

  /** The bytes that a section's hash covers. */
  function Source(mem: Memory, s: Section): (r: seq<u8>)
    ensures |r| == s.size
  {
    seq(s.size, k requires 0 <= k < s.size => mem[Wrap(IMAGE + s.offset + k)])
  }

  predicate SectionOk(mem: Memory, s: Section, total: nat, sha: seq<u8> -> seq<u8>) {
    s.size == 0 ||
    (s.offset >= 0x200 && Aligned(s) && Placed(s) && Apart(s, total) && sha(Source(mem, s)) == s.hash)
  }

  predicate EntriesFound(h: Image) {
    && (exists i :: 0 <= i < 4 && Contains(h.section[i], h.arm9Entry))
    && (h.arm11Entry == 0 || exists i :: 0 <= i < 4 && Contains(h.section[i], h.arm11Entry))
  }

  predicate Acceptable(mem: Memory, h: Image, firmSize: u32, sha: seq<u8> -> seq<u8>) {
    && h.magic == ['F' as int, 'I' as int, 'R' as int, 'M' as int] && h.arm9Entry != 0
    && TotalSize(h) <= firmSize
    && (forall i :: 0 <= i < 4 ==> SectionOk(mem, h.section[i], TotalSize(h), sha))
    && EntriesFound(h)
  }

  /** Each entry point of an accepted image lies at a byte of a section that is not empty, in one
      of the four windows; only the one of the Arm11 may be missing. */
  lemma EntryLiesInSection(mem: Memory, h: Image, firmSize: u32, sha: seq<u8> -> seq<u8>, entry: u32)
    requires Acceptable(mem, h, firmSize, sha)
    requires entry == h.arm9Entry || (entry == h.arm11Entry && entry != 0)
    ensures entry != 0
    ensures exists i ::
      0 <= i < 4 && Placed(h.section[i]) && h.section[i].address <= entry < h.section[i].address + h.section[i].size
  {
    hide Apart, Aligned, Source, TotalSize;
    var i :| 0 <= i < 4 && Contains(h.section[i], entry);
    assert SectionOk(mem, h.section[i], TotalSize(h), sha);
  }

  // ----- 32-bit arithmetic against unbounded arithmetic -----

  /** The 32-bit tests on one section, given the 32-bit sum of all sizes. */
  predicate TestsPass(s: Section, size: u32) {
    var ae := Wrap(s.address + s.size);
    && s.offset >= 0x200
    && !(ae < s.address)
    && s.address % 4 == 0 && s.offset % 0x200 == 0 && s.size % 0x200 == 0
    && !Overlaps(s.address, ae, IMAGE, Wrap(IMAGE + size))
    && InSomeWindow(s.address, ae)
  }

  /** A section that passes the overflow and window tests does not wrap around, and is small. */
  lemma PlacedIsSmall(s: Section)
    ensures s.size != 0 ==>
      (Wrap(s.address + s.size) >= s.address && InSomeWindow(s.address, Wrap(s.address + s.size)) <==> Placed(s))
    ensures Placed(s) ==> s.size <= 0x800_0000 && Wrap(s.address + s.size) == s.address + s.size
  {
  }

  lemma TestsMean(s: Section, total: nat)
    requires s.size != 0 && total < 0x4000_0000
    ensures TestsPass(s, total) <==> s.offset >= 0x200 && Aligned(s) && Placed(s) && Apart(s, total)
  {
    hide InSomeWindow, Placed;
    PlacedIsSmall(s);
  }

  /** If every section is empty or placed, the 32-bit sum of the sizes is the real sum. */
  lemma {:induction false} SumDoesNotWrap(h: Image, n: nat)
    requires n <= 4 && forall i :: 0 <= i < n ==> h.section[i].size == 0 || Placed(h.section[i])
    ensures SizeBefore(h, n) <= 0x200 + n * 0x800_0000
  {
    hide Placed;
    if n > 0 {
      SumDoesNotWrap(h, n - 1);
      PlacedIsSmall(h.section[n - 1]);
    }
  }

  predicate SectionPasses(mem: Memory, s: Section, size: u32, sha: seq<u8> -> seq<u8>) {
    s.size == 0 || (TestsPass(s, size) && sha(Source(mem, s)) == s.hash)
  }

  /** The outcome of the code, in 32-bit arithmetic. */
  predicate CodeAccepts(mem: Memory, h: Image, firmSize: u32, sha: seq<u8> -> seq<u8>) {
    && h.magic == ['F' as int, 'I' as int, 'R' as int, 'M' as int] && h.arm9Entry != 0
    && Wrap(TotalSize(h)) <= firmSize
    && (forall i :: 0 <= i < 4 ==> SectionPasses(mem, h.section[i], Wrap(TotalSize(h)), sha))
    && EntriesFound(h)
  }

  lemma PassedIsPlaced(mem: Memory, s: Section, size: u32, sha: seq<u8> -> seq<u8>)
    requires SectionPasses(mem, s, size, sha)
    ensures s.size == 0 || Placed(s)
  {
    hide InSomeWindow, Placed, Source;
    PlacedIsSmall(s);
  }

  lemma OkIsPlaced(mem: Memory, s: Section, total: nat, sha: seq<u8> -> seq<u8>)
    requires SectionOk(mem, s, total, sha)
    ensures s.size == 0 || Placed(s)
  {
  }

  lemma PassesIsOk(mem: Memory, s: Section, total: nat, sha: seq<u8> -> seq<u8>)
    requires total < 0x4000_0000
    ensures SectionPasses(mem, s, total, sha) <==> SectionOk(mem, s, total, sha)
  {
    hide TestsPass, Aligned, Placed, Apart, Source;
    if s.size != 0 { TestsMean(s, total); }
  }

  /** The 32-bit checks accept exactly the acceptable images: where the sum of the sizes wraps
      around, some section fails its own test. */
  lemma CodeAcceptsExactly(mem: Memory, h: Image, firmSize: u32, sha: seq<u8> -> seq<u8>)
    ensures CodeAccepts(mem, h, firmSize, sha) <==> Acceptable(mem, h, firmSize, sha)
    ensures Acceptable(mem, h, firmSize, sha) ==> TotalSize(h) <= 0x2000_0200
  {
    hide SectionPasses, SectionOk, Placed, Contains;
    if CodeAccepts(mem, h, firmSize, sha) || Acceptable(mem, h, firmSize, sha) {
      forall i | 0 <= i < 4 ensures h.section[i].size == 0 || Placed(h.section[i]) {
        if CodeAccepts(mem, h, firmSize, sha) {
          PassedIsPlaced(mem, h.section[i], Wrap(TotalSize(h)), sha);
        } else {
          OkIsPlaced(mem, h.section[i], TotalSize(h), sha);
        }
      }
      SumDoesNotWrap(h, 4);
      assert Wrap(TotalSize(h)) == TotalSize(h);
      forall i | 0 <= i < 4
        ensures SectionPasses(mem, h.section[i], Wrap(TotalSize(h)), sha) <==>
                  SectionOk(mem, h.section[i], TotalSize(h), sha)
      {
        PassesIsOk(mem, h.section[i], TotalSize(h), sha);
      }
    }
  }

  method CheckFirm(mem: array<u8>, firmSize: u32, sha: seq<u8> -> seq<u8>) returns (ok: bool)
    requires mem.Length == MEMORY
    ensures ok == Acceptable(mem[..], HeaderOf(mem[..]), firmSize, sha)
  {
    ghost var all: Memory := mem[..];
    var h := HeaderOf(mem[..]);
    CodeAcceptsExactly(all, h, firmSize, sha);
    hide HeaderOf, SectionPasses, Acceptable, EntriesFound, TotalSize;
    if h.magic != ['F' as int, 'I' as int, 'R' as int, 'M' as int] || h.arm9Entry == 0 { return false; }
    var size := SumSizes(h);
    if firmSize < size { return false; }
    ok := CheckSections(mem, h, size, sha);
  }

  method SumSizes(h: Image) returns (size: u32)
    ensures size == Wrap(TotalSize(h))
  {
    size := 0x200;
    for i := 0 to 4
      invariant size == Wrap(SizeBefore(h, i))
    {
      SumStep(SizeBefore(h, i), h.section[i].size);
      size := Wrap(size + h.section[i].size);
    }
  }

  /** The second loop: the tests and the hash of each section, and the two entry points. */
  method CheckSections(mem: array<u8>, h: Image, size: u32, sha: seq<u8> -> seq<u8>) returns (ok: bool)
    requires mem.Length == MEMORY
    ensures ok <==> (forall i :: 0 <= i < 4 ==> SectionPasses(mem[..], h.section[i], size, sha)) && EntriesFound(h)
  {
    hide TestsPass, Source, Contains;
    ghost var all: Memory := mem[..];
    var arm9EpFound, arm11EpFound := false, false;
    for i := 0 to 4
      invariant forall k :: 0 <= k < i ==> SectionPasses(all, h.section[k], size, sha)
      invariant arm9EpFound <==> exists k :: 0 <= k < i && Contains(h.section[k], h.arm9Entry)
      invariant arm11EpFound <==> exists k :: 0 <= k < i && Contains(h.section[k], h.arm11Entry)
    {
      var s := h.section[i];
      if s.size == 0 {
        EmptyContainsNothing(s, h.arm9Entry);
        EmptyContainsNothing(s, h.arm11Entry);
        continue;
      }
      if !TestsPass(s, size) { return false; }
      var hash := sha(Source(mem[..], s));
      if hash != s.hash { return false; }
      if Contains(s, h.arm9Entry) { arm9EpFound := true; }
      if Contains(s, h.arm11Entry) { arm11EpFound := true; }
    }
    ok := arm9EpFound && (h.arm11Entry == 0 || arm11EpFound);
  }

  lemma EmptyContainsNothing(s: Section, entry: u32)
    requires s.size == 0
    ensures !Contains(s, entry)
  {
  }

  lemma SumStep(a: nat, b: u32)
    ensures Wrap(Wrap(a) + b) == Wrap(a + b)
  {
  }

  // ----- launching -----

  /** A copy of n bytes, byte by byte upwards. Addresses wrap around. */
  function Copied(m: Memory, dst: nat, src: nat, n: nat): Memory {
    if n == 0 then m
    else
      var t := Copied(m, dst, src, n - 1);
      t[Wrap(dst + n - 1) := t[Wrap(src + n - 1)]]
  }

  method XMemcpy(mem: array<u8>, dst: nat, src: nat, len: nat)
    requires mem.Length == MEMORY
    modifies mem
    ensures mem[..] == Copied(old(mem[..]), dst, src, len)
  {
    ghost var before: Memory := mem[..];
    for i := 0 to len
      invariant mem[..] == Copied(before, dst, src, i)
    {
      mem[Wrap(dst + i)] := mem[Wrap(src + i)];
    }
  }

  /** Memory after n sections have been copied, each described by the header as it is then. */
  function Launched(m: Memory, n: nat): Memory
    requires n <= 4
  {
    if n == 0 then m
    else
      var t := Launched(m, n - 1);
      var s := SectionAt(t, n - 1);
      Copied(t, s.address, IMAGE + s.offset, s.size)
  }

  lemma LaunchedStep(m: Memory, n: nat)
    requires n < 4
    ensures var t, s := Launched(m, n), SectionAt(Launched(m, n), n);
      Launched(m, n + 1) == Copied(t, s.address, IMAGE + s.offset, s.size)
  {
  }

  /** Copy the sections to their places, reading each one's description from memory. */
  method DoLaunchFirm(mem: array<u8>)
    requires mem.Length == MEMORY
    modifies mem
    ensures mem[..] == Launched(old(mem[..]), 4)
  {
    ghost var m: Memory := mem[..];
    assert Launched(m, 0) == m;
    hide *;
    for sectionNum := 0 to 4
      invariant mem[..] == Launched(m, sectionNum)
    {
      LaunchedStep(m, sectionNum);
      var s := SectionAt(mem[..], sectionNum);
      XMemcpy(mem, s.address, IMAGE + s.offset, s.size);
    }
  }

  // ----- where each byte comes from -----

  /** The address, before a copy, of the byte that is at address a after it. */
  function CopyOrigin(dst: nat, src: nat, n: nat, a: nat): (o: nat)
    requires a < MEMORY
    ensures o < MEMORY
  {
    if n == 0 then a
    else CopyOrigin(dst, src, n - 1, if a == Wrap(dst + n - 1) then Wrap(src + n - 1) else a)
  }

  lemma {:induction false} CopiedFrom(m: Memory, dst: nat, src: nat, n: nat, a: nat)
    requires a < MEMORY
    ensures Copied(m, dst, src, n)[a] == m[CopyOrigin(dst, src, n, a)]
  {
    if n > 0 {
      hide Wrap;
      CopiedFrom(m, dst, src, n - 1, if a == Wrap(dst + n - 1) then Wrap(src + n - 1) else a);
    }
  }

  /** The same for the first n sections of an image whose header stays as it is. */
  function Overlay(m: Memory, h: Image, n: nat): Memory
    requires n <= 4
  {
    if n == 0 then m
    else
      var s := h.section[n - 1];
      Copied(Overlay(m, h, n - 1), s.address, IMAGE + s.offset, s.size)
  }

  function Origin(h: Image, n: nat, a: nat): (o: nat)
    requires n <= 4 && a < MEMORY
    ensures o < MEMORY
  {
    if n == 0 then a
    else
      var s := h.section[n - 1];
      Origin(h, n - 1, CopyOrigin(s.address, IMAGE + s.offset, s.size, a))
  }

  /** For any header, the copies move bytes along paths that depend on the header alone. */
  lemma {:induction false} OverlayFrom(m: Memory, h: Image, n: nat, a: nat)
    requires n <= 4 && a < MEMORY
    ensures Overlay(m, h, n)[a] == m[Origin(h, n, a)]
  {
    if n > 0 {
      hide Copied, CopyOrigin;
      var s := h.section[n - 1];
      CopiedFrom(Overlay(m, h, n - 1), s.address, IMAGE + s.offset, s.size, a);
      OverlayFrom(m, h, n - 1, CopyOrigin(s.address, IMAGE + s.offset, s.size, a));
    }
  }

  predicate Covers(s: Section, a: nat) {
    s.address <= a < s.address + s.size
  }

  /** What the check guarantees of where the sections go. */
  predicate Launchable(h: Image) {
    && TotalSize(h) <= 0x2000_0200
    && forall i :: 0 <= i < 4 ==> h.section[i].size == 0 || (Placed(h.section[i]) && Apart(h.section[i], TotalSize(h)))
  }

  lemma AcceptedIsLaunchable(m: Memory, firmSize: u32, sha: seq<u8> -> seq<u8>)
    requires Acceptable(m, HeaderOf(m), firmSize, sha)
    ensures Launchable(HeaderOf(m))
  {
    var h := HeaderOf(m);
    CodeAcceptsExactly(m, h, firmSize, sha);
    hide HeaderOf, Placed, Apart, Source, Aligned, TotalSize;
    assert forall i :: 0 <= i < 4 ==> SectionOk(m, h.section[i], TotalSize(h), sha);
  }

  lemma {:induction false} UncoveredStays(dst: nat, src: nat, n: nat, a: nat)
    requires dst + n <= MEMORY && a < MEMORY && !(dst <= a < dst + n)
    ensures CopyOrigin(dst, src, n, a) == a
  {
    if n > 0 {
      WrapSmall(dst + n - 1);
      hide Wrap;
      UncoveredStays(dst, src, n - 1, a);
    }
  }

  lemma WrapSmall(x: nat)
    ensures x < MEMORY ==> Wrap(x) == x
  {
  }

  lemma Fits(h: Image, i: nat)
    requires i < 4 && Launchable(h) && h.section[i].size != 0
    ensures h.section[i].address + h.section[i].size <= MEMORY && Apart(h.section[i], TotalSize(h))
  {
    hide TotalSize;
  }

  /** A byte that none of the sections from the k-th on covers comes from where it is. */
  lemma {:induction false} UncoveredComesFrom(h: Image, k: nat, n: nat, a: nat)
    requires k <= n <= 4 && Launchable(h) && a < MEMORY
    requires forall j :: k <= j < n ==> !Covers(h.section[j], a)
    ensures Origin(h, n, a) == Origin(h, k, a)
  {
    if n > k {
      hide CopyOrigin, Launchable, TotalSize, Apart;
      var s := h.section[n - 1];
      assert !Covers(s, a);
      if s.size == 0 {
        NothingMoves(s.address, IMAGE + s.offset, a);
      } else {
        Fits(h, n - 1);
        UncoveredStays(s.address, IMAGE + s.offset, s.size, a);
      }
      UncoveredComesFrom(h, k, n - 1, a);
    }
  }

  lemma NothingMoves(dst: nat, src: nat, a: nat)
    requires a < MEMORY
    ensures CopyOrigin(dst, src, 0, a) == a
  {
  }

  /** No byte of an accepted image is overwritten, wherever the sources lie. */
  lemma ImageIntact(m: Memory, h: Image, n: nat, a: nat)
    requires n <= 4 && Launchable(h) && IMAGE <= a < IMAGE + TotalSize(h)
    ensures a < MEMORY && Overlay(m, h, n)[a] == m[a]
  {
    assert a < MEMORY;
    forall j | 0 <= j < n ensures !Covers(h.section[j], a) {
      if h.section[j].size != 0 { Fits(h, j); }
    }
    hide Launchable, Origin, Overlay, TotalSize, Covers;
    OverlayFrom(m, h, n, a);
    UncoveredComesFrom(h, 0, n, a);
    NoSections(h, a);
  }

  lemma NoSections(h: Image, a: nat)
    requires a < MEMORY
    ensures Origin(h, 0, a) == a
  {
  }

  lemma SameWord(a: Memory, b: Memory, i: nat)
    requires i + 4 <= MEMORY && forall k :: i <= k < i + 4 ==> a[k] == b[k]
    ensures LoadWord(a, i) == LoadWord(b, i)
  {
  }

  lemma TotalAtLeastHeader(h: Image)
    ensures TotalSize(h) >= 0x200
  {
    assert SizeBefore(h, 1) >= SizeBefore(h, 0);
    assert SizeBefore(h, 3) >= SizeBefore(h, 2) >= SizeBefore(h, 1);
  }

  /** Memories with the same header bytes describe the same sections. */
  predicate SameHeader(a: Memory, b: Memory) {
    forall k :: IMAGE <= k < IMAGE + 0x100 ==> a[k] == b[k]
  }

  lemma SameSection(a: Memory, b: Memory, i: nat)
    requires i < 4 && SameHeader(a, b)
    ensures SectionAt(a, i) == SectionAt(b, i)
  {
    hide LoadWord;
    var at := IMAGE + 0x40 + 0x30 * i;
    SameWord(a, b, at);
    SameWord(a, b, at + 4);
    SameWord(a, b, at + 8);
    assert a[at + 0x10..at + 0x30] == b[at + 0x10..at + 0x30];
  }

  lemma SameHeaders(a: Memory, b: Memory)
    requires SameHeader(a, b)
    ensures HeaderOf(a) == HeaderOf(b)
  {
    hide LoadWord, SectionAt;
    SameWord(a, b, IMAGE + 8);
    SameWord(a, b, IMAGE + 12);
    SameSection(a, b, 0);
    SameSection(a, b, 1);
    SameSection(a, b, 2);
    SameSection(a, b, 3);
    assert a[IMAGE..IMAGE + 4] == b[IMAGE..IMAGE + 4];
  }

  /** Of an accepted image the header survives every copy, so reading it again makes no
      difference. */
  lemma {:induction false} LaunchedIsOverlay(m: Memory, n: nat)
    requires n <= 4 && Launchable(HeaderOf(m))
    ensures Launched(m, n) == Overlay(m, HeaderOf(m), n)
  {
    hide Launchable, Copied, HeaderOf, SectionAt, TotalSize;
    if n > 0 {
      var h := HeaderOf(m);
      LaunchedIsOverlay(m, n - 1);
      var t := Overlay(m, h, n - 1);
      TotalAtLeastHeader(h);
      forall a | IMAGE <= a < IMAGE + 0x100 ensures t[a] == m[a] { ImageIntact(m, h, n - 1, a); }
      SameSection(t, m, n - 1);
      SectionInHeader(m, n - 1);
    }
  }

  lemma SectionInHeader(m: Memory, i: nat)
    requires i < 4
    ensures SectionAt(m, i) == HeaderOf(m).section[i]
  {
    hide LoadWord, SectionAt;
  }

  // ----- which sections are installed -----

  /** The address of the k-th byte of a section's source. */
  function SourceAt(s: Section, k: nat): (a: nat)
    ensures a < MEMORY
  {
    Wrap(IMAGE + s.offset + k)
  }

  function TargetAt(s: Section, k: nat): nat {
    s.address + k
  }

  /** Section t does not go over the k-th byte of the source, or of the target, of section s. */
  predicate SparesSource(t: Section, s: Section, k: nat) {
    !Covers(t, SourceAt(s, k))
  }

  predicate SparesTarget(t: Section, s: Section, k: nat) {
    !Covers(t, TargetAt(s, k))
  }

  /** No earlier section goes over the source of the i-th. */
  predicate SourceKept(h: Image, i: nat)
    requires i < 4
  {
    forall j, k :: 0 <= j < i && 0 <= k < h.section[i].size ==> SparesSource(h.section[j], h.section[i], k)
  }

  /** Copying upwards, no byte of the source is written over before it is read. */
  predicate CopiesCleanly(s: Section) {
    forall k, l :: 0 <= k < l < s.size ==> TargetAt(s, k) != SourceAt(s, l)
  }

  /** No later section goes over the i-th. */
  predicate NotOverwritten(h: Image, i: nat)
    requires i < 4
  {
    forall j, k :: i < j < 4 && 0 <= k < h.section[i].size ==> SparesTarget(h.section[j], h.section[i], k)
  }

  lemma {:induction false} CleanCopyComesFrom(s: Section, n: nat, k: nat)
    requires k < n <= s.size && s.address + s.size <= MEMORY && CopiesCleanly(s)
    ensures CopyOrigin(s.address, IMAGE + s.offset, n, s.address + k) == SourceAt(s, k)
  {
    WrapSmall(s.address + n - 1);
    if n == k + 1 {
      NotWritten(s, k, SourceAt(s, k));
    } else {
      hide CopiesCleanly, Wrap;
      CleanCopyComesFrom(s, n - 1, k);
    }
  }

  lemma NotWritten(s: Section, n: nat, a: nat)
    requires n <= s.size && s.address + s.size <= MEMORY && a < MEMORY
    requires forall j :: 0 <= j < n ==> TargetAt(s, j) != a
    ensures CopyOrigin(s.address, IMAGE + s.offset, n, a) == a
  {
    assert s.address <= a < s.address + n ==> TargetAt(s, a - s.address) == a;
    UncoveredStays(s.address, IMAGE + s.offset, n, a);
  }

  /** A byte of a section comes from that section's source if later sections leave the byte
      alone and earlier ones its source. */
  lemma ComesFromSource(h: Image, n: nat, i: nat, k: nat)
    requires i < n <= 4 && Launchable(h) && k < h.section[i].size && CopiesCleanly(h.section[i])
    requires forall j :: i < j < n ==> SparesTarget(h.section[j], h.section[i], k)
    requires forall j :: 0 <= j < i ==> SparesSource(h.section[j], h.section[i], k)
    ensures h.section[i].address + k < MEMORY
    ensures Origin(h, n, h.section[i].address + k) == SourceAt(h.section[i], k)
  {
    var s := h.section[i];
    Fits(h, i);
    hide Launchable, CopiesCleanly, CopyOrigin, Covers, SourceAt;
    CleanCopyComesFrom(s, s.size, k);
    UncoveredComesFrom(h, i + 1, n, s.address + k);
    UncoveredComesFrom(h, 0, i, SourceAt(s, k));
    NoSections(h, SourceAt(s, k));
  }

  /** The i-th section is where it should be. */
  predicate Installed(m: Memory, h: Image, i: nat)
    requires i < 4
  {
    var s := h.section[i];
    s.address + s.size <= MEMORY && Overlay(m, h, 4)[s.address..s.address + s.size] == Source(m, s)
  }

  /** Launching an accepted image leaves the image as it is, and installs exactly the bytes whose
      hash was checked for every section whose source no earlier section overwrites, which is
      copied cleanly, and which no later section overwrites. */
  lemma LaunchInstallsCheckedSections(m: Memory, firmSize: u32, sha: seq<u8> -> seq<u8>, i: nat)
    requires i < 4 && Acceptable(m, HeaderOf(m), firmSize, sha) && HeaderOf(m).section[i].size != 0
    requires SourceKept(HeaderOf(m), i) && CopiesCleanly(HeaderOf(m).section[i]) && NotOverwritten(HeaderOf(m), i)
    ensures var h, after := HeaderOf(m), Launched(m, 4);
      var s := h.section[i];
      && IMAGE + TotalSize(h) <= MEMORY && s.address + s.size <= MEMORY
      && after[IMAGE..IMAGE + TotalSize(h)] == m[IMAGE..IMAGE + TotalSize(h)]
      && after[s.address..s.address + s.size] == Source(m, s)
      && sha(after[s.address..s.address + s.size]) == s.hash
  {
    var h := HeaderOf(m);
    assert SectionOk(m, h.section[i], TotalSize(h), sha);
    AcceptedIsLaunchable(m, firmSize, sha);
    ImageUnchanged(m, h);
    hide HeaderOf, Overlay, Launched, Launchable, SectionOk, TotalSize, Source,
         SourceKept, NotOverwritten, CopiesCleanly;
    LaunchedIsOverlay(m, 4);
    UndisturbedTracesBack(h, i);
    TracedIsInstalled(m, h, i);
  }

  /** The same in intervals of addresses: the source does not reach beyond 2^32, no section before
      goes over it, the section lies at or below its own source or above its end, and no section
      after goes over its place. */
  lemma LaunchInstallsDisjoint(m: Memory, firmSize: u32, sha: seq<u8> -> seq<u8>, i: nat)
    requires i < 4 && Acceptable(m, HeaderOf(m), firmSize, sha) && HeaderOf(m).section[i].size != 0
    requires var s := HeaderOf(m).section[i];
      var from := 0x2000_1000 + s.offset;
      && from + s.size <= 0x1_0000_0000 && (s.address <= from || from + s.size <= s.address)
      && (forall j :: 0 <= j < i ==>
           var t := HeaderOf(m).section[j];
           t.size == 0 || t.address + t.size <= from || from + s.size <= t.address)
      && (forall j :: i < j < 4 ==>
           var t := HeaderOf(m).section[j];
           t.size == 0 || t.address + t.size <= s.address || s.address + s.size <= t.address)
    ensures var s := HeaderOf(m).section[i];
      s.address + s.size <= MEMORY && Launched(m, 4)[s.address..s.address + s.size] == Source(m, s)
  {
    var h := HeaderOf(m);
    var s := h.section[i];
    assert SectionOk(m, s, TotalSize(h), sha) && Placed(s);
    hide HeaderOf, Acceptable, Launched, Source, Placed, SectionOk, TotalSize;
    forall k | 0 <= k < s.size
      ensures SourceAt(s, k) == 0x2000_1000 + s.offset + k && TargetAt(s, k) == s.address + k
    {
      WrapSmall(IMAGE + s.offset + k);
      WrapSmall(s.address + k);
    }
    hide SourceAt, TargetAt;
    assert SourceKept(h, i) && NotOverwritten(h, i) && CopiesCleanly(s);
    LaunchInstallsCheckedSections(m, firmSize, sha, i);
  }

  lemma ImageUnchanged(m: Memory, h: Image)
    requires Launchable(h)
    ensures IMAGE + TotalSize(h) <= MEMORY
    ensures Overlay(m, h, 4)[IMAGE..IMAGE + TotalSize(h)] == m[IMAGE..IMAGE + TotalSize(h)]
  {
    assert TotalSize(h) <= 0x2000_0200;
    hide Overlay, Launchable, TotalSize;
    forall a | IMAGE <= a < IMAGE + TotalSize(h) ensures Overlay(m, h, 4)[a] == m[a] { ImageIntact(m, h, 4, a); }
  }

  /** Every byte of the i-th section's place comes from its own source. */
  predicate TracesBack(h: Image, i: nat)
    requires i < 4 && h.section[i].address + h.section[i].size <= MEMORY
  {
    var s := h.section[i];
    forall k :: 0 <= k < s.size ==> Origin(h, 4, s.address + k) == SourceAt(s, k)
  }

  lemma UndisturbedTracesBack(h: Image, i: nat)
    requires i < 4 && Launchable(h) && h.section[i].size != 0
    requires SourceKept(h, i) && CopiesCleanly(h.section[i]) && NotOverwritten(h, i)
    ensures h.section[i].address + h.section[i].size <= MEMORY && TracesBack(h, i)
  {
    hide Launchable, CopiesCleanly, SourceAt, SparesSource, SparesTarget, Origin;
    var s := h.section[i];
    Fits(h, i);
    forall k | 0 <= k < s.size ensures Origin(h, 4, s.address + k) == SourceAt(s, k) { ComesFromSource(h, 4, i, k); }
  }

  lemma TracedIsInstalled(m: Memory, h: Image, i: nat)
    requires i < 4 && h.section[i].address + h.section[i].size <= MEMORY && TracesBack(h, i)
    ensures Installed(m, h, i)
  {
    var s := h.section[i];
    forall k | 0 <= k < s.size ensures Overlay(m, h, 4)[s.address + k] == Source(m, s)[k] {
      hide Origin, Overlay;
      OverlayFrom(m, h, 4, s.address + k);
      assert Origin(h, 4, s.address + k) == SourceAt(s, k);
    }
  }

  // ----- exactly when a section is installed -----

  predicate InHeader(a: nat) {
    IMAGE <= a < IMAGE + 0x100
  }

  /** The byte that arrives for the k-th one of section i comes from its own source, or both
      are header bytes, which the geometry fixes, with the same value. */
  predicate Arrives(m: Memory, h: Image, i: nat, k: nat)
    requires i < 4 && k < h.section[i].size && h.section[i].address + h.section[i].size <= MEMORY
  {
    var o, p := Origin(h, 4, h.section[i].address + k), SourceAt(h.section[i], k);
    o == p || (InHeader(o) && InHeader(p) && m[o] == m[p])
  }

  predicate AllArrive(m: Memory, h: Image, i: nat)
    requires i < 4 && h.section[i].address + h.section[i].size <= MEMORY
  {
    forall k :: 0 <= k < h.section[i].size ==> Arrives(m, h, i, k)
  }

  lemma SourceByte(m: Memory, s: Section, k: nat)
    requires k < s.size
    ensures Source(m, s)[k] == m[SourceAt(s, k)]
  {
  }

  lemma ByteInstalled(m: Memory, h: Image, i: nat, k: nat)
    requires i < 4 && k < h.section[i].size && h.section[i].address + h.section[i].size <= MEMORY
    ensures Installed(m, h, i) ==> m[Origin(h, 4, h.section[i].address + k)] == m[SourceAt(h.section[i], k)]
  {
    hide Origin, Overlay;
    var s := h.section[i];
    OverlayFrom(m, h, 4, s.address + k);
    assert Overlay(m, h, 4)[s.address..s.address + s.size][k] == Overlay(m, h, 4)[s.address + k];
    SourceByte(m, s, k);
  }

  lemma ArrivedIsInstalled(m0: Memory, m: Memory, h: Image, i: nat)
    requires i < 4 && h.section[i].address + h.section[i].size <= MEMORY && AllArrive(m0, h, i) && SameHeader(m, m0)
    ensures Installed(m, h, i)
  {
    var s := h.section[i];
    forall k | 0 <= k < s.size ensures Overlay(m, h, 4)[s.address + k] == Source(m, s)[k] {
      hide Origin, Overlay;
      OverlayFrom(m, h, 4, s.address + k);
      assert Arrives(m0, h, i, k);
    }
  }

  /** Launching m leaves the i-th section at its place as it was hashed. */
  predicate Launches(m: Memory, i: nat)
    requires i < 4
  {
    var s := HeaderOf(m).section[i];
    s.address + s.size <= MEMORY && Launched(m, 4)[s.address..s.address + s.size] == Source(m, s)
  }

  lemma LaunchesIsInstalled(m: Memory, firmSize: u32, sha: seq<u8> -> seq<u8>, i: nat)
    requires i < 4 && Acceptable(m, HeaderOf(m), firmSize, sha)
    ensures Launches(m, i) <==> Installed(m, HeaderOf(m), i)
  {
    AcceptedIsLaunchable(m, firmSize, sha);
    hide HeaderOf, Overlay, Launched, Launchable, Source, Acceptable;
    LaunchedIsOverlay(m, 4);
  }

  /** The header bytes of m0 fix where everything goes. Whatever the rest of memory holds and
      whatever the hash function is, launching an accepted image installs its i-th section if
      and only if every byte of the section arrives from its own source. */
  lemma InstalledExactly(m0: Memory, firmSize: u32, sha0: seq<u8> -> seq<u8>, i: nat)
    requires i < 4 && Acceptable(m0, HeaderOf(m0), firmSize, sha0) && HeaderOf(m0).section[i].size != 0
    ensures HeaderOf(m0).section[i].address + HeaderOf(m0).section[i].size <= MEMORY
    ensures AllArrive(m0, HeaderOf(m0), i) <==>
      forall m: Memory, sha: seq<u8> -> seq<u8> ::
        SameHeader(m, m0) && Acceptable(m, HeaderOf(m), firmSize, sha) ==> Launches(m, i)
  {
    var h := HeaderOf(m0);
    AcceptedIsLaunchable(m0, firmSize, sha0);
    Fits(h, i);
    hide HeaderOf, Installed, Launches, Acceptable, Launchable, Arrives, SameHeader, TotalSize;
    if AllArrive(m0, h, i) {
      forall m: Memory, sha: seq<u8> -> seq<u8> | SameHeader(m, m0) && Acceptable(m, HeaderOf(m), firmSize, sha)
        ensures Launches(m, i)
      {
        SameHeaders(m, m0);
        ArrivedIsInstalled(m0, m, h, i);
        LaunchesIsInstalled(m, firmSize, sha, i);
      }
    } else {
      var k :| 0 <= k < h.section[i].size && !Arrives(m0, h, i, k);
      var m, sha := Spoil(m0, h, firmSize, sha0, i, k);
      SameHeaders(m, m0);
      LaunchesIsInstalled(m, firmSize, sha, i);
    }
  }

  /** An accepted memory with the same header in which the k-th byte is not installed. */
  lemma Spoil(m0: Memory, h: Image, firmSize: u32, sha0: seq<u8> -> seq<u8>, i: nat, k: nat)
    returns (m: Memory, sha: seq<u8> -> seq<u8>)
    requires i < 4 && k < h.section[i].size && h.section[i].address + h.section[i].size <= MEMORY
    requires Acceptable(m0, h, firmSize, sha0) && !Arrives(m0, h, i, k)
    ensures SameHeader(m, m0) && Acceptable(m, h, firmSize, sha) && !Installed(m, h, i)
  {
    hide Origin, Installed, SourceAt, Acceptable;
    var o, p := Origin(h, 4, h.section[i].address + k), SourceAt(h.section[i], k);
    if InHeader(o) && InHeader(p) {
      m, sha := m0, sha0;
    } else {
      var a, b := if InHeader(o) then p else o, if InHeader(o) then o else p;
      var v := FreshByte(Clashes(m0, h, a) + [m0[b]], 0x100);
      m := m0[a := v];
      sha := Oracle(m, h, sha0);
      assert m0[b] == (Clashes(m0, h, a) + [m0[b]])[16];
      ClashesAvoided(m0, h, firmSize, sha0, a, v);
      OracleAccepts(m0, m, h, firmSize, sha0);
    }
    ByteInstalled(m, h, i, k);
  }

  /** A byte that does not occur in a short list. */
  lemma {:induction false} FreshByte(xs: seq<u8>, n: nat) returns (v: u8)
    requires |xs| < n <= 0x100
    ensures v < n && v !in xs
  {
    if n - 1 !in xs {
      v := n - 1;
    } else {
      var k :| 0 <= k < |xs| && xs[k] == n - 1;
      assert xs == xs[..k] + [xs[k]] + xs[k + 1..];
      v := FreshByte(xs[..k] + xs[k + 1..], n - 1);
    }
  }

  /** The only byte of a section's source that can lie at a. */
  function IndexOf(s: Section, a: nat): nat {
    Wrap(a - IMAGE - s.offset)
  }

  lemma IndexIs(s: Section, a: nat, k: nat)
    requires a < MEMORY && k < MEMORY
    ensures SourceAt(s, k) == a <==> k == IndexOf(s, a)
  {
  }

  /** What the other section has where section s has the byte at a. */
  function Clash(m: Memory, s: Section, t: Section, a: nat): u8 {
    m[SourceAt(t, IndexOf(s, a))]
  }

  function Clashes(m: Memory, h: Image, a: nat): (r: seq<u8>)
    ensures |r| == 16
  {
    seq(16, k requires 0 <= k < 16 => Clash(m, h.section[k / 4], h.section[k % 4], a))
  }

  /** Sources that differ still differ after the byte at a has become one that does not clash. */
  lemma SourcesDiffer(m: Memory, s: Section, t: Section, a: nat, v: u8)
    requires a < MEMORY && Source(m, s) != Source(m, t) && v != Clash(m, s, t, a) && v != Clash(m, t, s, a)
    ensures Source(m[a := v], s) != Source(m[a := v], t)
  {
    if s.size == t.size {
      var k :| 0 <= k < s.size && Source(m, s)[k] != Source(m, t)[k];
      var i, j, m' := IndexOf(s, a), IndexOf(t, a), m[a := v];
      IndexIs(s, a, i);
      IndexIs(t, a, j);
      IndexIs(s, a, j);
      IndexIs(t, a, i);
      IndexIs(s, a, k);
      IndexIs(t, a, k);
      var l := if i != j && i < s.size then i else if i != j && j < s.size then j else k;
      SourceByte(m, s, k);
      SourceByte(m, t, k);
      SourceByte(m', s, l);
      SourceByte(m', t, l);
      hide Source, SourceAt, IndexOf;
      assert m'[SourceAt(s, l)] != m'[SourceAt(t, l)];
    }
  }

  /** Sections with different hashes have different sources. */
  predicate HashesFit(m: Memory, s: Section, t: Section) {
    s.size == 0 || t.size == 0 || s.hash == t.hash || Source(m, s) != Source(m, t)
  }

  predicate AllHashesFit(m: Memory, h: Image) {
    forall i, j :: 0 <= i < 4 && 0 <= j < 4 ==> HashesFit(m, h.section[i], h.section[j])
  }

  lemma ClashIn(m: Memory, h: Image, a: nat, i: nat, j: nat)
    requires i < 4 && j < 4
    ensures Clash(m, h.section[i], h.section[j], a) in Clashes(m, h, a)
  {
    hide Clash;
    assert Clashes(m, h, a)[4 * i + j] == Clash(m, h.section[i], h.section[j], a);
  }

  lemma ClashesAvoided(m: Memory, h: Image, firmSize: u32, sha0: seq<u8> -> seq<u8>, a: nat, v: u8)
    requires Acceptable(m, h, firmSize, sha0) && a < MEMORY && v !in Clashes(m, h, a)
    ensures AllHashesFit(m[a := v], h)
  {
    hide Source, Clash, Clashes, TotalSize, Aligned, Placed, Apart, EntriesFound;
    forall i, j | 0 <= i < 4 && 0 <= j < 4 ensures HashesFit(m[a := v], h.section[i], h.section[j]) {
      var s, t := h.section[i], h.section[j];
      assert SectionOk(m, s, TotalSize(h), sha0) && SectionOk(m, t, TotalSize(h), sha0);
      ClashIn(m, h, a, i, j);
      ClashIn(m, h, a, j, i);
      if Source(m, s) != Source(m, t) { SourcesDiffer(m, s, t, a, v); }
    }
  }

  /** A hash function that gives every source the hash its section carries. */
  function Oracle(m: Memory, h: Image, sha0: seq<u8> -> seq<u8>): seq<u8> -> seq<u8> {
    x =>
      if h.section[0].size != 0 && Source(m, h.section[0]) == x then h.section[0].hash
      else if h.section[1].size != 0 && Source(m, h.section[1]) == x then h.section[1].hash
      else if h.section[2].size != 0 && Source(m, h.section[2]) == x then h.section[2].hash
      else if h.section[3].size != 0 && Source(m, h.section[3]) == x then h.section[3].hash
      else sha0(x)
  }

  lemma OracleAccepts(m0: Memory, m: Memory, h: Image, firmSize: u32, sha0: seq<u8> -> seq<u8>)
    requires Acceptable(m0, h, firmSize, sha0) && AllHashesFit(m, h)
    ensures Acceptable(m, h, firmSize, Oracle(m, h, sha0))
  {
    hide Aligned, Placed, Apart, TotalSize, EntriesFound, Source;
    forall i | 0 <= i < 4 ensures SectionOk(m, h.section[i], TotalSize(h), Oracle(m, h, sha0)) {
      assert SectionOk(m0, h.section[i], TotalSize(h), sha0);
      assert forall j :: 0 <= j < 4 ==> HashesFit(m, h.section[i], h.section[j]);
    }
  }

  // ----- images on which every section is kept -----

  /** No section disturbs another one's source, or its own. */
  predicate SourcesKept(h: Image) {
    forall i :: 0 <= i < 4 ==> SourceKept(h, i) && CopiesCleanly(h.section[i])
  }

  /** The byte at address a: from the source of the last section among the first n that covers
      it, or as it was. */
  function Final(m: Memory, h: Image, n: nat, a: nat): u8
    requires n <= 4 && a < MEMORY
  {
    if n == 0 then m[a]
    else if Covers(h.section[n - 1], a) then m[SourceAt(h.section[n - 1], a - h.section[n - 1].address)]
    else Final(m, h, n - 1, a)
  }

  /** Then launching overlays the checked sections in order: the last one that covers a byte
      provides it. */
  lemma {:induction false} OverlayIsFinal(m: Memory, h: Image, n: nat, a: nat)
    requires n <= 4 && Launchable(h) && SourcesKept(h) && a < MEMORY
    ensures Overlay(m, h, n)[a] == Final(m, h, n, a)
  {
    hide Launchable, Overlay, Origin, SourceAt, CopiesCleanly;
    OverlayFrom(m, h, n, a);
    if n == 0 {
      NoSections(h, a);
    } else if Covers(h.section[n - 1], a) {
      var k := a - h.section[n - 1].address;
      assert SourceKept(h, n - 1) && CopiesCleanly(h.section[n - 1]);
      ComesFromSource(h, n, n - 1, k);
    } else {
      OverlayIsFinal(m, h, n - 1, a);
      OverlayFrom(m, h, n - 1, a);
      UncoveredComesFrom(h, n - 1, n, a);
    }
  }

  /** An accepted image whose sources lie inside its counted size is of this kind. */
  lemma InsideIsKept(h: Image)
    requires Launchable(h)
    requires forall i :: 0 <= i < 4 && h.section[i].size != 0 ==>
      h.section[i].offset + h.section[i].size <= TotalSize(h)
    ensures SourcesKept(h)
  {
    forall i | 0 <= i < 4 ensures SourceKept(h, i) && CopiesCleanly(h.section[i]) {
      var s := h.section[i];
      forall k | 0 <= k < s.size ensures IMAGE <= SourceAt(s, k) < IMAGE + TotalSize(h) { InsideAt(h, i, k); }
      forall j, a | 0 <= j < 4 && IMAGE <= a < IMAGE + TotalSize(h) ensures !Covers(h.section[j], a) {
        if h.section[j].size != 0 { Fits(h, j); }
      }
      hide SourceAt, TotalSize, Launchable;
      forall k, l | 0 <= k < l < s.size ensures TargetAt(s, k) != SourceAt(s, l) {
        assert !Covers(s, SourceAt(s, l)) && Covers(s, TargetAt(s, k));
      }
    }
  }

  lemma InsideAt(h: Image, i: nat, k: nat)
    requires i < 4 && Launchable(h) && k < h.section[i].size
    requires h.section[i].offset + h.section[i].size <= TotalSize(h)
    ensures IMAGE <= SourceAt(h.section[i], k) < IMAGE + TotalSize(h)
  {
    assert TotalSize(h) <= 0x2000_0200;
    hide TotalSize, Launchable;
    assert h.section[i].offset + h.section[i].size <= TotalSize(h);
    WrapSmall(IMAGE + h.section[i].offset + k);
  }

  // ----- an accepted image that is not installed -----

  function Zero(n: nat): (z: seq<u8>)
    ensures |z| == n
  {
    seq(n, _ => 0)
  }

  /** What the sections of the image consist of. */
  const FIRST: seq<u8> := [1] + Zero(0x1FF)
  const SECOND: seq<u8> := Zero(0x200)

  /** Section 0 goes to 0x20002000, where section 1 has its source; section 1 goes to
      0x08000000, the entry point. The header holds the given hashes. */
  function WitnessByte(h0: seq<u8>, h1: seq<u8>, a: nat): u8
    requires |h0| == |h1| == 0x20
  {
    if IMAGE + 0x50 <= a < IMAGE + 0x70 then h0[a - IMAGE - 0x50]
    else if IMAGE + 0x80 <= a < IMAGE + 0xA0 then h1[a - IMAGE - 0x80]
    else if a == IMAGE then 'F' as int
    else if a == IMAGE + 1 then 'I' as int
    else if a == IMAGE + 2 then 'R' as int
    else if a == IMAGE + 3 then 'M' as int
    else if a == IMAGE + 0xF then 0x08
    else if a == IMAGE + 0x41 then 0x02
    else if a == IMAGE + 0x45 then 0x20
    else if a == IMAGE + 0x47 then 0x20
    else if a == IMAGE + 0x49 then 0x02
    else if a == IMAGE + 0x71 then 0x10
    else if a == IMAGE + 0x77 then 0x08
    else if a == IMAGE + 0x79 then 0x02
    else if a == IMAGE + 0x200 then 0x01
    else 0
  }

  function Witness(h0: seq<u8>, h1: seq<u8>): Memory
    requires |h0| == |h1| == 0x20
  {
    seq(MEMORY, a requires 0 <= a < MEMORY => WitnessByte(h0, h1, a))
  }

  function WitnessHeader(h0: seq<u8>, h1: seq<u8>): Image {
    Header(['F' as int, 'I' as int, 'R' as int, 'M' as int], 0, 0x0800_0000, [
      Section(0x200, 0x2000_2000, 0x200, h0), Section(0x1000, 0x0800_0000, 0x200, h1),
      Section(0, 0, 0, Zero(0x20)), Section(0, 0, 0, Zero(0x20))])
  }

  lemma WitnessHeaderIs(h0: seq<u8>, h1: seq<u8>)
    requires |h0| == |h1| == 0x20
    ensures HeaderOf(Witness(h0, h1)) == WitnessHeader(h0, h1)
  {
    var m := Witness(h0, h1);
    assert m[IMAGE..IMAGE + 4] == ['F' as int, 'I' as int, 'R' as int, 'M' as int];
    assert m[IMAGE + 0x50..IMAGE + 0x70] == h0;
    assert m[IMAGE + 0x80..IMAGE + 0xA0] == h1;
    assert m[IMAGE + 0xB0..IMAGE + 0xD0] == Zero(0x20);
    assert m[IMAGE + 0xE0..IMAGE + 0x100] == Zero(0x20);
  }

  lemma WitnessSources(h0: seq<u8>, h1: seq<u8>)
    requires |h0| == |h1| == 0x20
    ensures Source(Witness(h0, h1), WitnessHeader(h0, h1).section[0]) == FIRST
    ensures Source(Witness(h0, h1), WitnessHeader(h0, h1).section[1]) == SECOND
  {
    var m, h := Witness(h0, h1), WitnessHeader(h0, h1);
    forall k | 0 <= k < 0x200 ensures m[Wrap(IMAGE + 0x200 + k)] == FIRST[k] {
      WrapSmall(IMAGE + 0x200 + k);
    }
    forall k | 0 <= k < 0x200 ensures m[Wrap(IMAGE + 0x1000 + k)] == SECOND[k] {
      WrapSmall(IMAGE + 0x1000 + k);
    }
  }

  lemma WitnessAccepted(sha: seq<u8> -> seq<u8>)
    requires |sha(FIRST)| == |sha(SECOND)| == 0x20
    ensures Acceptable(Witness(sha(FIRST), sha(SECOND)), WitnessHeader(sha(FIRST), sha(SECOND)), 0x600, sha)
  {
    var m, h := Witness(sha(FIRST), sha(SECOND)), WitnessHeader(sha(FIRST), sha(SECOND));
    WitnessSources(sha(FIRST), sha(SECOND));
    hide Witness, Source;
    assert SizeBefore(h, 1) == 0x400;
    assert SizeBefore(h, 2) == 0x600;
    assert SizeBefore(h, 3) == 0x600;
    assert TotalSize(h) == 0x600;
    forall i | 0 <= i < 4 ensures SectionOk(m, h.section[i], TotalSize(h), sha) {}
    assert Contains(h.section[1], h.arm9Entry);
  }

  lemma WitnessOrigin(h0: seq<u8>, h1: seq<u8>)
    ensures Origin(WitnessHeader(h0, h1), 4, 0x0800_0000) == IMAGE + 0x200
  {
    var h := WitnessHeader(h0, h1);
    hide Origin, CopyOrigin;
    var s0, s1 := h.section[0], h.section[1];
    assert SourceAt(s0, 0) == IMAGE + 0x200 && SourceAt(s1, 0) == 0x2000_2000;
    assert CopiesCleanly(s0) && CopiesCleanly(s1);
    CleanCopyComesFrom(s1, 0x200, 0);
    CleanCopyComesFrom(s0, 0x200, 0);
    OriginSteps(h, 0x0800_0000, 0x2000_2000, IMAGE + 0x200);
  }

  /** Two sections in a row, the others empty. */
  lemma OriginSteps(h: Image, a: nat, b: nat, c: nat)
    requires h.section[2].size == 0 && h.section[3].size == 0 && a < MEMORY && b < MEMORY
    requires CopyOrigin(h.section[1].address, IMAGE + h.section[1].offset, h.section[1].size, a) == b
    requires CopyOrigin(h.section[0].address, IMAGE + h.section[0].offset, h.section[0].size, b) == c
    ensures Origin(h, 4, a) == c
  {
    NothingMoves(h.section[3].address, IMAGE + h.section[3].offset, a);
    NothingMoves(h.section[2].address, IMAGE + h.section[2].offset, a);
    hide CopyOrigin;
    assert Origin(h, 4, a) == Origin(h, 3, a) == Origin(h, 2, a);
    assert Origin(h, 2, a) == Origin(h, 1, b);
    assert Origin(h, 1, b) == Origin(h, 0, c);
  }

  /** The check does not look at where sources end. For every hash function there is an image that
      it accepts, and whose second section, the one that is entered, ends up holding the first
      one's bytes. */
  lemma AcceptedButNotInstalled(sha: seq<u8> -> seq<u8>)
    requires |sha(FIRST)| == |sha(SECOND)| == 0x20
    ensures var m := Witness(sha(FIRST), sha(SECOND));
      && Acceptable(m, HeaderOf(m), 0x600, sha) && HeaderOf(m).section[1].address == HeaderOf(m).arm9Entry
      && Launched(m, 4)[HeaderOf(m).arm9Entry] == FIRST[0] != SECOND[0] == Source(m, HeaderOf(m).section[1])[0]
      && !Launches(m, 1)
  {
    var m, h := Witness(sha(FIRST), sha(SECOND)), WitnessHeader(sha(FIRST), sha(SECOND));
    WitnessHeaderIs(sha(FIRST), sha(SECOND));
    WitnessSources(sha(FIRST), sha(SECOND));
    WitnessAccepted(sha);
    WitnessOrigin(sha(FIRST), sha(SECOND));
    assert m[IMAGE + 0x200] == FIRST[0] == 1 && SECOND[0] == 0;
    assert h.section[1].address == h.arm9Entry == 0x0800_0000;
    hide HeaderOf, Witness, WitnessHeader, Origin, Launched, Overlay, Source, Acceptable, Launchable;
    AcceptedIsLaunchable(m, 0x600, sha);
    LaunchedIsOverlay(m, 4);
    OverlayFrom(m, h, 4, 0x0800_0000);
    NotLaunched(m, 1);
  }

  lemma NotLaunched(m: Memory, i: nat)
    requires i < 4
    requires var s := HeaderOf(m).section[i]; s.size != 0 && Launched(m, 4)[s.address] != Source(m, s)[0]
    ensures !Launches(m, i)
  {
    hide HeaderOf, Launched, Source;
    var s := HeaderOf(m).section[i];
    if s.address + s.size <= MEMORY {
      assert Launched(m, 4)[s.address..s.address + s.size][0] == Launched(m, 4)[s.address];
    }
  }
}
