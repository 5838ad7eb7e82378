/** ARMv6 translation tables (k11_extension/source/mmu.c, main.c; section B4.7 of
    ARM DDI 0100I): the walkers, the pass that makes every mapping readable,
    writable and executable, and the tables filled in at boot. */
module Mmu {
  import opened Machine

  datatype DescType = TranslationFault | CoarsePageTable | Section | Supersection | Reserved | LargePage | SmallPage

  // ----- first-level descriptors as bit fields -----

  /** Section and supersection: type and cache bits, xn, domain and p, ap, tex, apx, and the
      bits from 16 on, with bit 18 and the address among them. */
  datatype L1Fields = L1Fields(low: nat, xn: nat, mid: nat, ap: nat, tex: nat, apx: nat, high: nat)
  {
    predicate Fits() {
      low < 0x10 && xn < 2 && mid < 0x20 && ap < 4 && tex < 8 && apx < 2 && high < 0x1_0000
    }

    function Raw(): u32
      requires Fits()
    {
      low + 0x10 * (xn + 2 * (mid + 0x20 * (ap + 4 * (tex + 8 * (apx + 2 * high)))))
    }
  }

  function L1Split(d: u32): (f: L1Fields)
    ensures f.Fits()
  {
    var q1 := d / 0x10;
    var q2 := q1 / 2;
    var q3 := q2 / 0x20;
    var q4 := q3 / 4;
    var q5 := q4 / 8;
    L1Fields(d % 0x10, q1 % 2, q2 % 0x20, q3 % 4, q4 % 8, q5 % 2, q5 / 2)
  }

  lemma L1SplitRaw(f: L1Fields)
    requires f.Fits()
    ensures L1Split(f.Raw()) == f
  {
    var q5 := f.apx + 2 * f.high;
    var q4 := f.tex + 8 * q5;
    var q3 := f.ap + 4 * q4;
    var q2 := f.mid + 0x20 * q3;
    var q1 := f.xn + 2 * q2;
    Digit16(f.low, q1);
    Digit2(f.xn, q2);
    Digit32(f.mid, q3);
    Digit4(f.ap, q4);
    Digit8(f.tex, q5);
    Digit2(f.apx, f.high);
  }

  function L1Type(d: u32): DescType {
    var f := L1Split(d);
    if f.low % 4 == 0 then TranslationFault
    else if f.low % 4 == 1 then CoarsePageTable
    else if f.low % 4 == 2 then (if f.high / 4 % 2 == 0 then Section else Supersection)
    else Reserved
  }

  // ----- second-level descriptors as bit fields -----

  /** Large page: type and cache bits, ap, sbz, apx, s, ng and tex, xn, address. */
  datatype LargeFields = LargeFields(low: nat, ap: nat, sbz: nat, apx: nat, mid: nat, xn: nat, addr: nat)
  {
    predicate Fits() {
      low < 0x10 && ap < 4 && sbz < 8 && apx < 2 && mid < 0x20 && xn < 2 && addr < 0x1_0000
    }

    function Raw(): u32
      requires Fits()
    {
      low + 0x10 * (ap + 4 * (sbz + 8 * (apx + 2 * (mid + 0x20 * (xn + 2 * addr)))))
    }
  }

  function LargeSplit(d: u32): (f: LargeFields)
    ensures f.Fits()
  {
    var q1 := d / 0x10;
    var q2 := q1 / 4;
    var q3 := q2 / 8;
    var q4 := q3 / 2;
    var q5 := q4 / 0x20;
    LargeFields(d % 0x10, q1 % 4, q2 % 8, q3 % 2, q4 % 0x20, q5 % 2, q5 / 2)
  }

  lemma LargeSplitRaw(f: LargeFields)
    requires f.Fits()
    ensures LargeSplit(f.Raw()) == f
  {
    var q5 := f.xn + 2 * f.addr;
    var q4 := f.mid + 0x20 * q5;
    var q3 := f.apx + 2 * q4;
    var q2 := f.sbz + 8 * q3;
    var q1 := f.ap + 4 * q2;
    Digit16(f.low, q1);
    Digit4(f.ap, q2);
    Digit8(f.sbz, q3);
    Digit2(f.apx, q4);
    Digit32(f.mid, q5);
    Digit2(f.xn, f.addr);
  }

  /** Small page: xn, bit 1 and cache bits, ap, tex, apx, s and ng, address. */
  datatype SmallFields = SmallFields(xn: nat, low: nat, ap: nat, tex: nat, apx: nat, mid: nat, addr: nat)
  {
    predicate Fits() {
      xn < 2 && low < 8 && ap < 4 && tex < 8 && apx < 2 && mid < 4 && addr < 0x10_0000
    }

    function Raw(): u32
      requires Fits()
    {
      xn + 2 * (low + 8 * (ap + 4 * (tex + 8 * (apx + 2 * (mid + 4 * addr)))))
    }
  }

  function SmallSplit(d: u32): (f: SmallFields)
    ensures f.Fits()
  {
    var q1 := d / 2;
    var q2 := q1 / 8;
    var q3 := q2 / 4;
    var q4 := q3 / 8;
    var q5 := q4 / 2;
    SmallFields(d % 2, q1 % 8, q2 % 4, q3 % 8, q4 % 2, q5 % 4, q5 / 4)
  }

  lemma SmallSplitRaw(f: SmallFields)
    requires f.Fits()
    ensures SmallSplit(f.Raw()) == f
  {
    var q5 := f.mid + 4 * f.addr;
    var q4 := f.apx + 2 * q5;
    var q3 := f.tex + 8 * q4;
    var q2 := f.ap + 4 * q3;
    var q1 := f.low + 8 * q2;
    Digit2(f.xn, q1);
    Digit8(f.low, q2);
    Digit4(f.ap, q3);
    Digit8(f.tex, q4);
    Digit2(f.apx, q5);
    Digit4(f.mid, f.addr);
  }

  function L2Type(d: u32): DescType {
    if d % 4 == 1 then LargePage
    else if d % 4 / 2 == 1 then SmallPage
    else TranslationFault
  }

  // ----- what the pass does to one descriptor -----

  /** xn, apx and ap stored into the bit fields of the descriptor's kind. */
  function RwxL1(d: u32): u32 {
    match L1Type(d)
    case Section => L1Split(d).(xn := 0, apx := 0, ap := 3).Raw()
    case Supersection => L1Split(d).(xn := 0, ap := 3).Raw()
    case _ => d
  }

  function RwxL2(d: u32): u32 {
    match L2Type(d)
    case LargePage => LargeSplit(d).(xn := 0, apx := 0, ap := 3).Raw()
    case SmallPage => SmallSplit(d).(xn := 0, apx := 0, ap := 3).Raw()
    case _ => d
  }

  lemma RwxL1Fields(d: u32)
    ensures L1Type(RwxL1(d)) == L1Type(d)
    ensures L1Type(d) == Section ==> L1Split(RwxL1(d)) == L1Split(d).(xn := 0, apx := 0, ap := 3)
    ensures L1Type(d) == Supersection ==> L1Split(RwxL1(d)) == L1Split(d).(xn := 0, ap := 3)
    ensures RwxL1(RwxL1(d)) == RwxL1(d)
  {
    if L1Type(d) == Section { L1SplitRaw(L1Split(d).(xn := 0, apx := 0, ap := 3)); }
    else if L1Type(d) == Supersection { L1SplitRaw(L1Split(d).(xn := 0, ap := 3)); }
  }

  lemma LargeType(f: LargeFields)
    requires f.Fits()
    ensures L2Type(f.Raw()) == LargePage <==> f.low % 4 == 1
  {
    var q := f.ap + 4 * (f.sbz + 8 * (f.apx + 2 * (f.mid + 0x20 * (f.xn + 2 * f.addr))));
    assert f.Raw() == f.low % 4 + 4 * (f.low / 4 + 4 * q);
    Digit4(f.low % 4, f.low / 4 + 4 * q);
  }

  lemma SmallType(f: SmallFields)
    requires f.Fits()
    ensures L2Type(f.Raw()) == SmallPage <==> f.low % 2 == 1
    ensures L2Type(f.Raw()) == LargePage <==> f.low % 2 == 0 && f.xn == 1
  {
    var q := f.ap + 4 * (f.tex + 8 * (f.apx + 2 * (f.mid + 4 * f.addr)));
    assert f.Raw() == (f.xn + 2 * (f.low % 2)) + 4 * (f.low / 2 + 4 * q);
    Digit4(f.xn + 2 * (f.low % 2), f.low / 2 + 4 * q);
  }

  lemma LargeRwx(d: u32)
    requires L2Type(d) == LargePage
    ensures var f := LargeSplit(d).(xn := 0, apx := 0, ap := 3);
      RwxL2(d) == f.Raw() && L2Type(f.Raw()) == LargePage && LargeSplit(f.Raw()) == f
  {
    var f := LargeSplit(d).(xn := 0, apx := 0, ap := 3);
    assert f.low % 4 == d % 4;
    LargeType(f);
    LargeSplitRaw(f);
  }

  lemma SmallRwx(d: u32)
    requires L2Type(d) == SmallPage
    ensures var f := SmallSplit(d).(xn := 0, apx := 0, ap := 3);
      RwxL2(d) == f.Raw() && L2Type(f.Raw()) == SmallPage && SmallSplit(f.Raw()) == f
  {
    var f := SmallSplit(d).(xn := 0, apx := 0, ap := 3);
    assert f.low % 2 == d % 4 / 2;
    SmallType(f);
    SmallSplitRaw(f);
  }

  lemma RwxL2Fields(d: u32)
    ensures L2Type(RwxL2(d)) == L2Type(d)
    ensures L2Type(d) == LargePage ==> LargeSplit(RwxL2(d)) == LargeSplit(d).(xn := 0, apx := 0, ap := 3)
    ensures L2Type(d) == SmallPage ==> SmallSplit(RwxL2(d)) == SmallSplit(d).(xn := 0, apx := 0, ap := 3)
    ensures RwxL2(RwxL2(d)) == RwxL2(d)
  {
    if L2Type(d) == LargePage {
      LargeRwx(d);
      hide L2Type, LargeFields.Raw, LargeSplit;
    } else if L2Type(d) == SmallPage {
      SmallRwx(d);
      hide L2Type, SmallFields.Raw, SmallSplit;
    }
  }

  // ----- tables and walkers -----

  /** A first-level table, and the second-level tables by the address the kernel sees them at. */
  datatype Tables = Tables(l1: seq<u32>, l2: map<u32, seq<u32>>)

  /** The kernel's address of the table that a coarse descriptor points to. */
  function L2Base(d: u32): u32 {
    KernelVa(d / 0x400 % 0x20_0000 * 0x400)
  }

  function KernelVa(pa: u32): u32 {
    var p: int := pa;
    (p - 0x4000_0000) % 0x1_0000_0000
  }

  /** A full first-level table all of whose coarse descriptors point to second-level tables. */
  ghost predicate WellFormed(t: Tables) {
    && |t.l1| == 0x1000
    && (forall d <- t.l1 :: L1Type(d) == CoarsePageTable ==> L2Base(d) in t.l2)
    && (forall b <- t.l2 :: |t.l2[b]| == 0x100)
  }

  function L1Entry(t: Tables, va: u32): u32
    requires WellFormed(t)
  {
    t.l1[va / 0x10_0000]
  }

  function L2Entry(t: Tables, va: u32): u32
    requires WellFormed(t) && L1Type(L1Entry(t, va)) == CoarsePageTable
  {
    assert L1Entry(t, va) in t.l1;
    t.l2[L2Base(L1Entry(t, va))][va / 0x1000 % 0x100]
  }

  function L2GetPA(d: u32, va: u32): u32 {
    match L2Type(d)
    case LargePage => LargeSplit(d).addr * 0x1_0000 + va % 0x1_0000
    case SmallPage => SmallSplit(d).addr * 0x1000 + va % 0x1000
    case _ => 0
  }

  function GetPAFromVA(t: Tables, va: u32): u32
    requires WellFormed(t)
  {
    var d := L1Entry(t, va);
    match L1Type(d)
    case CoarsePageTable => L2GetPA(L2Entry(t, va), va)
    case Section => L1Split(d).high / 0x10 * 0x10_0000 + va % 0x10_0000
    case Supersection => L1Split(d).high / 0x100 * 0x100_0000 + va % 0x100_0000
    case _ => 0
  }

  /** User permissions: 1 to read, 2 to write, 4 to execute. */
  function UserPerm(ap: nat, apx: nat, xn: nat): nat {
    if ap / 2 == 0 then 0
    else ap / 2 + (if apx == 0 && ap % 2 == 1 then 2 else 0) + (if xn == 0 then 4 else 0)
  }

  function L2GetPerm(d: u32): nat {
    match L2Type(d)
    case LargePage => UserPerm(LargeSplit(d).ap, LargeSplit(d).apx, LargeSplit(d).xn)
    case SmallPage => UserPerm(SmallSplit(d).ap, SmallSplit(d).apx, SmallSplit(d).xn)
    case _ => 0
  }

  function GetAddressUserPerm(t: Tables, va: u32): nat
    requires WellFormed(t)
  {
    var d := L1Entry(t, va);
    match L1Type(d)
    case CoarsePageTable => L2GetPerm(L2Entry(t, va))
    case Section => UserPerm(L1Split(d).ap, L1Split(d).apx, L1Split(d).xn)
    case Supersection => UserPerm(L1Split(d).ap, 0, L1Split(d).xn)
    case _ => 0
  }

  predicate Mapped(t: Tables, va: u32)
    requires WellFormed(t)
  {
    match L1Type(L1Entry(t, va))
    case CoarsePageTable => L2Type(L2Entry(t, va)) != TranslationFault
    case Section => true
    case Supersection => true
    case _ => false
  }

  // ----- the walkers on raw descriptors -----

  lemma L1Bits(d: u32)
    ensures L1Split(d) == L1Fields(d % 0x10, d / 0x10 % 2, d / 0x20 % 0x20, d / 0x400 % 4, d / 0x1000 % 8,
                                   d / 0x8000 % 2, d / 0x1_0000)
  {
    assert d / 0x10 / 2 == d / 0x20;
    assert d / 0x20 / 0x20 == d / 0x400;
    assert d / 0x400 / 4 == d / 0x1000;
    assert d / 0x1000 / 8 == d / 0x8000;
    assert d / 0x8000 / 2 == d / 0x1_0000;
  }

  lemma LargeBits(d: u32)
    ensures LargeSplit(d) == LargeFields(d % 0x10, d / 0x10 % 4, d / 0x40 % 8, d / 0x200 % 2, d / 0x400 % 0x20,
                                         d / 0x8000 % 2, d / 0x1_0000)
  {
    assert d / 0x10 / 4 == d / 0x40;
    assert d / 0x40 / 8 == d / 0x200;
    assert d / 0x200 / 2 == d / 0x400;
    assert d / 0x400 / 0x20 == d / 0x8000;
    assert d / 0x8000 / 2 == d / 0x1_0000;
  }

  lemma SmallBits(d: u32)
    ensures SmallSplit(d) == SmallFields(d % 2, d / 2 % 8, d / 0x10 % 4, d / 0x40 % 8, d / 0x200 % 2,
                                         d / 0x400 % 4, d / 0x1000)
  {
    assert d / 2 / 8 == d / 0x10;
    assert d / 0x10 / 4 == d / 0x40;
    assert d / 0x40 / 8 == d / 0x200;
    assert d / 0x200 / 2 == d / 0x400;
    assert d / 0x400 / 4 == d / 0x1000;
  }

  predicate Bit(d: u32, n: nat)
    requires n > 0
  {
    d / n % 2 == 1
  }

  /** The address with its offset in a region of n bytes replaced. */
  function Moved(d: u32, n: nat, va: u32): int
    requires n > 0
  {
    d - d % n + va % n
  }

  /** What a permission consists of: 1 if the address can be read, 2 if it can be written, and 4
      if it can be executed. */
  function Rights(read: bool, write: bool, execute: bool): nat {
    (if read then 1 else 0) + (if write then 2 else 0) + (if execute then 4 else 0)
  }

  lemma PermIs(ap: nat, apx: nat, xn: nat)
    requires ap < 4 && apx < 2 && xn < 2
    ensures UserPerm(ap, apx, xn) == Rights(ap >= 2, ap == 3 && apx == 0, ap >= 2 && xn == 0)
  {
  }

  /** Where the kernel sees the table of a coarse descriptor: the code takes bits 10 to 30. */
  lemma TableOf(d: u32)
    ensures L2Base(d) == (d % 0x8000_0000 - d % 0x400 - 0x4000_0000) % 0x1_0000_0000
  {
    var v: int := d;
    var q := v / 0x400 % 0x20_0000;
    assert v / 0x400 == 0x20_0000 * (v / 0x400 / 0x20_0000) + q;
    assert v == 0x8000_0000 * (v / 0x400 / 0x20_0000) + 0x400 * q + v % 0x400;
    assert v % 0x8000_0000 == 0x400 * q + v % 0x400;
  }

  /** The second-level descriptor that a coarse descriptor d leads to for an address. */
  ghost predicate LeadsTo(t: Tables, d: u32, va: u32, e: u32) {
    var b := (d % 0x8000_0000 - d % 0x400 - 0x4000_0000) % 0x1_0000_0000;
    b in t.l2 && |t.l2[b]| == 0x100 && e == t.l2[b][va / 0x1000 % 0x100]
  }

  lemma LowTwoBits(d: u32)
    ensures d % 0x10 % 4 == d % 4
  {
  }

  lemma Bit18(d: u32)
    ensures d / 0x1_0000 / 4 % 2 == 1 <==> Bit(d, 0x4_0000)
  {
  }

  lemma L1TypeBits(d: u32)
    ensures L1Type(d) ==
      match d % 4
      case 0 => TranslationFault
      case 1 => CoarsePageTable
      case 2 => if Bit(d, 0x4_0000) then Supersection else Section
      case _ => Reserved
  {
    L1Bits(d);
    LowTwoBits(d);
    Bit18(d);
    hide L1Split, Bit;
  }

  lemma Leads(t: Tables, va: u32)
    requires WellFormed(t) && t.l1[va / 0x10_0000] % 4 == 1
    ensures L1Type(L1Entry(t, va)) == CoarsePageTable
    ensures LeadsTo(t, t.l1[va / 0x10_0000], va, L2Entry(t, va))
  {
    var d := t.l1[va / 0x10_0000];
    L1TypeBits(d);
    TableOf(d);
    hide L1Type, L2Base;
    assert d in t.l1;
  }

  lemma AccessBits(d: u32, n: nat)
    requires n in {0x10, 0x400}
    ensures var ap := d / n % 4; (ap >= 2 <==> Bit(d, 2 * n)) && (ap == 3 <==> Bit(d, 2 * n) && Bit(d, n))
  {
    TwoBits(d / n);
    Halved(d, n);
  }

  lemma TwoBits(q: nat)
    ensures (q % 4 >= 2 <==> q / 2 % 2 == 1) && (q % 4 == 3 <==> q / 2 % 2 == 1 && q % 2 == 1)
  {
  }

  lemma Halved(d: u32, n: nat)
    requires n in {0x10, 0x400}
    ensures d / (2 * n) == d / n / 2
  {
    if n == 0x10 { assert d / 0x10 / 2 == d / 0x20; } else { assert d / 0x400 / 2 == d / 0x800; }
  }

  /** The permissions of a page whose execute-never bit has the value xn. */
  function PageRights(e: u32, xn: nat): nat
    requires xn > 0
  {
    Rights(Bit(e, 0x20), Bit(e, 0x20) && Bit(e, 0x10) && !Bit(e, 0x200), Bit(e, 0x20) && !Bit(e, xn))
  }

  lemma LargePageIs(e: u32, va: u32)
    ensures LargeSplit(e).addr * 0x1_0000 + va % 0x1_0000 == Moved(e, 0x1_0000, va)
    ensures UserPerm(LargeSplit(e).ap, LargeSplit(e).apx, LargeSplit(e).xn) == PageRights(e, 0x8000)
  {
    LargeBits(e);
    AccessBits(e, 0x10);
    hide LargeSplit, UserPerm;
    PermIs(e / 0x10 % 4, e / 0x200 % 2, e / 0x8000 % 2);
  }

  lemma SmallPageIs(e: u32, va: u32)
    ensures SmallSplit(e).addr * 0x1000 + va % 0x1000 == Moved(e, 0x1000, va)
    ensures UserPerm(SmallSplit(e).ap, SmallSplit(e).apx, SmallSplit(e).xn) == PageRights(e, 1)
  {
    SmallBits(e);
    AccessBits(e, 0x10);
    hide SmallSplit, UserPerm;
    PermIs(e / 0x10 % 4, e / 0x200 % 2, e % 2);
  }

  /** The second-level walkers from the bits of the descriptor. */
  lemma PagesRead(e: u32, va: u32)
    ensures match e % 4
      case 0 => L2GetPA(e, va) == 0 && L2GetPerm(e) == 0
      case 1 => L2GetPA(e, va) == Moved(e, 0x1_0000, va) && L2GetPerm(e) == PageRights(e, 0x8000)
      case _ => L2GetPA(e, va) == Moved(e, 0x1000, va) && L2GetPerm(e) == PageRights(e, 1)
  {
    LargePageIs(e, va);
    SmallPageIs(e, va);
    hide LargeSplit, SmallSplit, UserPerm, Moved, PageRights;
  }

  /** The walkers from the bits of the descriptors. Within a section of 1 MB, a supersection of
      16 MB, a large page of 64 KB and a small page of 4 KB the offset is kept; everything else
      is unmapped. What can be read has the upper access bit, what can be written has both and
      not apx, which supersections lack, and what can be executed has xn clear. */
  lemma WalkersRead(t: Tables, va: u32)
    requires WellFormed(t)
    ensures var d, pa, perm := t.l1[va / 0x10_0000], GetPAFromVA(t, va), GetAddressUserPerm(t, va);
      match d % 4
      case 1 => exists e :: LeadsTo(t, d, va, e) && pa == L2GetPA(e, va) && perm == L2GetPerm(e)
      case 2 =>
        && pa == Moved(d, if Bit(d, 0x4_0000) then 0x100_0000 else 0x10_0000, va)
        && perm == Rights(Bit(d, 0x800), Bit(d, 0x800) && Bit(d, 0x400) && (Bit(d, 0x4_0000) || !Bit(d, 0x8000)),
                          Bit(d, 0x800) && !Bit(d, 0x10))
      case _ => pa == 0 && perm == 0
  {
    var d := t.l1[va / 0x10_0000];
    if d % 4 == 1 {
      Leads(t, va);
      hide LeadsTo, L1Type, L2GetPA, L2GetPerm;
      assert LeadsTo(t, d, va, L2Entry(t, va));
    } else {
      SectionTranslates(d, va);
      hide L1Split, L1Type, UserPerm, Bit, Moved, Rights;
      L1TypeBits(d);
    }
  }

  /** Two mapped addresses with the same descriptors, in one region of its size, are translated
      with the same difference. */
  lemma RegionMoves(t: Tables, va: u32, va': u32, n: nat)
    requires WellFormed(t) && L1Entry(t, va) == L1Entry(t, va') && Mapped(t, va)
    requires L1Type(L1Entry(t, va)) == CoarsePageTable ==> L2Entry(t, va) == L2Entry(t, va')
    requires n == match L1Type(L1Entry(t, va))
             case CoarsePageTable => (if L2Type(L2Entry(t, va)) == LargePage then 0x1_0000 else 0x1000)
             case Supersection => 0x100_0000
             case _ => 0x10_0000
    requires va / n == va' / n
    ensures GetPAFromVA(t, va) - GetPAFromVA(t, va') == va - va'
  {
    OffsetsMove(va, va', n);
    hide L1Type, L1Split, LargeSplit, SmallSplit;
  }

  lemma OffsetsMove(va: u32, va': u32, n: nat)
    requires n > 0 && va / n == va' / n
    ensures va % n - va' % n == va - va'
  {
    assert va == n * (va / n) + va % n && va' == n * (va' / n) + va' % n;
  }

  lemma SectionTranslates(d: u32, va: u32)
    ensures L1Split(d).high / 0x10 * 0x10_0000 + va % 0x10_0000 == Moved(d, 0x10_0000, va)
    ensures L1Split(d).high / 0x100 * 0x100_0000 + va % 0x100_0000 == Moved(d, 0x100_0000, va)
    ensures var r, w, x := Bit(d, 0x800), Bit(d, 0x800) && Bit(d, 0x400), Bit(d, 0x800) && !Bit(d, 0x10);
      && UserPerm(L1Split(d).ap, L1Split(d).apx, L1Split(d).xn) == Rights(r, w && !Bit(d, 0x8000), x)
      && UserPerm(L1Split(d).ap, 0, L1Split(d).xn) == Rights(r, w, x)
  {
    L1Bits(d);
    AccessBits(d, 0x400);
    Regions(d);
    hide L1Split, UserPerm;
    PermIs(d / 0x400 % 4, d / 0x8000 % 2, d / 0x10 % 2);
    PermIs(d / 0x400 % 4, 0, d / 0x10 % 2);
  }

  lemma Regions(d: u32)
    ensures d / 0x1_0000 / 0x10 * 0x10_0000 == d - d % 0x10_0000
    ensures d / 0x1_0000 / 0x100 * 0x100_0000 == d - d % 0x100_0000
  {
  }

  // ----- the pass over all tables -----

  /** One of the first n entries points to the second-level table b. */
  ghost predicate Referenced(t: Tables, n: nat, b: u32)
    requires n <= |t.l1|
  {
    exists i :: 0 <= i < n && L1Type(t.l1[i]) == CoarsePageTable && L2Base(t.l1[i]) == b
  }

  function RwxAll(s: seq<u32>, n: nat): (r: seq<u32>)
    requires n <= |s|
    ensures |r| == |s|
  {
    seq(|s|, i requires 0 <= i < |s| => if i < n then RwxL2(s[i]) else s[i])
  }

  /** The tables after the pass has seen the first n first-level entries. */
  ghost function AfterPass(t: Tables, n: nat): (r: Tables)
    requires n <= |t.l1|
    ensures |r.l1| == |t.l1| && r.l2.Keys == t.l2.Keys
  {
    Tables(seq(|t.l1|, i requires 0 <= i < |t.l1| => if i < n then RwxL1(t.l1[i]) else t.l1[i]),
           map b | b in t.l2 :: if Referenced(t, n, b) then RwxAll(t.l2[b], |t.l2[b]|) else t.l2[b])
  }

  lemma PassKeepsWellFormed(t: Tables, n: nat)
    requires WellFormed(t) && n <= 0x1000
    ensures WellFormed(AfterPass(t, n))
  {
    hide L1Split;
    var r := AfterPass(t, n);
    forall d <- r.l1 | L1Type(d) == CoarsePageTable ensures L2Base(d) in r.l2 {
      var i :| 0 <= i < |t.l1| && r.l1[i] == d;
      RwxL1Fields(t.l1[i]);
      assert t.l1[i] in t.l1;
    }
  }

  /** The entries for an address after the pass are the rewritten ones. */
  lemma PassEntries(t: Tables, va: u32)
    requires WellFormed(t) && va < 0x4000_0000
    ensures var r := AfterPass(t, 0x400);
      && WellFormed(r) && L1Entry(r, va) == RwxL1(L1Entry(t, va))
      && L1Type(L1Entry(r, va)) == L1Type(L1Entry(t, va))
      && (L1Type(L1Entry(t, va)) == CoarsePageTable ==> L2Entry(r, va) == RwxL2(L2Entry(t, va)))
  {
    PassKeepsWellFormed(t, 0x400);
    var d := L1Entry(t, va);
    RwxL1Fields(d);
    hide L1Split, L2Type;
    if L1Type(d) == CoarsePageTable { assert Referenced(t, 0x400, L2Base(d)); }
  }

  /** The pass changes no translation. */
  lemma PassKeepsPA(t: Tables, va: u32)
    requires WellFormed(t) && va < 0x4000_0000
    ensures WellFormed(AfterPass(t, 0x400)) && GetPAFromVA(AfterPass(t, 0x400), va) == GetPAFromVA(t, va)
  {
    hide AfterPass, WellFormed, RwxL1, RwxL2, L1Type, L2Type, L1Split, LargeSplit, SmallSplit;
    PassEntries(t, va);
    RwxL1Fields(L1Entry(t, va));
    if L1Type(L1Entry(t, va)) == CoarsePageTable { RwxL2Fields(L2Entry(t, va)); }
  }

  /** Afterwards everything that is mapped is readable, writable and executable by the user. */
  lemma PassGrantsAll(t: Tables, va: u32)
    requires WellFormed(t) && va < 0x4000_0000
    ensures WellFormed(AfterPass(t, 0x400))
    ensures GetAddressUserPerm(AfterPass(t, 0x400), va) == if Mapped(t, va) then 7 else 0
  {
    hide AfterPass, WellFormed, RwxL1, RwxL2, L1Type, L1Split, LargeSplit, SmallSplit;
    PassEntries(t, va);
    RwxL1Fields(L1Entry(t, va));
    if L1Type(L1Entry(t, va)) == CoarsePageTable { RwxL2Fields(L2Entry(t, va)); }
  }

  lemma PassKeepsReferences(t: Tables, n: nat, b: u32)
    requires |t.l1| == 0x1000 && n <= 0x1000
    ensures Referenced(AfterPass(t, n), n, b) <==> Referenced(t, n, b)
  {
    hide L1Type, L2Base;
    var r := AfterPass(t, n);
    forall i | 0 <= i < n
      ensures L1Type(r.l1[i]) == L1Type(t.l1[i])
      ensures L1Type(t.l1[i]) == CoarsePageTable ==> r.l1[i] == t.l1[i]
    {
      RwxL1Fields(t.l1[i]);
    }
    if Referenced(t, n, b) {
      var i :| 0 <= i < n && L1Type(t.l1[i]) == CoarsePageTable && L2Base(t.l1[i]) == b;
      assert L1Type(r.l1[i]) == CoarsePageTable && L2Base(r.l1[i]) == b;
    }
  }

  lemma RwxAllTwice(s: seq<u32>)
    ensures RwxAll(RwxAll(s, |s|), |s|) == RwxAll(s, |s|)
  {
    hide L2Type;
    forall i | 0 <= i < |s| ensures RwxAll(RwxAll(s, |s|), |s|)[i] == RwxAll(s, |s|)[i] { RwxL2Fields(s[i]); }
  }

  /** A second pass changes nothing, and no descriptor ever changes its type. */
  lemma PassIdempotent(t: Tables)
    requires WellFormed(t)
    ensures AfterPass(AfterPass(t, 0x400), 0x400) == AfterPass(t, 0x400)
    ensures forall i :: 0 <= i < 0x1000 ==> L1Type(AfterPass(t, 0x400).l1[i]) == L1Type(t.l1[i])
    ensures forall b, i :: b in t.l2 && 0 <= i < 0x100 ==> L2Type(AfterPass(t, 0x400).l2[b][i]) == L2Type(t.l2[b][i])
  {
    hide L1Type, L2Base, L2Type;
    var r := AfterPass(t, 0x400);
    forall i | 0 <= i < 0x1000 ensures L1Type(r.l1[i]) == L1Type(t.l1[i]) && RwxL1(RwxL1(t.l1[i])) == RwxL1(t.l1[i]) {
      RwxL1Fields(t.l1[i]);
    }
    forall b, i | b in t.l2 && 0 <= i < 0x100
      ensures L2Type(r.l2[b][i]) == L2Type(t.l2[b][i])
    {
      RwxL2Fields(t.l2[b][i]);
    }
    forall b | b in t.l2 ensures AfterPass(r, 0x400).l2[b] == r.l2[b] {
      PassKeepsReferences(t, 0x400, b);
      RwxAllTwice(t.l2[b]);
    }
    assert AfterPass(r, 0x400).l1 == r.l1;
    assert AfterPass(r, 0x400).l2 == r.l2;
  }

  /** One more first-level entry has been seen. */
  lemma NextEntry(t: Tables, n: nat)
    requires WellFormed(t) && n < 0x1000
    ensures AfterPass(t, n).l1[n] == t.l1[n]
    ensures AfterPass(t, n + 1).l1 == AfterPass(t, n).l1[n := RwxL1(t.l1[n])]
    ensures L1Type(t.l1[n]) != CoarsePageTable ==> AfterPass(t, n + 1).l2 == AfterPass(t, n).l2
    ensures L1Type(t.l1[n]) == CoarsePageTable ==>
      var b := L2Base(t.l1[n]);
      b in t.l2 && AfterPass(t, n + 1).l2 == AfterPass(t, n).l2[b := RwxAll(AfterPass(t, n).l2[b], 0x100)]
  {
    hide L1Type, L2Base, RwxL1;
    var r, s, d := AfterPass(t, n), AfterPass(t, n + 1), t.l1[n];
    assert d in t.l1;
    forall b | b in t.l2 && !(L1Type(d) == CoarsePageTable && L2Base(d) == b)
      ensures Referenced(t, n + 1, b) <==> Referenced(t, n, b)
    {
      if Referenced(t, n + 1, b) {
        var i :| 0 <= i < n + 1 && L1Type(t.l1[i]) == CoarsePageTable && L2Base(t.l1[i]) == b;
        assert i != n;
      }
    }
    if L1Type(d) == CoarsePageTable {
      var b := L2Base(d);
      assert Referenced(t, n + 1, b);
      RwxAllTwice(t.l2[b]);
      assert s.l2 == r.l2[b := RwxAll(r.l2[b], 0x100)];
    } else {
      assert s.l2 == r.l2;
    }
  }

  class MmuTables {
    const l1: array<u32>
    var l2: map<u32, seq<u32>>

    constructor (l1: array<u32>, l2: map<u32, seq<u32>>)
      ensures this.l1 == l1 && this.l2 == l2
    {
      this.l1, this.l2 := l1, l2;
    }

    ghost function View(): Tables
      reads this, l1
    {
      Tables(l1[..], l2)
    }

    /** The pass over one second-level table. */
    method L2RwxForAll(b: u32)
      requires b in l2 && |l2[b]| == 0x100
      modifies this`l2
      ensures l2 == old(l2)[b := RwxAll(old(l2)[b], 0x100)]
    {
      hide L2Type;
      var table := l2[b];
      for i := 0 to 0x100
        invariant |table| == 0x100 && table == RwxAll(l2[b], i)
      {
        var d := table[i];
        match L2Type(d) {
          case LargePage => table := table[i := LargeSplit(d).(xn := 0, apx := 0, ap := 3).Raw()];
          case SmallPage => table := table[i := SmallSplit(d).(xn := 0, apx := 0, ap := 3).Raw()];
          case _ =>
        }
        assert table == RwxAll(l2[b], i + 1);
      }
      l2 := l2[b := table];
    }

    /** The pass over the first 1024 entries, which map the addresses below 0x40000000. */
    method L1RwxForAll()
      requires WellFormed(View())
      modifies this`l2, l1
      ensures View() == AfterPass(old(View()), 0x400)
    {
      hide L1Type, L2Base, L1Split, L1Fields.Raw;
      ghost var t := View();
      for i := 0 to 0x400
        invariant l1[..] == AfterPass(t, i).l1 && l2 == AfterPass(t, i).l2
      {
        NextEntry(t, i);
        var d := l1[i];
        assert d == t.l1[i];
        match L1Type(d) {
          case CoarsePageTable => L2RwxForAll(L2Base(d));
          case Section => l1[i] := L1Split(d).(xn := 0, apx := 0, ap := 3).Raw();
          case Supersection => l1[i] := L1Split(d).(xn := 0, ap := 3).Raw();
          case _ =>
        }
      }
    }

    /** Boot: core 0 maps the kernel extension page by page; every core then enters the
        supersections of physical memory and the extension's table into its own L1 table. */
    method RelocateAndSetup(coreId: nat, basePA: u32, tablePA: u32, pages: nat)
      requires l1.Length == 0x1000 && Bootable(basePA, tablePA, pages)
      modifies this`l2, l1
      ensures View() == Boot(old(View()), coreId, basePA, tablePA, pages)
    {
      ghost var t := View();
      if coreId == 0 {
        var table := seq(0x100, _ => 0);
        for page := 0 to pages
          invariant table == PageTable(basePA, page)
        {
          table := table[page := PageDescriptor(basePA, page)];
          assert table == PageTable(basePA, page + 1);
        }
        l2 := l2[KernelVa(tablePA) := table];
      }
      for step := 0 to 0x30
        invariant l1[..] == BootL1(t.l1, 0x10 * step) && l2 == Boot(t, coreId, basePA, tablePA, pages).l2
      {
        for i := 0 to 0x10
          invariant l1[..] == BootL1(t.l1, 0x10 * step + i) && l2 == Boot(t, coreId, basePA, tablePA, pages).l2
        {
          l1[i + 0x800 + 0x10 * step] := PhysicalDescriptor(step);
          assert l1[..] == BootL1(t.l1, 0x10 * step + i + 1);
        }
      }
      l1[0x700] := tablePA + 1;
      assert l1[..] == Boot(t, coreId, basePA, tablePA, pages).l1;
      assert l2 == Boot(t, coreId, basePA, tablePA, pages).l2;
    }
  }

  // ----- the tables at boot -----

  /** The extension fits one second-level table, and both lie where their addresses can be stored. */
  predicate Bootable(basePA: u32, tablePA: u32, pages: nat) {
    && basePA % 0x1000 == 0 && pages <= 0x100 && basePA + 0x1000 * pages <= 0x1_0000_0000
    && tablePA % 0x400 == 0 && tablePA < 0x8000_0000
  }

  /** A supersection of strongly ordered memory: 0x40C02 and the address. */
  function PhysicalDescriptor(step: nat): u32
    requires step < 0x30
  {
    step * 0x100_0000 + 0x4_0C02
  }

  /** An extended small page: 0x596 and the address. */
  function PageDescriptor(basePA: u32, page: nat): u32
    requires page < 0x100 && basePA % 0x1000 == 0 && basePA + 0x1000 * page < 0x1_0000_0000
  {
    var base: int := basePA;
    base + 0x1000 * page + 0x596
  }

  function PageTable(basePA: u32, pages: nat): (r: seq<u32>)
    requires basePA % 0x1000 == 0 && pages <= 0x100 && basePA + 0x1000 * pages <= 0x1_0000_0000
    ensures |r| == 0x100
  {
    seq(0x100, i requires 0 <= i < 0x100 => if i < pages then PageDescriptor(basePA, i) else 0)
  }

  function BootL1(l1: seq<u32>, n: nat): (r: seq<u32>)
    requires |l1| == 0x1000 && n <= 0x300
    ensures |r| == 0x1000
  {
    seq(0x1000, i requires 0 <= i < 0x1000 =>
      if 0x800 <= i < 0x800 + n then PhysicalDescriptor((i - 0x800) / 0x10) else l1[i])
  }

  function Boot(t: Tables, coreId: nat, basePA: u32, tablePA: u32, pages: nat): (r: Tables)
    requires |t.l1| == 0x1000 && Bootable(basePA, tablePA, pages)
  {
    Tables(BootL1(t.l1, 0x300)[0x700 := tablePA + 1],
           if coreId == 0 then
             t.l2[KernelVa(tablePA) := PageTable(basePA, pages)]
           else t.l2)
  }

  lemma PhysicalFields(step: nat)
    requires step < 0x30
    ensures L1Split(PhysicalDescriptor(step)) == L1Fields(2, 0, 0, 3, 0, 0, 0x100 * step + 4)
    ensures L1Type(PhysicalDescriptor(step)) == Supersection
  {
    L1SplitRaw(L1Fields(2, 0, 0, 3, 0, 0, 0x100 * step + 4));
  }

  lemma PageFields(basePA: u32, page: nat)
    requires page < 0x100 && basePA % 0x1000 == 0 && basePA + 0x1000 * page < 0x1_0000_0000
    ensures SmallSplit(PageDescriptor(basePA, page)) == SmallFields(0, 3, 1, 6, 0, 1, basePA / 0x1000 + page)
    ensures L2Type(PageDescriptor(basePA, page)) == SmallPage
  {
    var q := basePA / 0x1000;
    var f := SmallFields(0, 3, 1, 6, 0, 1, q + page);
    assert basePA == 0x1000 * q;
    assert f.Raw() == 0x1000 * (q + page) + 0x596;
    SmallSplitRaw(f);
    SmallType(f);
  }

  lemma TableDescriptor(tablePA: u32)
    requires tablePA % 0x400 == 0 && tablePA < 0x8000_0000
    ensures L1Type(tablePA + 1) == CoarsePageTable && L2Base(tablePA + 1) == KernelVa(tablePA)
  {
    var q := tablePA / 0x400;
    assert tablePA == 0x400 * q;
    assert (tablePA + 1) / 0x400 == q && q % 0x20_0000 == q;
    assert (tablePA + 1) % 0x10 == 1;
  }

  lemma BootKeepsWellFormed(t: Tables, coreId: nat, basePA: u32, tablePA: u32, pages: nat)
    requires WellFormed(t) && Bootable(basePA, tablePA, pages) && (coreId != 0 ==> KernelVa(tablePA) in t.l2)
    ensures WellFormed(Boot(t, coreId, basePA, tablePA, pages))
  {
    var r := Boot(t, coreId, basePA, tablePA, pages);
    TableDescriptor(tablePA);
    hide L1Type, L2Base;
    forall d <- r.l1 | L1Type(d) == CoarsePageTable ensures L2Base(d) in r.l2 {
      var i :| 0 <= i < 0x1000 && r.l1[i] == d;
      if 0x800 <= i < 0xB00 {
        PhysicalFields((i - 0x800) / 0x10);
        assert false;
      } else if i != 0x700 {
        assert d == t.l1[i];
      }
    }
  }

  /** Physical memory below 0x30000000 appears at addr | 0x80000000 with full user permission. */
  lemma BootMapsPhysical(t: Tables, coreId: nat, basePA: u32, tablePA: u32, pages: nat, pa: u32)
    requires WellFormed(t) && Bootable(basePA, tablePA, pages) && (coreId != 0 ==> KernelVa(tablePA) in t.l2)
    requires pa < 0x3000_0000
    ensures var r := Boot(t, coreId, basePA, tablePA, pages);
      WellFormed(r) && GetPAFromVA(r, 0x8000_0000 + pa) == pa && GetAddressUserPerm(r, 0x8000_0000 + pa) == 7
  {
    BootKeepsWellFormed(t, coreId, basePA, tablePA, pages);
    var r, va := Boot(t, coreId, basePA, tablePA, pages), 0x8000_0000 + pa;
    var step := pa / 0x100_0000;
    PhysicalFields(step);
    assert va / 0x10_0000 - 0x800 == pa / 0x10_0000 && pa / 0x10_0000 / 0x10 == step;
    assert L1Entry(r, va) == PhysicalDescriptor(step);
    assert (0x100 * step + 4) / 0x100 == step;
  }

  lemma ExtensionIndices(off: nat)
    requires off < 0x10_0000
    ensures var va := 0x7000_0000 + off;
      va / 0x10_0000 == 0x700 && va / 0x1000 % 0x100 == off / 0x1000 && va % 0x1000 == off % 0x1000
  {
    var page := off / 0x1000;
    assert (0x7000_0000 + off) / 0x1000 == 0x7_0000 + page;
  }

  lemma EmptyEntry()
    ensures L2Type(0) == TranslationFault
  {
  }

  /** The extension appears at 0x70000000 on every core, out of reach of the user; the rest of its
      megabyte is unmapped. The cores share the table of its pages, which core 0 has filled. */
  lemma BootMapsExtension(t: Tables, coreId: nat, basePA: u32, tablePA: u32, pages: nat, off: nat)
    requires WellFormed(t) && Bootable(basePA, tablePA, pages) && off < 0x10_0000
    requires coreId != 0 ==> KernelVa(tablePA) in t.l2 && t.l2[KernelVa(tablePA)] == PageTable(basePA, pages)
    ensures var r := Boot(t, coreId, basePA, tablePA, pages);
      && WellFormed(r)
      && Mapped(r, 0x7000_0000 + off) == (off < 0x1000 * pages)
      && GetPAFromVA(r, 0x7000_0000 + off) == (if off < 0x1000 * pages then basePA + off else 0)
      && GetAddressUserPerm(r, 0x7000_0000 + off) == 0
  {
    BootKeepsWellFormed(t, coreId, basePA, tablePA, pages);
    TableDescriptor(tablePA);
    var r, va, page := Boot(t, coreId, basePA, tablePA, pages), 0x7000_0000 + off, off / 0x1000;
    ExtensionIndices(off);
    assert L1Entry(r, va) == tablePA + 1;
    hide L1Type, L2Type, SmallSplit, LargeSplit, L1Split;
    if off < 0x1000 * pages {
      PageFields(basePA, page);
      assert L2Entry(r, va) == PageDescriptor(basePA, page);
    } else {
      assert L2Entry(r, va) == 0;
      EmptyEntry();
    }
  }
}
