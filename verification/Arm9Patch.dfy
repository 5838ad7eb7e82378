/** The rewriting of the Process9 routine that installs exception vectors
    (arm9/source/patches.c), so that the handlers already installed by
    arm9/source/exceptions.c survive it. */
module Arm9Patch {
  import opened Machine
  import Words
  import MemSearch

  const BASE: u32 := 0x0800_0000
  const NOP: u32 := 0xE1A0_0000        // mov r0, r0
  const FIRST_STORE: u32 := 0xE580_1000  // str r1, [r0]
  const END_MARK: u32 := 0xE3A0_1040     // mov r1, #0x40

  // ----- the instruction word of a store -----

  /** Offset, source register, base register with the load bit, write-back, byte, up and
      pre-index bits, and the condition with the instruction class. */
  datatype Fields = Fields(imm: nat, rd: nat, base: nat, w: nat, b: nat, u: nat, p: nat, top: nat)
  {
    predicate Fits() {
      imm < 0x1000 && rd < 0x10 && base < 0x20 && w < 2 && b < 2 && u < 2 && p < 2 && top < 0x80
    }

    function Raw(): u32
      requires Fits()
    {
      imm + 0x1000 * (rd + 0x10 * (base + 0x20 * (w + 2 * (b + 2 * (u + 2 * (p + 2 * top))))))
    }
  }

  function Split(d: u32): (f: Fields)
    ensures f.Fits()
  {
    var q1 := d / 0x1000;
    var q2 := q1 / 0x10;
    var q3 := q2 / 0x20;
    var q4 := q3 / 2;
    var q5 := q4 / 2;
    var q6 := q5 / 2;
    Fields(d % 0x1000, q1 % 0x10, q2 % 0x20, q3 % 2, q4 % 2, q5 % 2, q6 % 2, q6 / 2)
  }

  lemma SplitRaw(f: Fields)
    requires f.Fits()
    ensures Split(f.Raw()) == f
  {
    var q6 := f.p + 2 * f.top;
    var q5 := f.u + 2 * q6;
    var q4 := f.b + 2 * q5;
    var q3 := f.w + 2 * q4;
    var q2 := f.base + 0x20 * q3;
    var q1 := f.rd + 0x10 * q2;
    Digit4096(f.imm, q1);
    assert f.Raw() / 0x1000 == q1;
    Digit16(f.rd, q2);
    assert q1 / 0x10 == q2;
    Digit32(f.base, q3);
    assert q2 / 0x20 == q3;
    Digit2(f.w, q4);
    Digit2(f.b, q5);
    Digit2(f.u, q6);
    Digit2(f.p, f.top);
  }

  /** str rX, [r0, #imm](!) or str rX, [r0], #imm, always executed. */
  predicate IsStore(d: u32) {
    var f := Split(d);
    f.top == 0x72 && f.b == 0 && f.base == 0
  }

  /** The bits that are looked at: condition and class 0xE4 without the mode bits, a word store,
      through r0. */
  lemma StoreBits(d: u32)
    ensures IsStore(d) <==> d / 0x200_0000 == 0x72 && d / 0x40_0000 % 2 == 0 && d / 0x1_0000 % 0x20 == 0
    ensures var f := Split(d);
      && f.imm == d % 0x1000 && f.rd == d / 0x1000 % 0x10
      && f.w == d / 0x20_0000 % 2 && f.u == d / 0x80_0000 % 2 && f.p == d / 0x100_0000 % 2
  {
    assert d / 0x1000 / 0x10 == d / 0x1_0000;
    assert d / 0x1_0000 / 0x20 == d / 0x20_0000;
    assert d / 0x20_0000 / 2 == d / 0x40_0000;
    assert d / 0x40_0000 / 2 == d / 0x80_0000;
    assert d / 0x80_0000 / 2 == d / 0x100_0000;
    assert d / 0x100_0000 / 2 == d / 0x200_0000;
  }

  function Offset(f: Fields): int {
    var n: int := f.imm;
    if f.u == 1 then n else -n
  }

  // ----- what the processor does -----

  type Regs = nat -> u32

  /** r0, the other registers, and the words stored through r0 so far, as (value, address). */
  datatype Cpu = Cpu(r0: u32, regs: Regs, stores: seq<(u32, u32)>)

  /** Where a store goes, and r0 after it: a pre-indexed store uses the sum and keeps it if
      asked to, a post-indexed one uses r0 and always adds the offset afterwards. */
  function StoreAddress(f: Fields, r0: u32): u32 {
    if f.p == 1 then Wrap(r0 + Offset(f)) else r0
  }

  function NextR0(f: Fields, r0: u32): u32 {
    if f.p == 1 && f.w == 0 then r0 else Wrap(r0 + Offset(f))
  }

  /** One instruction. Those that are not stores through r0 neither use nor change r0: `other`
      gives their effect on the other registers. */
  function Exec(other: (u32, Regs) -> Regs, d: u32, s: Cpu): Cpu {
    if IsStore(d) then
      var f := Split(d);
      Cpu(NextR0(f, s.r0), s.regs, s.stores + [(if f.rd == 0 then s.r0 else s.regs(f.rd), StoreAddress(f, s.r0))])
    else if d == NOP then s
    else s.(regs := other(d, s.regs))
  }

  function Run(other: (u32, Regs) -> Regs, code: seq<u32>, s: Cpu): Cpu {
    if code == [] then s else Run(other, code[1..], Exec(other, code[0], s))
  }

  // ----- what the patch does -----

  /** The address and the next r0 as the patch computes them. */
  function PatchAddress(f: Fields, r0: u32): u32 {
    Wrap(r0 + if f.p == 1 || f.w == 0 then Offset(f) else 0)
  }

  function PatchR0(f: Fields, r0: u32): u32 {
    var addr := if f.p == 1 then PatchAddress(f, r0) else Wrap(PatchAddress(f, r0) + Offset(f));
    if f.w == 1 then addr else r0
  }

  /** Vectors' first words, and the whole IRQ and SVC vectors. */
  predicate Kept(addr: u32) {
    addr % 8 == 0 || addr == 0x0800_0004 || addr == 0x0800_0014
  }

  lemma KeptIs(addr: u32)
    ensures Kept(addr) <==> addr % 8 == 0 || addr == 0x0800_0004 || addr == 0x0800_0014
  {
  }

  /** str rX, [r0, #addr & 0xFFF] */
  function AbsoluteStore(rd: nat, addr: u32): Fields {
    Fields(addr % 0x1000, rd, 0, 0, 0, 1, 1, 0x72)
  }

  function Rewritten(d: u32, r0: u32): u32 {
    if !IsStore(d) then d
    else
      var f := Split(d);
      if Kept(PatchAddress(f, r0)) then AbsoluteStore(f.rd, PatchAddress(f, r0)).Raw() else NOP
  }

  function PatchNext(d: u32, r0: u32): u32 {
    if IsStore(d) then PatchR0(Split(d), r0) else r0
  }

  function RewriteAll(code: seq<u32>, r0: u32): (r: seq<u32>)
    ensures |r| == |code|
  {
    if code == [] then [] else [Rewritten(code[0], r0)] + RewriteAll(code[1..], PatchNext(code[0], r0))
  }

  /** The patch follows the processor exactly on pre-indexed stores, on those with the
      write-back bit, and on those without an offset. */
  lemma PatchTracksR0(f: Fields, r0: u32)
    requires f.Fits()
    ensures PatchAddress(f, r0) == StoreAddress(f, r0) && PatchR0(f, r0) == NextR0(f, r0)
      <==> f.p == 1 || f.w == 1 || f.imm == 0
  {
  }

  /** Stores to the words that are kept. */
  function Filter(stores: seq<(u32, u32)>): seq<(u32, u32)> {
    if stores == [] then []
    else
      var last := stores[|stores| - 1];
      Filter(stores[..|stores| - 1]) + if Kept(last.1) then [last] else []
  }

  /** What the patch relies on: an addressing form it follows, a target in the vector page,
      and not r0 as the value unless r0 still is what the patched code will find in it. */
  predicate StoreIsPatchable(f: Fields, r0: u32) {
    && (f.p == 1 || f.w == 1 || f.imm == 0)
    && BASE <= StoreAddress(f, r0) < BASE + 0x1000
    && (f.rd == 0 && Kept(StoreAddress(f, r0)) ==> r0 == BASE)
  }

  /** That is, the patch computes the address and the next r0 that the processor has. */
  lemma PatchableMeans(f: Fields, r0: u32)
    requires f.Fits()
    ensures StoreIsPatchable(f, r0) <==>
      && PatchAddress(f, r0) == StoreAddress(f, r0) && PatchR0(f, r0) == NextR0(f, r0)
      && 0x0800_0000 <= StoreAddress(f, r0) < 0x0800_1000
      && (f.rd == 0 && Kept(StoreAddress(f, r0)) ==> r0 == 0x0800_0000)
  {
    PatchTracksR0(f, r0);
  }

  predicate Patchable(code: seq<u32>, r0: u32) {
    code == [] ||
    ((IsStore(code[0]) ==> StoreIsPatchable(Split(code[0]), r0)) &&
     Patchable(code[1..], if IsStore(code[0]) then NextR0(Split(code[0]), r0) else r0))
  }

  lemma NopIsNoStore()
    ensures !IsStore(NOP)
  {
  }

  lemma AbsoluteStoreRuns(other: (u32, Regs) -> Regs, rd: nat, addr: u32, regs: Regs, stores: seq<(u32, u32)>)
    requires rd < 0x10 && BASE <= addr < BASE + 0x1000
    ensures AbsoluteStore(rd, addr).Fits()
    ensures Exec(other, AbsoluteStore(rd, addr).Raw(), Cpu(BASE, regs, stores))
         == Cpu(BASE, regs, stores + [(if rd == 0 then BASE else regs(rd), addr)])
  {
    var f := AbsoluteStore(rd, addr);
    SplitRaw(f);
    assert IsStore(f.Raw());
    PageAddress(addr);
    hide Split, IsStore, Fields.Raw;
  }

  lemma PageAddress(addr: u32)
    requires BASE <= addr < BASE + 0x1000
    ensures Wrap(BASE + addr % 0x1000) == addr
  {
  }

  lemma FilterSnoc(stores: seq<(u32, u32)>, x: (u32, u32))
    ensures Filter(stores + [x]) == Filter(stores) + if Kept(x.1) then [x] else []
  {
    assert (stores + [x])[..|stores|] == stores;
  }

  /** One rewritten instruction does what the original one did, except for the dropped stores. */
  lemma ExecRewritten(other: (u32, Regs) -> Regs, d: u32, s: Cpu)
    requires IsStore(d) ==> StoreIsPatchable(Split(d), s.r0)
    ensures Exec(other, Rewritten(d, s.r0), Cpu(BASE, s.regs, Filter(s.stores)))
         == Cpu(BASE, Exec(other, d, s).regs, Filter(Exec(other, d, s).stores))
    ensures PatchNext(d, s.r0) == Exec(other, d, s).r0
  {
    NopIsNoStore();
    if IsStore(d) {
      hide IsStore;
      var f := Split(d);
      PatchTracksR0(f, s.r0);
      var addr := StoreAddress(f, s.r0);
      FilterSnoc(s.stores, (if f.rd == 0 then s.r0 else s.regs(f.rd), addr));
      AbsoluteStoreRuns(other, f.rd, addr, s.regs, Filter(s.stores));
    }
  }

  /** The rewritten code, started with r0 at the vector page, performs the original code's
      stores in order, except those to words that are not kept. */
  lemma {:induction false} PatchPreservesMeaning(other: (u32, Regs) -> Regs, code: seq<u32>, s: Cpu)
    requires Patchable(code, s.r0)
    ensures Run(other, RewriteAll(code, s.r0), Cpu(BASE, s.regs, Filter(s.stores)))
         == Cpu(BASE, Run(other, code, s).regs, Filter(Run(other, code, s).stores))
  {
    if code != [] {
      ExecRewritten(other, code[0], s);
      hide Exec, Rewritten, IsStore;
      PatchPreservesMeaning(other, code[1..], Exec(other, code[0], s));
      var r := RewriteAll(code, s.r0);
      assert r[0] == Rewritten(code[0], s.r0) && r[1..] == RewriteAll(code[1..], PatchNext(code[0], s.r0));
    }
  }

  // ----- an example -----

  /** str r1, [r0]; str r1, [r0, #4]!; str r3, [r0, #8]!; str r4, [r0, #-12]; mov r1, #0x40 */
  function ExampleCode(): seq<u32> {
    [0xE580_1000, 0xE5A0_1004, 0xE5A0_3008, 0xE500_400C, 0xE3A0_1040]
  }

  /** One store of the example: what it becomes, and where r0 is after it. */
  lemma ExampleStore(f: Fields, r0: u32, addr: u32, next: u32)
    requires f.Fits() && f.top == 0x72 && f.b == 0 && f.base == 0 && f.p == 1 && f.rd != 0
    requires addr == Wrap(r0 + Offset(f)) && BASE <= addr < BASE + 0x1000 && next == if f.w == 1 then addr else r0
    ensures var d := f.Raw();
      && IsStore(d) && StoreIsPatchable(Split(d), r0) && NextR0(Split(d), r0) == next == PatchNext(d, r0)
      && Rewritten(d, r0) == if Kept(addr) then AbsoluteStore(f.rd, addr).Raw() else NOP
  {
    SplitRaw(f);
    hide Split, Fields.Raw;
  }

  lemma Cons(d: u32, rest: seq<u32>, r0: u32)
    ensures RewriteAll([d] + rest, r0) == [Rewritten(d, r0)] + RewriteAll(rest, PatchNext(d, r0))
    ensures Patchable([d] + rest, r0) <==> (IsStore(d) ==> StoreIsPatchable(Split(d), r0)) &&
                                           Patchable(rest, if IsStore(d) then NextR0(Split(d), r0) else r0)
  {
    hide Rewritten, PatchNext, IsStore, Split, StoreIsPatchable, NextR0;
    assert ([d] + rest)[0] == d && ([d] + rest)[1..] == rest;
  }

  ghost predicate Becomes(d: u32, r0: u32, e: u32, next: u32) {
    && IsStore(d) && StoreIsPatchable(Split(d), r0)
    && NextR0(Split(d), r0) == next == PatchNext(d, r0) && Rewritten(d, r0) == e
  }

  lemma Store1()
    ensures Becomes(0xE580_1000, 0x0800_0000, 0xE580_1000, 0x0800_0000)
  {
    ExampleStore(Fields(0, 1, 0, 0, 0, 1, 1, 0x72), 0x0800_0000, 0x0800_0000, 0x0800_0000);
  }

  lemma Store2()
    ensures Becomes(0xE5A0_1004, 0x0800_0000, 0xE580_1004, 0x0800_0004)
  {
    ExampleStore(Fields(4, 1, 0, 1, 0, 1, 1, 0x72), 0x0800_0000, 0x0800_0004, 0x0800_0004);
  }

  lemma Store3()
    ensures Becomes(0xE5A0_3008, 0x0800_0004, 0xE1A0_0000, 0x0800_000C)
  {
    ExampleStore(Fields(8, 3, 0, 1, 0, 1, 1, 0x72), 0x0800_0004, 0x0800_000C, 0x0800_000C);
  }

  lemma Store4()
    ensures Becomes(0xE500_400C, 0x0800_000C, 0xE580_4000, 0x0800_000C)
  {
    ExampleStore(Fields(12, 4, 0, 0, 0, 0, 1, 0x72), 0x0800_000C, 0x0800_0000, 0x0800_000C);
  }

  lemma Becoming(d: u32, rest: seq<u32>, r0: u32, e: u32, next: u32)
    requires Becomes(d, r0, e, next) && Patchable(rest, next)
    ensures RewriteAll([d] + rest, r0) == [e] + RewriteAll(rest, next) && Patchable([d] + rest, r0)
  {
    hide Rewritten, PatchNext, IsStore, Split, StoreIsPatchable, NextR0;
    Cons(d, rest, r0);
  }

  /** The first two stores are kept, in absolute form; the third goes to a handler's address and
      becomes mov r0, r0; the fourth goes back to the first word. */
  lemma ExampleRewritten()
    ensures Patchable(ExampleCode(), BASE)
    ensures RewriteAll(ExampleCode(), BASE) == [0xE580_1000, 0xE580_1004, 0xE1A0_0000, 0xE580_4000, 0xE3A0_1040]
  {
    LastWord();
    hide Becomes, Patchable, RewriteAll;
    Store1();
    Store2();
    Store3();
    Store4();
    var c4, c3 := [0xE500_400C, 0xE3A0_1040], [0xE5A0_3008, 0xE500_400C, 0xE3A0_1040];
    var c2 := [0xE5A0_1004, 0xE5A0_3008, 0xE500_400C, 0xE3A0_1040];
    assert c4 == [0xE500_400C] + [0xE3A0_1040] && c3 == [0xE5A0_3008] + c4;
    assert c2 == [0xE5A0_1004] + c3 && ExampleCode() == [0xE580_1000] + c2;
    Becoming(0xE500_400C, [0xE3A0_1040], 0x0800_000C, 0xE580_4000, 0x0800_000C);
    Becoming(0xE5A0_3008, c4, 0x0800_0004, 0xE1A0_0000, 0x0800_000C);
    Becoming(0xE5A0_1004, c3, 0x0800_0000, 0xE580_1004, 0x0800_0004);
    Becoming(0xE580_1000, c2, 0x0800_0000, 0xE580_1000, 0x0800_0000);
  }

  lemma LastWord()
    ensures forall r0: u32 :: RewriteAll([0xE3A0_1040], r0) == [0xE3A0_1040] && Patchable([0xE3A0_1040], r0)
  {
    assert !IsStore(0xE3A0_1040);
    forall r0: u32 ensures RewriteAll([0xE3A0_1040], r0) == [0xE3A0_1040] && Patchable([0xE3A0_1040], r0) {
      hide IsStore, Split;
      Cons(0xE3A0_1040, [], r0);
      assert [0xE3A0_1040] + [] == [0xE3A0_1040];
    }
  }

  // ----- what is left in memory -----

  /** The word at address a after the stores, in order. */
  function WordAfter(m: u32 -> u32, stores: seq<(u32, u32)>, a: u32): u32 {
    if stores == [] then m(a)
    else
      var last := stores[|stores| - 1];
      if last.1 == a then last.0 else WordAfter(m, stores[..|stores| - 1], a)
  }

  /** Kept words end up as the original code leaves them, all others stay as they were. */
  lemma {:induction false} OnlyKeptWordsChange(m: u32 -> u32, stores: seq<(u32, u32)>, a: u32)
    ensures WordAfter(m, Filter(stores), a) == if Kept(a) then WordAfter(m, stores, a) else m(a)
  {
    if stores != [] {
      var front, last := stores[..|stores| - 1], stores[|stores| - 1];
      OnlyKeptWordsChange(m, front, a);
      if Kept(last.1) {
        assert (Filter(front) + [last])[..|Filter(front)|] == Filter(front);
      } else {
        assert Filter(stores) == Filter(front);
      }
    }
  }

  const JUMP: u32 := 0xE51F_F004  // ldr pc, [pc, #-4]

  /** The vector page after the handlers of the table have been installed. */
  function Installed(m: u32 -> u32, table: seq<u32>): u32 -> u32
    requires |table| == 6
  {
    (a: u32) =>
      if BASE <= a < BASE + 48 && a % 4 == 0 && table[(a - BASE) / 8] != 0 then
        if a % 8 == 0 then JUMP else table[(a - BASE) / 8]
      else m(a)
  }

  /** The installation writes the veneers' words as Installed says. */
  method InstallArm9Handlers(dst: array<u32>, table: seq<u32>, ghost m: u32 -> u32)
    requires dst.Length == 12 && |table| == 6
    requires forall k: nat :: k < 12 ==> dst[k] == m(BASE + 4 * k)
    modifies dst
    ensures forall k: nat :: k < 12 ==> dst[k] == Installed(m, table)(BASE + 4 * k)
  {
    for i := 0 to 6
      invariant forall k: nat :: k < 12 ==>
        dst[k] == if k / 2 < i then Installed(m, table)(BASE + 4 * k) else m(BASE + 4 * k)
    {
      if table[i] != 0 {
        dst[2 * i] := JUMP;
        dst[2 * i + 1] := table[i];
      }
      forall k: nat | k < 12 && k / 2 == i ensures dst[k] == Installed(m, table)(BASE + 4 * k) {
        VeneerWord(k);
      }
    }
  }

  /** An installed vector jumps to the address in its second word, which is its handler. */
  lemma Veneers(m: u32 -> u32, table: seq<u32>, i: nat)
    requires |table| == 6 && i < 6 && table[i] != 0
    ensures Installed(m, table)(0x0800_0000 + 8 * i) == 0xE51F_F004
    ensures Installed(m, table)(0x0800_0004 + 8 * i) == table[i]
  {
    VeneerWord(2 * i);
    VeneerWord(2 * i + 1);
  }

  /** No other address is touched. */
  lemma NoOtherWord(m: u32 -> u32, table: seq<u32>, a: u32)
    requires |table| == 6
    requires a < 0x0800_0000 || 0x0800_0030 <= a || a % 4 != 0 || table[(a - 0x0800_0000) / 8] == 0
    ensures Installed(m, table)(a) == m(a)
  {
  }

  lemma VeneerWord(k: nat)
    requires k < 12
    ensures (BASE + 4 * k) % 4 == 0 && (BASE + 4 * k - BASE) / 8 == k / 2
    ensures (BASE + 4 * k) % 8 == 0 <==> k % 2 == 0
  {
  }

  lemma HandlersSpared(m: u32 -> u32, table: seq<u32>, stores: seq<(u32, u32)>, i: nat)
    requires |table| == 6 && i < 6 && table[i] != 0 && i != 0 && i != 2
    ensures WordAfter(Installed(m, table), Filter(stores), BASE + 8 * i + 4) == table[i]
  {
    var a: u32 := 0x0800_0004 + 8 * i;
    OnlyKeptWordsChange(Installed(m, table), stores, a);
    Veneers(m, table, i);
    KeptIs(a);
    hide Installed, WordAfter, Kept, Filter;
    assert a % 8 == 4;
  }

  /** After the patched code has run, every installed handler but those of the IRQ and SVC
      vectors is in place. A kept word is what the original code leaves there, and any other
      one is as it was. */
  lemma HandlersSurvive(other: (u32, Regs) -> Regs, code: seq<u32>, regs: Regs, m: u32 -> u32, table: seq<u32>)
    requires |table| == 6 && Patchable(code, BASE)
    ensures var stores := Run(other, RewriteAll(code, BASE), Cpu(BASE, regs, [])).stores;
      && (forall i :: 0 <= i < 6 && i != 0 && i != 2 && table[i] != 0 ==>
                        WordAfter(Installed(m, table), stores, BASE + 8 * i + 4) == table[i])
      && (forall a: u32 :: WordAfter(Installed(m, table), stores, a) ==
                             if a % 8 == 0 || a == 0x0800_0004 || a == 0x0800_0014 then
                               WordAfter(Installed(m, table), Run(other, code, Cpu(BASE, regs, [])).stores, a)
                             else Installed(m, table)(a))
  {
    hide Patchable, Run, RewriteAll, Installed, WordAfter, Kept;
    PatchPreservesMeaning(other, code, Cpu(BASE, regs, []));
    var stores := Run(other, code, Cpu(BASE, regs, [])).stores;
    forall i | 0 <= i < 6 && i != 0 && i != 2 && table[i] != 0
      ensures WordAfter(Installed(m, table), Filter(stores), BASE + 8 * i + 4) == table[i]
    {
      HandlersSpared(m, table, stores, i);
    }
    forall a: u32
      ensures WordAfter(Installed(m, table), Filter(stores), a) ==
        if a % 8 == 0 || a == 0x0800_0004 || a == 0x0800_0014 then WordAfter(Installed(m, table), stores, a)
        else Installed(m, table)(a)
    {
      OnlyKeptWordsChange(Installed(m, table), stores, a);
      KeptIs(a);
    }
  }

  /** A post-indexed store with an offset is followed wrongly: here the second word of the
      vector page is reported, which the processor does not write. */
  lemma PostIndexedIsMissed()
    ensures var f := Fields(4, 1, 0, 0, 0, 1, 0, 0x72);
      f.Fits() && IsStore(f.Raw()) && StoreAddress(f, BASE) == BASE && PatchAddress(f, BASE) == BASE + 4
      && PatchR0(f, BASE) != NextR0(f, BASE)
  {
    SplitRaw(Fields(4, 1, 0, 0, 0, 1, 0, 0x72));
  }

  // ----- the patch itself -----

  /** Between the last first-store at or before `found` and the next end mark. */
  ghost predicate Bounds(code: seq<u32>, found: nat, first: nat, end: nat) {
    && first <= found < |code| && first <= end < |code|
    && code[first] == FIRST_STORE && (forall k :: first < k <= found ==> code[k] != FIRST_STORE)
    && code[end] == END_MARK && (forall k :: first <= k < end ==> code[k] != END_MARK)
  }

  /** One word, and the patch's r0 after it. */
  method RewriteWord(code: array<u32>, off: nat, r0: u32) returns (next: u32)
    requires off < code.Length
    modifies code
    ensures code[off] == Rewritten(old(code[off]), r0) && next == PatchNext(old(code[off]), r0)
    ensures forall k :: 0 <= k < code.Length && k != off ==> code[k] == old(code[k])
  {
    hide Split, PatchAddress, PatchR0;
    next := r0;
    if IsStore(code[off]) {
      var f := Split(code[off]);
      var addr := PatchAddress(f, r0);
      next := PatchR0(f, r0);
      if !Kept(addr) {
        code[off] := NOP;
      } else {
        code[off] := AbsoluteStore(f.rd, addr).Raw();
      }
    }
  }

  method FindFirstStore(code: array<u32>, found: nat, ghost first: nat) returns (off: nat)
    requires first <= found < code.Length && code[first] == FIRST_STORE
    requires forall k :: first < k <= found ==> code[k] != FIRST_STORE
    ensures off == first
  {
    off := found;
    while code[off] != FIRST_STORE
      invariant first <= off <= found
      decreases off
    {
      off := off - 1;
    }
  }

  /** The bytes of the code, and those that are searched for in it. */
  function Bytes(code: seq<u32>): (b: seq<u8>)
    ensures |b| == 4 * |code|
  {
    seq(4 * |code|, k requires 0 <= k < 4 * |code| => Words.Byte(code[k / 4], k % 4))
  }

  const PATTERN: seq<u8> := [0x80, 0xE5, 0x40, 0x1C]

  /** Where the pattern is first found; it begins in the upper half of an instruction. */
  ghost predicate FoundIn(code: seq<u32>, first: nat, end: nat) {
    match MemSearch.Naive(Bytes(code), PATTERN, 0)
    case None => true
    case Some(t) => t % 4 == 2 && Bounds(code, t / 4, first, end)
  }

  /** The pattern across two stores, the first one and the next, and the end mark after them. */
  lemma ExampleFound()
    ensures FoundIn([0xE580_1000, 0xE5A0_1C40, 0xE3A0_1040], 0, 2)
  {
    var code := [0xE580_1000, 0xE5A0_1C40, 0xE3A0_1040];
    var b := Bytes(code);
    assert b[0] == 0x00 && b[1] == 0x10 && b[2] == 0x80 && b[3] == 0xE5 && b[4] == 0x40 && b[5] == 0x1C;
    hide Bytes;
    assert b[0..4][0] != PATTERN[0] && b[1..5][0] != PATTERN[0];
    assert b[2..6] == PATTERN;
  }

  /** Code without the pattern may be any. */
  lemma NotFound(code: seq<u32>, first: nat, end: nat)
    requires forall k: nat :: !MemSearch.MatchAt(Bytes(code), PATTERN, k)
    ensures FoundIn(code, first, end)
  {
    MemSearch.NaiveIsLeftmost(Bytes(code), PATTERN, 0);
  }

  /** Without the pattern the code is refused and left alone; otherwise exactly the words from
      the first store to the end mark are rewritten. */
  method PatchExceptionHandlersInstall(code: array<u32>, ghost first: nat, ghost end: nat) returns (result: u32)
    requires code.Length > 0 && FoundIn(code[..], first, end)
    modifies code
    ensures result == 1 <==> forall k: nat :: !MemSearch.MatchAt(Bytes(old(code[..])), PATTERN, k)
    ensures result == 1 ==> code[..] == old(code[..])
    ensures result != 1 ==> result == 0 && first <= end < code.Length
    ensures result != 1 ==> code[..] == old(code[..first]) + RewriteAll(old(code[first..end]), BASE) + old(code[end..])
  {
    hide *;
    assert |PATTERN| == 4 by { Four(); }
    ghost var before := code[..];
    var temp := MemSearch.MemSearch(Bytes(code[..]), PATTERN);
    MemSearch.NaiveIsLeftmost(Bytes(code[..]), PATTERN, 0);
    FoundMeans(before, first, end);
    if temp == None { return 1; }
    RewriteFrom(code, (temp.value - 2) / 4, first, end);
    return 0;
  }

  /** From the word at `found` back to the first store, and on to the end mark. */
  method RewriteFrom(code: array<u32>, found: nat, ghost first: nat, ghost end: nat)
    requires Bounds(code[..], found, first, end)
    modifies code
    ensures first <= end < code.Length
    ensures code[..] == old(code[..first]) + RewriteAll(old(code[first..end]), BASE) + old(code[end..])
  {
    hide *;
    BoundsMean(code[..], found, first, end);
    ghost var before, part := code[..], code[first..end];
    var off := FindFirstStore(code, found, first);
    RewriteStores(code, off, end, part);
    SpliceFromElements(before, code[..], first, end, RewriteAll(part, BASE));
  }

  lemma Four()
    ensures |PATTERN| == 4
  {
  }

  lemma FoundMeans(code: seq<u32>, first: nat, end: nat)
    requires FoundIn(code, first, end)
    ensures var t := MemSearch.Naive(Bytes(code), PATTERN, 0);
      t != None ==> t.value >= 2 && Bounds(code, (t.value - 2) / 4, first, end)
  {
  }

  lemma BoundsMean(code: seq<u32>, found: nat, first: nat, end: nat)
    requires Bounds(code, found, first, end)
    ensures first <= found < |code| && first <= end < |code| && code[first] == FIRST_STORE
    ensures forall k :: first < k <= found ==> code[k] != FIRST_STORE
    ensures code[end] == END_MARK && forall k :: first <= k < end ==> code[k] != END_MARK
  {
  }

  /** The loop from the first store to the end mark. */
  method RewriteStores(code: array<u32>, first: nat, ghost end: nat, ghost part: seq<u32>)
    requires first <= end < code.Length && part == code[first..end]
    requires code[end] == END_MARK && forall k :: first <= k < end ==> code[k] != END_MARK
    modifies code
    ensures |RewriteAll(part, BASE)| == end - first
    ensures forall k :: 0 <= k < code.Length ==>
      code[k] == if first <= k < end then RewriteAll(part, BASE)[k - first] else old(code[k])
  {
    hide Rewritten, PatchNext;
    ghost var before, after := code[..], RewriteAll(part, BASE);
    var off := first;
    var r0: u32 := BASE;
    hide RewriteAll, R0After;
    NothingBefore(part);
    while code[off] != END_MARK
      invariant first <= off <= end
      invariant forall k :: 0 <= k < code.Length ==> code[k] == if first <= k < off then after[k - first] else before[k]
      invariant r0 == R0After(part[..off - first], BASE)
      decreases end - off
    {
      assert code[off] == part[off - first];
      RewriteAt(part, off - first, BASE);
      r0 := RewriteWord(code, off, r0);
      off := off + 1;
    }
  }

  lemma NothingBefore(part: seq<u32>)
    ensures R0After(part[..0], BASE) == BASE
  {
  }

  lemma SpliceFromElements(a: seq<u32>, b: seq<u32>, first: nat, end: nat, mid: seq<u32>)
    requires first <= end <= |a| == |b| && |mid| == end - first
    requires forall k :: 0 <= k < |a| ==> b[k] == if first <= k < end then mid[k - first] else a[k]
    ensures b == a[..first] + mid + a[end..]
  {
  }

  /** The patch's r0 after some code. */
  function R0After(code: seq<u32>, r0: u32): u32 {
    if code == [] then r0 else R0After(code[1..], PatchNext(code[0], r0))
  }

  lemma {:induction false} RewriteAt(code: seq<u32>, k: nat, r0: u32)
    requires k < |code|
    ensures RewriteAll(code, r0)[k] == Rewritten(code[k], R0After(code[..k], r0))
    ensures R0After(code[..k + 1], r0) == PatchNext(code[k], R0After(code[..k], r0))
  {
    if k == 0 {
      assert code[..1][1..] == [];
    } else {
      RewriteAt(code[1..], k - 1, PatchNext(code[0], r0));
      assert code[..k][1..] == code[1..][..k - 1];
      assert code[..k + 1][1..] == code[1..][..k];
    }
  }
}
