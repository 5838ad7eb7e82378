/** The AES driver (arm9/source/crypto.c): batches pushed through the engine's
    two FIFOs, with the chaining value carried from batch to batch. */
module Aes {
  import opened Machine
  import opened Words
  import opened Counter
  import opened Fifo

  // ----- modes of operation -----

  /** The block cipher under the selected key. */
  datatype Cipher = Cipher(encrypt: Block -> Block, decrypt: Block -> Block)

  datatype Mode = CbcDecrypt | CbcEncrypt | Ctr | EcbDecrypt | EcbEncrypt

  predicate Chained(m: Mode) {
    m != EcbDecrypt && m != EcbEncrypt
  }

  /** What the engine does with one block in a mode. */
  function StepOf(c: Cipher, m: Mode): Step<Block> {
    match m
    case CbcDecrypt => Step((chain: Block, x: Block) => XorBlock(c.decrypt(x), chain), (chain: Block, x: Block) => x)
    case CbcEncrypt => Step((chain: Block, x: Block) => c.encrypt(XorBlock(x, chain)),
                            (chain: Block, x: Block) => c.encrypt(XorBlock(x, chain)))
    case Ctr => Step((chain: Block, x: Block) => XorBlock(x, c.encrypt(chain)),
                    (chain: Block, x: Block) => AddBlock(chain, 1))
    case EcbDecrypt => Step((chain: Block, x: Block) => c.decrypt(x), (chain: Block, x: Block) => chain)
    case EcbEncrypt => Step((chain: Block, x: Block) => c.encrypt(x), (chain: Block, x: Block) => chain)
  }

  lemma EcbIsStateless(c: Cipher, m: Mode)
    requires !Chained(m)
    ensures Stateless(StepOf(c, m))
  {
  }

  // ----- one-shot modes of NIST SP 800-38A -----

  function Previous(iv: Block, ys: seq<Block>, i: nat): Block
    requires i <= |ys|
  {
    if i == 0 then iv else ys[i - 1]
  }

  /** Section 6.5: each block is combined with the encryption of its own counter block. */
  ghost predicate IsCtr(c: Cipher, t: Block, xs: seq<Block>, ys: seq<Block>) {
    |ys| == |xs| && forall i :: 0 <= i < |xs| ==> ys[i] == XorBlock(xs[i], c.encrypt(AddBlock(t, i)))
  }

  /** Section 6.2: ys is the CBC encryption of xs, each block combined with the previous
      ciphertext block before it is encrypted. */
  ghost predicate IsCbcEncryption(c: Cipher, iv: Block, xs: seq<Block>, ys: seq<Block>) {
    |ys| == |xs| && forall i :: 0 <= i < |xs| ==> ys[i] == c.encrypt(XorBlock(xs[i], Previous(iv, ys, i)))
  }

  /** Section 6.2: xs is the CBC decryption of ys, each decrypted block combined with the
      previous ciphertext block. */
  ghost predicate IsCbcDecryption(c: Cipher, iv: Block, ys: seq<Block>, xs: seq<Block>) {
    |xs| == |ys| && forall i :: 0 <= i < |xs| ==> xs[i] == XorBlock(c.decrypt(ys[i]), Previous(iv, ys, i))
  }

  lemma {:induction false} ChainOfCtr(c: Cipher, t: Block, xs: seq<Block>, n: nat)
    requires n <= |xs|
    ensures ChainAt(StepOf(c, Ctr), t, xs, n) == AddBlock(t, n)
  {
    if n != 0 {
      ChainOfCtr(c, t, xs, n - 1);
      AddBlockTwice(t, n - 1, 1);
    }
  }

  lemma CtrIsOneShot(c: Cipher, t: Block, xs: seq<Block>)
    ensures IsCtr(c, t, xs, Out(StepOf(c, Ctr), t, xs))
  {
    forall i | 0 <= i < |xs|
      ensures Out(StepOf(c, Ctr), t, xs)[i] == XorBlock(xs[i], c.encrypt(AddBlock(t, i)))
    {
      ChainOfCtr(c, t, xs, i);
    }
  }

  /** In CBC encryption the chaining value is the last output block. */
  lemma ChainOfCbc(c: Cipher, iv: Block, xs: seq<Block>, n: nat)
    requires n <= |xs|
    ensures ChainAt(StepOf(c, CbcEncrypt), iv, xs, n) == Previous(iv, Out(StepOf(c, CbcEncrypt), iv, xs), n)
    ensures ChainAt(StepOf(c, CbcDecrypt), iv, xs, n) == Previous(iv, xs, n)
  {
  }

  lemma CbcEncryptIsOneShot(c: Cipher, iv: Block, xs: seq<Block>)
    ensures IsCbcEncryption(c, iv, xs, Out(StepOf(c, CbcEncrypt), iv, xs))
  {
    var ys := Out(StepOf(c, CbcEncrypt), iv, xs);
    forall i | 0 <= i < |xs| ensures ys[i] == c.encrypt(XorBlock(xs[i], Previous(iv, ys, i))) {
      ChainOfCbc(c, iv, xs, i);
    }
  }

  lemma CbcDecryptIsOneShot(c: Cipher, iv: Block, ys: seq<Block>)
    ensures IsCbcDecryption(c, iv, ys, Out(StepOf(c, CbcDecrypt), iv, ys))
  {
    var xs := Out(StepOf(c, CbcDecrypt), iv, ys);
    forall i | 0 <= i < |ys| ensures xs[i] == XorBlock(c.decrypt(ys[i]), Previous(iv, ys, i)) {
      ChainOfCbc(c, iv, ys, i);
    }
  }

  /** CTR mode undoes itself. */
  lemma CtrRoundTrip(c: Cipher, t: Block, xs: seq<Block>)
    ensures Out(StepOf(c, Ctr), t, Out(StepOf(c, Ctr), t, xs)) == xs
  {
    var ys := Out(StepOf(c, Ctr), t, xs);
    var zs := Out(StepOf(c, Ctr), t, ys);
    CtrIsOneShot(c, t, xs);
    CtrIsOneShot(c, t, ys);
    forall i | 0 <= i < |xs| ensures zs[i] == xs[i] {
      XorBlockInverts(xs[i], c.encrypt(AddBlock(t, i)));
    }
  }

  /** CBC decryption undoes CBC encryption. */
  lemma CbcRoundTrip(c: Cipher, iv: Block, xs: seq<Block>)
    requires forall x: Block :: c.decrypt(c.encrypt(x)) == x
    ensures Out(StepOf(c, CbcDecrypt), iv, Out(StepOf(c, CbcEncrypt), iv, xs)) == xs
  {
    var ys := Out(StepOf(c, CbcEncrypt), iv, xs);
    var zs := Out(StepOf(c, CbcDecrypt), iv, ys);
    CbcEncryptIsOneShot(c, iv, xs);
    CbcDecryptIsOneShot(c, iv, ys);
    forall i | 0 <= i < |xs| ensures zs[i] == xs[i] {
      XorBlockInverts(xs[i], Previous(iv, ys, i));
      assert c.decrypt(ys[i]) == XorBlock(xs[i], Previous(iv, ys, i));
    }
  }

  // ----- the driver -----

  /** The counter register, whose word order is always least significant first. */
  method SetIv(e: Engine<Block>, iv: array<u32>, l: Layout)
    requires iv.Length == 4
    modifies e`pipe
    ensures e.pipe.chain == Value(iv[..], l) && e.pipe == old(e.pipe).(chain := e.pipe.chain)
  {
    var r0, r1, r2, r3 := iv[0], iv[1], iv[2], iv[3];
    if l.normalOrder {
      r0, r1, r2, r3 := iv[3], iv[2], iv[1], iv[0];
    }
    if l.bigEndian {
      r0, r1, r2, r3 := ByteSwap(r0), ByteSwap(r1), ByteSwap(r2), ByteSwap(r3);
    }
    e.pipe := e.pipe.(chain := Limbs(r0, r1, r2, r3));
    NumberOfFour(LimbsOf(iv[..], l));
  }

  /** Save a data block as the next chaining value. */
  method SaveBlock(x: Block, iv: array<u32>, l: Layout)
    requires iv.Length == 4
    modifies iv
    ensures Value(iv[..], l) == x
  {
    var w := BlockWords(x);
    iv[0], iv[1], iv[2], iv[3] := w[0], w[1], w[2], w[3];
    BlockWordsValue(x);
    assert iv[..] == w;
    ChangeLayout(iv, MEMORY, l);
  }

  /** The value that the driver saves is the chaining value for the next batch. */
  lemma SavedValue(c: Cipher, m: Mode, chain: Block, a: seq<Block>, dst: nat, xs: seq<Block>)
    requires xs != [] && dst + |xs| <= |a|
    ensures m == CbcDecrypt ==> Chain(StepOf(c, m), chain, xs) == xs[|xs| - 1]
    ensures m == CbcEncrypt ==>
      Chain(StepOf(c, m), chain, xs) == Overwritten(a, dst, Out(StepOf(c, m), chain, xs))[dst + |xs| - 1]
    ensures m == Ctr ==> Chain(StepOf(c, m), chain, xs) == AddBlock(chain, |xs|)
  {
    ChainOfCbc(c, chain, xs, |xs|);
    ChainOfCtr(c, chain, xs, |xs|);
  }

  /** One round of the driver's loop. */
  method RunBatch(e: Engine<Block>, ghost c: Cipher, mem: array<Block>, dst: nat, src: nat, n: nat,
                  iv: array<u32>, m: Mode, l: Layout,
                  ghost a: seq<Block>, ghost xs: seq<Block>, ghost chain: Block)
    requires 0 < n <= BATCH_LIMIT && dst + n <= mem.Length && src + n <= mem.Length && Apart(dst, src, n)
    requires iv.Length == 4 && e.pipe.Idle() && e.step == StepOf(c, m)
    requires a == mem[..] && xs == a[src..src + n] && chain == Value(iv[..], l)
    modifies e, mem, iv
    ensures e.pipe.Idle() && e.step == StepOf(c, m)
    ensures mem[..] == Overwritten(a, dst, Out(StepOf(c, m), chain, xs))
    ensures Chained(m) ==> Value(iv[..], l) == Chain(StepOf(c, m), chain, xs)
    ensures !Chained(m) ==> iv[..] == old(iv[..])
  {
    assert (iv as object) != mem;
    hide StepOf, Value, Out, Chain, Overwritten, Apart, Chained, Pipe.Idle;
    StartChain(e, c, iv, m, l, xs, chain);
    SaveSource(mem, src + n - 1, iv, m, l);
    ghost var saved := Value(iv[..], l);
    assert a[src + n - 1] == xs[|xs| - 1];
    AesBatch(e, mem, dst, src, n);
    SaveResult(mem, dst + n - 1, n, iv, m, l);
    IvIsReady(c, m, chain, a, dst, xs, saved, mem[..], Value(iv[..], l));
    OnlyChainedSave(m);
  }

  lemma OnlyChainedSave(m: Mode)
    ensures !Chained(m) ==> m != CbcDecrypt && m != CbcEncrypt && m != Ctr
    ensures m == EcbDecrypt || m == EcbEncrypt ==> !Chained(m)
  {
  }

  /** The value before the batch, the data after it, and the value at the end. */
  lemma IvIsReady(c: Cipher, m: Mode, chain: Block, a: seq<Block>, dst: nat, xs: seq<Block>,
                  saved: Block, b: seq<Block>, v: Block)
    requires xs != [] && dst + |xs| <= |a| && b == Overwritten(a, dst, Out(StepOf(c, m), chain, xs))
    requires saved == if m == CbcDecrypt then xs[|xs| - 1] else chain
    requires v == if m == CbcEncrypt then b[dst + |xs| - 1] else if m == Ctr then AddBlock(saved, |xs|) else saved
    ensures Chained(m) ==> v == Chain(StepOf(c, m), chain, xs)
  {
    hide StepOf, Out, Chain, Overwritten;
    SavedValue(c, m, chain, a, dst, xs);
  }

  /** The chained modes load the counter register; the others do not look at it. */
  method StartChain(e: Engine<Block>, ghost c: Cipher, iv: array<u32>, m: Mode, l: Layout,
                    ghost xs: seq<Block>, ghost chain: Block)
    requires iv.Length == 4 && e.step == StepOf(c, m) && chain == Value(iv[..], l)
    modifies e`pipe
    ensures Chained(m) ==> e.pipe.chain == chain
    ensures e.pipe.Idle() == old(e.pipe.Idle())
    ensures Out(e.step, e.pipe.chain, xs) == Out(e.step, chain, xs)
  {
    hide StepOf, Value, Out;
    if Chained(m) {
      SetIv(e, iv, l);
    } else {
      EcbIsStateless(c, m);
      StatelessOut(e.step, chain, e.pipe.chain, xs);
    }
  }

  /** Before a batch: CBC decryption needs the last block that will be overwritten. */
  method SaveSource(mem: array<Block>, at: nat, iv: array<u32>, m: Mode, l: Layout)
    requires at < mem.Length && iv.Length == 4
    modifies iv
    ensures m == CbcDecrypt ==> Value(iv[..], l) == mem[at]
    ensures m != CbcDecrypt ==> iv[..] == old(iv[..])
  {
    hide Value;
    if m == CbcDecrypt { SaveBlock(mem[at], iv, l); }
  }

  /** After a batch: CBC encryption goes on from the last block, CTR from the next counter. */
  method SaveResult(mem: array<Block>, at: nat, n: nat, iv: array<u32>, m: Mode, l: Layout)
    requires at < mem.Length && iv.Length == 4 && n <= BATCH_LIMIT
    modifies iv
    ensures m == CbcEncrypt ==> Value(iv[..], l) == mem[at]
    ensures m == Ctr ==> Value(iv[..], l) == AddBlock(Value(old(iv[..]), l), n)
    ensures m != CbcEncrypt && m != Ctr ==> iv[..] == old(iv[..])
  {
    hide Value;
    if m == CbcEncrypt {
      SaveBlock(mem[at], iv, l);
    } else if m == Ctr {
      AdvanceCounter(iv, n, l);
    }
  }

  /** One round, seen as progress. */
  method NextRun(e: Engine<Block>, ghost c: Cipher, mem: array<Block>, dst: nat, src: nat, count: nat,
                 iv: array<u32>, m: Mode, l: Layout,
                 done: nat, n: nat, ghost a: seq<Block>, ghost chain: Block, ghost ys: seq<Block>)
    requires dst + count <= |a| == mem.Length && src + count <= |a| && Apart(dst, src, count)
    requires done + n <= count && 0 < n <= BATCH_LIMIT
    requires iv.Length == 4 && e.pipe.Idle() && e.step == StepOf(c, m)
    requires ys == Out(StepOf(c, m), chain, a[src..src + count])
    requires Progressed(StepOf(c, m), Chained(m), chain, a, mem[..], Value(iv[..], l),
                        dst, a[src..src + count], ys, done)
    modifies e, mem, iv
    ensures e.pipe.Idle() && e.step == StepOf(c, m)
    ensures Progressed(StepOf(c, m), Chained(m), chain, a, mem[..], Value(iv[..], l),
                       dst, a[src..src + count], ys, done + n)
    ensures !Chained(m) ==> iv[..] == old(iv[..])
  {
    hide StepOf, Value, Out, Chain, Overwritten, Chained;
    ghost var f, b, v := StepOf(c, m), mem[..], Value(iv[..], l);
    ghost var next := b[src + done..src + done + n];
    SourceIntact(f, Chained(m), chain, a, b, v, dst, src, count, ys, done, n);
    RunBatch(e, c, mem, dst + done, src + done, n, iv, m, l, b, next, v);
    NextBatch(f, Chained(m), chain, a, b, v, mem[..], Value(iv[..], l), dst, a[src..src + count], ys, done, n, next);
  }

  const BATCH_LIMIT := 0xFFFF

  /** The driver, for any number of blocks: the result is that of the mode in one go, and
      for the chained modes iv is left ready for the data that follows. */
  method RunAes(e: Engine<Block>, c: Cipher, mem: array<Block>, dst: nat, src: nat, count: nat,
                iv: array<u32>, m: Mode, l: Layout)
    requires dst + count <= mem.Length && src + count <= mem.Length && (dst <= src || src + count <= dst)
    requires iv.Length == 4
    modifies e, mem, iv
    ensures mem[..] == Overwritten(old(mem[..]), dst,
                                   Out(StepOf(c, m), Value(old(iv[..]), l), old(mem[..])[src..src + count]))
    ensures Chained(m) ==>
      Value(iv[..], l) == Chain(StepOf(c, m), Value(old(iv[..]), l), old(mem[..])[src..src + count])
    ensures !Chained(m) ==> iv[..] == old(iv[..])
  {
    hide StepOf, Value, Out, Chain, Progressed, Overwritten;
    ghost var a, chain := mem[..], Value(iv[..], l);
    e.step, e.pipe := StepOf(c, m), Pipe(e.pipe.chain, [], [], [], []);
    ghost var ys := Out(StepOf(c, m), chain, a[src..src + count]);
    if !Chained(m) { EcbIsStateless(c, m); }
    NothingDone(StepOf(c, m), Chained(m), chain, a, dst, a[src..src + count], ys);
    var done := 0;
    while done != count
      invariant done <= count && e.step == StepOf(c, m) && e.pipe.Idle()
      invariant Progressed(StepOf(c, m), Chained(m), chain, a, mem[..], Value(iv[..], l),
                           dst, a[src..src + count], ys, done)
      invariant !Chained(m) ==> iv[..] == old(iv[..])
      decreases count - done
    {
      var blocks := if count - done >= BATCH_LIMIT then BATCH_LIMIT else count - done;
      NextRun(e, c, mem, dst, src, count, iv, m, l, done, blocks, a, chain, ys);
      done := done + blocks;
    }
    AllDone(StepOf(c, m), Chained(m), chain, a, mem[..], Value(iv[..], l), dst, a[src..src + count], ys);
  }
}
