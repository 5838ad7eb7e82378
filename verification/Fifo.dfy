/** Modes of operation block by block, and the engine's two FIFOs that the driver keeps
    filled and drained while the engine works on its own (arm9/source/crypto.c). */
module Fifo {
  // ----- a mode of operation, block by block -----

  /** The output for a block, and the next chaining value, from the current chaining value. */
  datatype Step<!B> = Step(out: (B, B) -> B, next: (B, B) -> B)

  /** The chaining value after the first n of the blocks xs. */
  function ChainAt<B>(f: Step<B>, chain: B, xs: seq<B>, n: nat): B
    requires n <= |xs|
  {
    if n == 0 then chain else f.next(ChainAt(f, chain, xs, n - 1), xs[n - 1])
  }

  function Chain<B>(f: Step<B>, chain: B, xs: seq<B>): B {
    ChainAt(f, chain, xs, |xs|)
  }

  /** The output for the blocks xs in one go. */
  function Out<B>(f: Step<B>, chain: B, xs: seq<B>): (ys: seq<B>)
    ensures |ys| == |xs|
  {
    seq(|xs|, i requires 0 <= i < |xs| => f.out(ChainAt(f, chain, xs, i), xs[i]))
  }

  lemma {:induction false} ChainSplits<B>(f: Step<B>, chain: B, xs: seq<B>, j: nat, n: nat, k: nat)
    requires j + n <= |xs| && k <= n
    ensures ChainAt(f, ChainAt(f, chain, xs, j), xs[j..j + n], k) == ChainAt(f, chain, xs, j + k)
  {
    if k != 0 {
      ChainSplits(f, chain, xs, j, n, k - 1);
      assert xs[j..j + n][k - 1] == xs[j + k - 1];
    }
  }

  lemma OutSplitsAt<B>(f: Step<B>, chain: B, xs: seq<B>, j: nat, n: nat, k: nat)
    requires j + n <= |xs| && k < n
    ensures Out(f, ChainAt(f, chain, xs, j), xs[j..j + n])[k] == Out(f, chain, xs)[j + k]
  {
    var v, next := ChainAt(f, chain, xs, j), xs[j..j + n];
    ChainSplits(f, chain, xs, j, n, k);
    assert next[k] == xs[j + k];
    assert Out(f, v, next)[k] == f.out(ChainAt(f, v, next, k), next[k]);
  }

  /** Any run of blocks processed on its own gives its part of the one-go output if the
      chaining value is carried over. */
  lemma OutSplits<B>(f: Step<B>, chain: B, xs: seq<B>, j: nat, n: nat)
    requires j + n <= |xs|
    ensures Out(f, ChainAt(f, chain, xs, j), xs[j..j + n]) == Out(f, chain, xs)[j..j + n]
    ensures Chain(f, ChainAt(f, chain, xs, j), xs[j..j + n]) == ChainAt(f, chain, xs, j + n)
  {
    ChainSplits(f, chain, xs, j, n, n);
    var part := Out(f, ChainAt(f, chain, xs, j), xs[j..j + n]);
    var slice := Out(f, chain, xs)[j..j + n];
    forall k | 0 <= k < n ensures part[k] == slice[k] {
      OutSplitsAt(f, chain, xs, j, n, k);
    }
  }

  // ----- words -----

  /** A word is named by the block it is part of and its place there. */
  datatype Word<B> = Word(block: B, place: nat)

  function Words<B>(xs: seq<B>): (w: seq<Word<B>>)
    ensures |w| == 4 * |xs|
  {
    seq(4 * |xs|, i requires 0 <= i < 4 * |xs| => Word(xs[i / 4], i % 4))
  }

  /** The four words of one block, in order. */
  predicate IsBlock<B(==)>(ws: seq<Word<B>>) {
    |ws| == 4 && ws == Words([ws[0].block])
  }

  /** The engine works on words in the order of their places only. */
  lemma BlockInOrder<B>(ws: seq<Word<B>>)
    ensures IsBlock(ws) <==> |ws| == 4 && forall k :: 0 <= k < 4 ==> ws[k] == Word(ws[0].block, k)
  {
    if |ws| == 4 {
      var v := Words([ws[0].block]);
      forall k | 0 <= k < 4 ensures v[k] == Word(ws[0].block, k) { WordAt([ws[0].block], 0, k); }
    }
  }

  lemma WordAt<B>(xs: seq<B>, t: nat, k: nat)
    requires t < |xs| && k < 4
    ensures Words(xs)[4 * t + k] == Word(xs[t], k)
  {
    assert (4 * t + k) / 4 == t && (4 * t + k) % 4 == k;
  }

  lemma BlockAt<B>(xs: seq<B>, t: nat)
    requires t < |xs|
    ensures Words(xs)[4 * t..4 * t + 4] == Words([xs[t]]) && IsBlock(Words([xs[t]]))
    ensures Words([xs[t]])[0].block == xs[t]
  {
    var w, v := Words(xs)[4 * t..4 * t + 4], Words([xs[t]]);
    forall k | 0 <= k < 4 ensures w[k] == v[k] == Word(xs[t], k) {
      WordAt(xs, t, k);
      WordAt([xs[t]], 0, k);
    }
  }

  // ----- the engine -----

  const FIFO_WORDS := 16

  /** The inside of the engine: the chaining value, the words that have been pushed, those that it
      has taken in for the block it works on next, those of the result that have not been handed
      out yet, and those that can be popped. */
  datatype Pipe<B(==)> = Pipe(chain: B, input: seq<Word<B>>, latch: seq<Word<B>>, result: seq<Word<B>>,
                              output: seq<Word<B>>)
  {
    predicate Sized() {
      |input| <= FIFO_WORDS && |latch| <= 4 && |result| <= 4 && |output| <= FIFO_WORDS
    }

    predicate Idle() {
      input == [] && latch == [] && result == [] && output == []
    }

    predicate CanTake() {
      input != [] && |latch| < 4
    }

    predicate CanWork() {
      IsBlock(latch) && result == []
    }

    predicate CanEmit() {
      result != [] && |output| < FIFO_WORDS
    }

    predicate CanMove() {
      CanTake() || CanWork() || CanEmit()
    }

    function Take(): Pipe<B>
      requires CanTake()
    {
      this.(input := input[1..], latch := latch + [input[0]])
    }

    function Work(f: Step<B>): Pipe<B>
      requires CanWork()
    {
      var x := latch[0].block;
      this.(chain := f.next(chain, x), latch := [], result := Words([f.out(chain, x)]))
    }

    function Emit(): Pipe<B>
      requires CanEmit()
    {
      this.(result := result[1..], output := output + [result[0]])
    }

    /** How much there is to do: every move makes it less. */
    function Load(): nat {
      4 * |input| + 3 * |latch| + |result|
    }
  }

  /** One move of the engine. */
  ghost predicate Moves<B>(f: Step<B>, p: Pipe<B>, q: Pipe<B>) {
    (p.CanTake() && q == p.Take()) || (p.CanWork() && q == p.Work(f)) || (p.CanEmit() && q == p.Emit())
  }

  ghost predicate IsPath<B>(f: Step<B>, path: seq<Pipe<B>>) {
    path != [] && forall i :: 0 < i < |path| ==> Moves(f, path[i - 1], path[i])
  }

  /** The engine between register accesses. It works on its own; patience is how many more times
      it may be polled without having made a move although it could. */
  class Engine<B(==)> {
    var step: Step<B>
    var pipe: Pipe<B>
    var patience: nat

    constructor (step: Step<B>, chain: B)
      ensures this.step == step && pipe == Pipe(chain, [], [], [], [])
    {
      this.step, pipe, patience := step, Pipe(chain, [], [], [], []), 0;
    }

    /** Any move that is possible. */
    method Move()
      requires pipe.CanMove()
      modifies this`pipe
      ensures Moves(step, old(pipe), pipe)
    {
      if
      case pipe.CanTake() => pipe := pipe.Take();
      case pipe.CanWork() => pipe := pipe.Work(step);
      case pipe.CanEmit() => pipe := pipe.Emit();
    }

    /** Any number of moves, in any order, may have been made since the last access. */
    method Poll() returns (ghost path: seq<Pipe<B>>)
      modifies this
      ensures step == old(step) && IsPath(step, path) && path[0] == old(pipe) && path[|path| - 1] == pipe
      ensures |path| == 1 ==> patience <= old(patience)
      ensures |path| == 1 && pipe.CanMove() ==> patience < old(patience)
    {
      path := [pipe];
      var moves: nat :| moves >= 0;
      if moves == 0 && patience == 0 {
        moves := 1;
      } else if moves == 0 {
        patience := patience - 1;
      }
      while moves > 0 && pipe.CanMove()
        invariant step == old(step) && IsPath(step, path) && path[0] == old(pipe) && path[|path| - 1] == pipe
        invariant |path| == 1 ==> patience <= old(patience)
        invariant |path| == 1 && pipe.CanMove() ==> moves > 0 || patience < old(patience)
        decreases moves
      {
        Move();
        path, moves := path + [pipe], moves - 1;
        patience := *;
      }
    }

    method Push(w: Word<B>)
      modifies this`pipe
      ensures pipe == old(pipe).(input := old(pipe.input) + [w])
    {
      pipe := pipe.(input := pipe.input + [w]);
    }

    method Pop() returns (w: Word<B>)
      requires pipe.output != []
      modifies this`pipe
      ensures w == old(pipe.output)[0] && pipe == old(pipe).(output := old(pipe.output)[1..])
    {
      w := pipe.output[0];
      pipe := pipe.(output := pipe.output[1..]);
    }
  }

  // ----- what flows through the engine -----

  /** While the blocks xs, whose output is ys, are being processed: `pushed` words have entered,
      `worked` blocks have been worked on and `popped` words have left. */
  ghost predicate Flow<B>(f: Step<B>, chain0: B, xs: seq<B>, ys: seq<B>, pushed: int, worked: int, popped: int,
                              p: Pipe<B>) {
    && p.Sized() && 0 <= popped <= 4 * worked <= pushed <= 4 * |xs| && |ys| == |xs|
    && p.latch + p.input == Words(xs)[4 * worked..pushed]
    && p.output + p.result == Words(ys)[popped..4 * worked]
    && p.chain == ChainAt(f, chain0, xs, worked)
  }

  lemma FlowTakes<B>(f: Step<B>, chain0: B, xs: seq<B>, ys: seq<B>, pushed: int, worked: int, popped: int,
                         p: Pipe<B>)
    requires Flow(f, chain0, xs, ys, pushed, worked, popped, p) && p.CanTake()
    ensures Flow(f, chain0, xs, ys, pushed, worked, popped, p.Take())
  {
    assert p.Take().latch + p.Take().input == p.latch + p.input;
  }

  lemma FlowEmits<B>(f: Step<B>, chain0: B, xs: seq<B>, ys: seq<B>, pushed: int, worked: int, popped: int,
                         p: Pipe<B>)
    requires Flow(f, chain0, xs, ys, pushed, worked, popped, p) && p.CanEmit()
    ensures Flow(f, chain0, xs, ys, pushed, worked, popped, p.Emit())
  {
    assert p.Emit().output + p.Emit().result == p.output + p.result;
  }

  lemma FlowWorks<B>(f: Step<B>, chain0: B, xs: seq<B>, ys: seq<B>, pushed: int, worked: int, popped: int,
                     p: Pipe<B>)
    requires Flow(f, chain0, xs, ys, pushed, worked, popped, p) && p.CanWork() && ys == Out(f, chain0, xs)
    ensures Flow(f, chain0, xs, ys, pushed, worked + 1, popped, p.Work(f))
  {
    var t, x := 4 * worked, p.latch[0].block;
    BlockAt(xs, worked);
    BlockAt(ys, worked);
    hide Words, Out, IsBlock;
    FirstFour(p.latch, p.input, Words(xs), t, pushed);
    assert x == xs[worked];
    assert Words([f.out(p.chain, x)]) == Words(ys)[t..t + 4] by { assert f.out(p.chain, x) == ys[worked]; }
    LastFour(p.output, p.result, Words(ys), popped, t);
  }

  lemma FirstFour<W>(latch: seq<W>, input: seq<W>, words: seq<W>, t: int, end: int)
    requires |latch| == 4 && 0 <= t <= end <= |words| && latch + input == words[t..end]
    ensures t + 4 <= end && latch == words[t..t + 4] && [] + input == words[t + 4..end]
  {
    assert latch == (latch + input)[..4] && input == (latch + input)[4..];
  }

  lemma LastFour<W>(output: seq<W>, result: seq<W>, words: seq<W>, from: int, t: int)
    requires result == [] && 0 <= from <= t && t + 4 <= |words| && output + result == words[from..t]
    ensures output + words[t..t + 4] == words[from..t + 4]
  {
    assert output + result == output;
  }

  /** The FIFOs never hold more than sixteen words, and a block and a result are in flight at most. */
  lemma FlowFits<B>(f: Step<B>, chain0: B, xs: seq<B>, ys: seq<B>, pushed: int, worked: int, popped: int, p: Pipe<B>)
    requires Flow(f, chain0, xs, ys, pushed, worked, popped, p)
    ensures |p.input| <= 16 && |p.output| <= 16 && |p.latch| <= 4 && |p.result| <= 4
    ensures pushed - popped <= 40
  {
    assert |p.latch + p.input| == pushed - 4 * worked && |p.output + p.result| == 4 * worked - popped;
  }

  /** A path of moves keeps the flow, and every move lessens the load. */
  lemma {:induction false} FlowPath<B>(f: Step<B>, chain0: B, xs: seq<B>, ys: seq<B>, pushed: int, worked: int,
                                           popped: int, path: seq<Pipe<B>>)
    returns (worked': int)
    requires IsPath(f, path) && Flow(f, chain0, xs, ys, pushed, worked, popped, path[0]) && ys == Out(f, chain0, xs)
    ensures Flow(f, chain0, xs, ys, pushed, worked', popped, path[|path| - 1])
    ensures var p, q := path[0], path[|path| - 1];
      && |q.input| <= |p.input| && |q.output| >= |p.output| && q.Load() <= p.Load()
      && (|path| > 1 ==> q.Load() < p.Load())
    decreases |path|
  {
    hide Flow, Out;
    worked' := worked;
    if |path| > 1 {
      var p, q := path[0], path[1];
      assert Moves(f, path[1 - 1], path[1]);
      if p.CanTake() && q == p.Take() {
        FlowTakes(f, chain0, xs, ys, pushed, worked, popped, p);
      } else if p.CanWork() && q == p.Work(f) {
        FlowWorks(f, chain0, xs, ys, pushed, worked, popped, p);
        worked' := worked + 1;
      } else {
        FlowEmits(f, chain0, xs, ys, pushed, worked, popped, p);
      }
      assert forall i :: 0 < i < |path[1..]| ==> path[1..][i] == path[i + 1] && path[1..][i - 1] == path[i];
      worked' := FlowPath(f, chain0, xs, ys, pushed, worked', popped, path[1..]);
    }
  }

  lemma FlowPushes<B>(f: Step<B>, chain0: B, xs: seq<B>, ys: seq<B>, pushed: int, worked: int, popped: int,
                          p: Pipe<B>, w: Word<B>)
    requires Flow(f, chain0, xs, ys, pushed, worked, popped, p) && |p.input| < FIFO_WORDS
    requires pushed < 4 * |xs| && w == Words(xs)[pushed]
    ensures Flow(f, chain0, xs, ys, pushed + 1, worked, popped, p.(input := p.input + [w]))
  {
    assert p.latch + (p.input + [w]) == p.latch + p.input + [w];
  }

  lemma FlowPops<B>(f: Step<B>, chain0: B, xs: seq<B>, ys: seq<B>, pushed: int, worked: int, popped: int,
                        p: Pipe<B>)
    requires Flow(f, chain0, xs, ys, pushed, worked, popped, p) && p.output != []
    ensures popped < 4 * |ys| && p.output[0] == Words(ys)[popped]
    ensures Flow(f, chain0, xs, ys, pushed, worked, popped + 1, p.(output := p.output[1..]))
  {
    assert p.output[0] == (p.output + p.result)[0];
    assert (p.output + p.result)[1..] == p.output[1..] + p.result;
  }

  /** While output is outstanding and no block can be pushed or popped, the engine can move. */
  lemma NotStuck<B>(f: Step<B>, chain0: B, xs: seq<B>, ys: seq<B>, pushed: int, worked: int, popped: int,
                        p: Pipe<B>)
    requires Flow(f, chain0, xs, ys, pushed, worked, popped, p) && popped < 4 * |xs| && popped % 4 == 0
    requires pushed == 4 * |xs| || |p.input| > 0xC
    requires |p.output| < 4
    ensures p.CanMove()
  {
    if p.result == [] && |p.latch| == 4 {
      assert p.latch == (p.latch + p.input)[..4] == Words(xs)[4 * worked..4 * worked + 4];
      BlockAt(xs, worked);
    }
  }

  /** The output region does not reach source blocks above the one being written. */
  predicate Apart(dst: nat, src: nat, n: nat) {
    dst <= src || src + n <= dst
  }

  /** a with the first `popped` output blocks written at dst. */
  ghost predicate Written<B>(a: seq<B>, b: seq<B>, dst: nat, ys: seq<B>, popped: nat) {
    |a| == |b| && popped <= |ys| && dst + |ys| <= |a| &&
    forall i :: 0 <= i < |a| ==> b[i] == if dst <= i < dst + popped then ys[i - dst] else a[i]
  }

  function Overwritten<B>(a: seq<B>, dst: nat, ys: seq<B>): (b: seq<B>)
    requires dst + |ys| <= |a|
    ensures |b| == |a|
  {
    a[..dst] + ys + a[dst + |ys|..]
  }

  lemma NotYetOverwritten<B>(a: seq<B>, b: seq<B>, dst: nat, src: nat, ys: seq<B>, pushed: nat, popped: nat)
    requires Written(a, b, dst, ys, popped) && Apart(dst, src, |ys|) && src + |ys| <= |a|
    requires popped <= pushed < |ys|
    ensures b[src + pushed] == a[src..src + |ys|][pushed]
  {
  }

  lemma AllWritten<B>(a: seq<B>, b: seq<B>, dst: nat, ys: seq<B>)
    requires Written(a, b, dst, ys, |ys|)
    ensures b == Overwritten(a, dst, ys)
  {
  }

  lemma WriteNext<B>(a: seq<B>, b: seq<B>, dst: nat, ys: seq<B>, popped: nat)
    requires Written(a, b, dst, ys, popped) && popped < |ys|
    ensures Written(a, b[dst + popped := ys[popped]], dst, ys, popped + 1)
  {
  }

  // ----- the driver -----

  predicate Less(load: nat, patience: nat, load': nat, patience': nat) {
    load < load' || (load == load' && patience < patience')
  }

  /** A register access, seen from the flow of words. */
  method PollFlow<B>(e: Engine<B>, ghost chain0: B, ghost xs: seq<B>, ghost ys: seq<B>,
                     ghost pushed: int, ghost worked0: int, ghost popped: int)
    returns (ghost worked: int)
    requires Flow(e.step, chain0, xs, ys, pushed, worked0, popped, e.pipe) && ys == Out(e.step, chain0, xs)
    modifies e
    ensures e.step == old(e.step) && Flow(e.step, chain0, xs, ys, pushed, worked, popped, e.pipe)
    ensures |e.pipe.input| <= |old(e.pipe.input)| && |e.pipe.output| >= |old(e.pipe.output)|
    ensures Less(e.pipe.Load(), e.patience, old(e.pipe.Load()), old(e.patience))
      || (!old(e.pipe).CanMove() && e.pipe == old(e.pipe) && e.patience <= old(e.patience))
  {
    hide Flow, Out, Moves;
    ghost var path := e.Poll();
    worked := FlowPath(e.step, chain0, xs, ys, pushed, worked0, popped, path);
  }

  /** Push the words of the next source block; the engine may move between any two of them. */
  method PushBlock<B>(e: Engine<B>, x: B, ghost chain0: B, ghost xs: seq<B>, ghost ys: seq<B>,
                      ghost j: nat, ghost worked0: int, ghost popped: int)
    returns (ghost worked: int)
    requires j < |xs| && x == xs[j] && ys == Out(e.step, chain0, xs) && |e.pipe.input| <= 0xC
    requires Flow(e.step, chain0, xs, ys, 4 * j, worked0, popped, e.pipe)
    modifies e
    ensures e.step == old(e.step) && Flow(e.step, chain0, xs, ys, 4 * j + 4, worked, popped, e.pipe)
  {
    hide Flow, Out, Words;
    worked := worked0;
    for k := 0 to 4
      invariant e.step == old(e.step) && |e.pipe.input| <= 0xC + k
      invariant Flow(e.step, chain0, xs, ys, 4 * j + k, worked, popped, e.pipe)
    {
      worked := PollFlow(e, chain0, xs, ys, 4 * j + k, worked, popped);
      WordAt(xs, j, k);
      FlowPushes(e.step, chain0, xs, ys, 4 * j + k, worked, popped, e.pipe, Word(x, k));
      e.Push(Word(x, k));
    }
  }

  /** Pop the words of the next output block, likewise. */
  method PopBlock<B>(e: Engine<B>, ghost chain0: B, ghost xs: seq<B>, ghost ys: seq<B>,
                     ghost pushed: int, ghost worked0: int, ghost j: nat)
    returns (y: B, ghost worked: int)
    requires j < |xs| == |ys| && ys == Out(e.step, chain0, xs) && |e.pipe.output| >= 4
    requires Flow(e.step, chain0, xs, ys, pushed, worked0, 4 * j, e.pipe)
    modifies e
    ensures e.step == old(e.step) && Flow(e.step, chain0, xs, ys, pushed, worked, 4 * j + 4, e.pipe)
    ensures y == ys[j]
  {
    hide Flow, Out, Words;
    worked := worked0;
    var words: seq<Word<B>> := [];
    for k := 0 to 4
      invariant e.step == old(e.step) && |e.pipe.output| >= 4 - k
      invariant Flow(e.step, chain0, xs, ys, pushed, worked, 4 * j + k, e.pipe)
      invariant |words| == k && forall i :: 0 <= i < k ==> words[i] == Word(ys[j], i)
    {
      worked := PollFlow(e, chain0, xs, ys, pushed, worked, 4 * j + k);
      WordAt(ys, j, k);
      FlowPops(e.step, chain0, xs, ys, pushed, worked, 4 * j + k, e.pipe);
      var w := e.Pop();
      words := words + [w];
    }
    y := words[0].block;
  }

  /** The pushing half of the loop body: there is space for four words. */
  method PollAndPush<B>(e: Engine<B>, mem: array<B>, dst: nat, src: nat, n: nat, toPush0: nat,
                        ghost a: seq<B>, ghost chain0: B, ghost xs: seq<B>, ghost ys: seq<B>,
                        ghost worked0: int, ghost popped: nat)
    returns (toPush: nat, ghost worked: int)
    requires toPush0 <= n && popped < n && src + n <= |a| == mem.Length && xs == a[src..src + n] && Apart(dst, src, n)
    requires Flow(e.step, chain0, xs, ys, 4 * (n - toPush0), worked0, 4 * popped, e.pipe)
    requires ys == Out(e.step, chain0, xs) && Written(a, mem[..], dst, ys, popped) && popped <= n - toPush0
    modifies e
    ensures toPush <= toPush0 && e.step == old(e.step)
    ensures Flow(e.step, chain0, xs, ys, 4 * (n - toPush), worked, 4 * popped, e.pipe)
    ensures toPush == toPush0 ==> toPush == 0 || |e.pipe.input| > 0xC
    ensures toPush == toPush0 ==>
      || Less(e.pipe.Load(), e.patience, old(e.pipe.Load()), old(e.patience))
      || (e.pipe.Load() == old(e.pipe.Load()) && e.patience <= old(e.patience))
  {
    hide Flow, Out, Written, Apart;
    worked := PollFlow(e, chain0, xs, ys, 4 * (n - toPush0), worked0, 4 * popped);
    toPush := toPush0;
    if toPush != 0 && |e.pipe.input| <= 0xC {
      NotYetOverwritten(a, mem[..], dst, src, ys, n - toPush, popped);
      worked := PushBlock(e, mem[src + (n - toPush)], chain0, xs, ys, n - toPush, worked, 4 * popped);
      toPush := toPush - 1;
    }
  }

  /** The popping half: at least four words are available. */
  method PollAndPop<B>(e: Engine<B>, mem: array<B>, dst: nat, n: nat, toPop0: nat,
                       ghost a: seq<B>, ghost chain0: B, ghost xs: seq<B>, ghost ys: seq<B>,
                       ghost pushed: int, ghost worked0: int)
    returns (toPop: nat, ghost worked: int)
    requires 0 < toPop0 <= n == |xs| && dst + n <= |a| == mem.Length
    requires Flow(e.step, chain0, xs, ys, pushed, worked0, 4 * (n - toPop0), e.pipe)
    requires ys == Out(e.step, chain0, xs) && Written(a, mem[..], dst, ys, n - toPop0)
    modifies e, mem
    ensures toPop <= toPop0 && e.step == old(e.step)
    ensures Flow(e.step, chain0, xs, ys, pushed, worked, 4 * (n - toPop), e.pipe)
    ensures Written(a, mem[..], dst, ys, n - toPop)
    ensures toPop == toPop0 && (pushed == 4 * n || |old(e.pipe.input)| > 0xC) ==>
      Less(e.pipe.Load(), e.patience, old(e.pipe.Load()), old(e.patience))
  {
    hide Flow, Out, Written;
    ghost var p := e.pipe;
    worked := PollFlow(e, chain0, xs, ys, pushed, worked0, 4 * (n - toPop0));
    toPop := toPop0;
    if |e.pipe.output| >= 4 {
      WriteNext(a, mem[..], dst, ys, n - toPop);
      var y;
      y, worked := PopBlock(e, chain0, xs, ys, pushed, worked, n - toPop);
      mem[dst + (n - toPop)] := y;
      toPop := toPop - 1;
    } else if pushed == 4 * n || |p.input| > 0xC {
      NotStuck(e.step, chain0, xs, ys, pushed, worked0, 4 * (n - toPop), p);
    }
  }

  /** Every interleaving of the driver's register accesses with the engine gives the one-go
      output, although output may be written over source blocks that the engine has not
      processed yet. */
  method AesBatch<B>(e: Engine<B>, mem: array<B>, dst: nat, src: nat, n: nat)
    requires n <= 0xFFFF && dst + n <= mem.Length && src + n <= mem.Length
    requires (dst <= src || src + n <= dst) && e.pipe.Idle()
    modifies e, mem
    ensures e.pipe.Idle() && e.step == old(e.step)
    ensures e.pipe.chain == Chain(e.step, old(e.pipe.chain), old(mem[..])[src..src + n])
    ensures mem[..] == Overwritten(old(mem[..]), dst, Out(e.step, old(e.pipe.chain), old(mem[..])[src..src + n]))
  {
    hide Out, Overwritten, Flow, Words;
    ghost var a, xs, chain0 := mem[..], mem[..][src..src + n], e.pipe.chain;
    ghost var ys := Out(e.step, chain0, xs);
    var toPush: nat, toPop: nat := n, n;
    ghost var worked := 0;
    FlowStarts(e.step, chain0, xs, ys, e.pipe);
    while toPop != 0
      invariant toPush <= toPop <= n && e.step == old(e.step)
      invariant Flow(e.step, chain0, xs, ys, 4 * (n - toPush), worked, 4 * (n - toPop), e.pipe)
      invariant Written(a, mem[..], dst, ys, n - toPop)
      decreases toPush + toPop, e.pipe.Load(), e.patience
    {
      toPush, worked := PollAndPush(e, mem, dst, src, n, toPush, a, chain0, xs, ys, worked, n - toPop);
      toPop, worked := PollAndPop(e, mem, dst, n, toPop, a, chain0, xs, ys, 4 * (n - toPush), worked);
      FlowOrder(e.step, chain0, xs, ys, n - toPush, worked, n - toPop, e.pipe);
    }
    FlowEnds(e.step, chain0, xs, ys, 4 * (n - toPush), worked, e.pipe);
    AllWritten(a, mem[..], dst, ys);
  }

  lemma FlowStarts<B>(f: Step<B>, chain0: B, xs: seq<B>, ys: seq<B>, p: Pipe<B>)
    requires p.Idle() && p.chain == chain0 && |ys| == |xs|
    ensures Flow(f, chain0, xs, ys, 0, 0, 0, p)
  {
  }

  lemma FlowOrder<B>(f: Step<B>, chain0: B, xs: seq<B>, ys: seq<B>, pushed: int, worked: int, popped: int,
                         p: Pipe<B>)
    requires Flow(f, chain0, xs, ys, 4 * pushed, worked, 4 * popped, p)
    ensures popped <= pushed
  {
  }

  /** When everything has been popped, everything has been pushed and worked on. */
  lemma FlowEnds<B>(f: Step<B>, chain0: B, xs: seq<B>, ys: seq<B>, pushed: int, worked: int, p: Pipe<B>)
    requires Flow(f, chain0, xs, ys, pushed, worked, 4 * |xs|, p)
    ensures p.Idle() && p.chain == Chain(f, chain0, xs)
  {
    assert worked == |xs| && |p.latch + p.input| == 0 && |p.output + p.result| == 0;
  }

  // ----- batch after batch -----

  ghost predicate Stateless<B(!new)>(f: Step<B>) {
    forall a, b, x :: f.out(a, x) == f.out(b, x)
  }

  lemma StatelessOut<B(!new)>(f: Step<B>, a: B, b: B, xs: seq<B>)
    requires Stateless(f)
    ensures Out(f, a, xs) == Out(f, b, xs)
  {
    forall i | 0 <= i < |xs| ensures Out(f, a, xs)[i] == Out(f, b, xs)[i] {
      assert f.out(ChainAt(f, a, xs, i), xs[i]) == f.out(ChainAt(f, b, xs, i), xs[i]);
    }
  }

  /** After `done` of the blocks xs, whose output is ys: b is the memory, a what it was on
      entry, and v the chaining value that the next batch starts from. */
  ghost predicate Progressed<B(!new)>(f: Step<B>, chained: bool, chain: B, a: seq<B>, b: seq<B>,
                                      v: B, dst: nat, xs: seq<B>, ys: seq<B>, done: nat) {
    && done <= |xs| == |ys| && dst + |xs| <= |a| == |b|
    && (forall i :: 0 <= i < |a| ==> b[i] == if dst <= i < dst + done then ys[i - dst] else a[i])
    && (if chained then v == ChainAt(f, chain, xs, done) else Stateless(f))
  }

  lemma NothingDone<B(!new)>(f: Step<B>, chained: bool, chain: B, a: seq<B>, dst: nat, xs: seq<B>, ys: seq<B>)
    requires |xs| == |ys| && dst + |xs| <= |a| && (!chained ==> Stateless(f))
    ensures Progressed(f, chained, chain, a, a, chain, dst, xs, ys, 0)
  {
  }

  lemma AllDone<B(!new)>(f: Step<B>, chained: bool, chain: B, a: seq<B>, b: seq<B>,
                         v: B, dst: nat, xs: seq<B>, ys: seq<B>)
    requires Progressed(f, chained, chain, a, b, v, dst, xs, ys, |xs|)
    ensures dst + |ys| <= |a| && b == Overwritten(a, dst, ys)
    ensures chained ==> v == Chain(f, chain, xs)
  {
    hide Stateless;
    AllWritten(a, b, dst, ys);
    assert xs[..|xs|] == xs;
  }

  /** The next batch's source is still what it was. */
  lemma SourceIntact<B(!new)>(f: Step<B>, chained: bool, chain: B, a: seq<B>, b: seq<B>,
                              v: B, dst: nat, src: nat, count: nat, ys: seq<B>, done: nat, n: nat)
    requires dst + count <= |a| && src + count <= |a| && done + n <= count && Apart(dst, src, count)
    requires Progressed(f, chained, chain, a, b, v, dst, a[src..src + count], ys, done)
    ensures b[src + done..src + done + n] == a[src..src + count][done..done + n]
  {
    var xs, next := a[src..src + count], b[src + done..src + done + n];
    forall k | 0 <= k < n ensures next[k] == xs[done + k] {
      assert next[k] == b[src + done + k] == a[src + done + k];
    }
  }

  lemma OverwrittenNext<B>(a: seq<B>, b: seq<B>, dst: nat, ys: seq<B>, done: nat, n: nat)
    requires Written(a, b, dst, ys, done) && done + n <= |ys|
    ensures Written(a, Overwritten(b, dst + done, ys[done..done + n]), dst, ys, done + n)
  {
  }

  /** Its output completes a longer prefix. */
  lemma NextBatch<B(!new)>(f: Step<B>, chained: bool, chain: B, a: seq<B>, b: seq<B>, v: B, b': seq<B>, v': B,
                           dst: nat, xs: seq<B>, ys: seq<B>, done: nat, n: nat, next: seq<B>)
    requires done + n <= |xs| && next == xs[done..done + n] && ys == Out(f, chain, xs)
    requires Progressed(f, chained, chain, a, b, v, dst, xs, ys, done)
    requires b' == Overwritten(b, dst + done, Out(f, v, next))
    requires chained ==> v' == Chain(f, v, next)
    ensures Progressed(f, chained, chain, a, b', v', dst, xs, ys, done + n)
  {
    OutSplits(f, chain, xs, done, n);
    if !chained { StatelessOut(f, v, ChainAt(f, chain, xs, done), next); }
    assert Out(f, v, next) == ys[done..done + n];
    OverwrittenNext(a, b, dst, ys, done, n);
  }
}
