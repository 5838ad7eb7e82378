/** The backward LZSS format of compressed code and its in-place decompressor
    (arm9/source/firm.c). The stream is read from high addresses to low ones and
    the output is written from high addresses to low ones over the same buffer. */
module Lzss {
  import opened Machine

  // ----- the format -----

  type Nibble = x: int | 0 <= x < 0x10
  type Displacement = x: int | 0 <= x < 0x1000

  /** A match copies size + 3 bytes that start disp + 3 bytes back in the output produced so far. */
  datatype Token = Literal(value: u8) | Match(size: Nibble, disp: Displacement)

  /** The bytes of one token, in reading order (descending addresses). */
  function TokenBytes(t: Token): seq<u8> {
    match t
    case Literal(b) => [b]
    case Match(size, disp) =>
      var n: int, d: int := size, disp;
      [n * 16 + d / 0x100, d % 0x100]
  }

  function OutputLength(t: Token): nat {
    if t.Literal? then 1 else t.size + 3
  }

  /** Every match refers only to output that already exists. */
  predicate Valid(ts: seq<Token>, produced: nat) {
    ts == [] ||
    ((ts[0].Match? ==> ts[0].disp + 3 <= produced) && Valid(ts[1..], produced + OutputLength(ts[0])))
  }

  /** The flag register after one token: shifted left in eight bits. */
  function ShiftFlags(flags: u8): u8 {
    var f: int := flags;
    f * 2 % 0x100
  }

  /** The bytes s, in reading order, hold the tokens ts. The current flag byte is
      `flags`, of which `slots` leading bits are still to be used; the bits left
      over after the last token are free. */
  predicate Encodes(s: seq<u8>, ts: seq<Token>, flags: u8, slots: nat)
    decreases |ts|, if slots == 0 then 1 else 0
  {
    if ts == [] then s == []
    else if slots == 0 then s != [] && Encodes(s[1..], ts, s[0], 8)
    else
      (flags >= 0x80 <==> ts[0].Match?) &&
      TokenBytes(ts[0]) <= s &&
      Encodes(s[|TokenBytes(ts[0])|..], ts[1..], ShiftFlags(flags), slots - 1)
  }

  function PackedLength(ts: seq<Token>, slots: nat): nat
    decreases |ts|, if slots == 0 then 1 else 0
  {
    if ts == [] then 0
    else if slots == 0 then 1 + PackedLength(ts, 8)
    else |TokenBytes(ts[0])| + PackedLength(ts[1..], slots - 1)
  }

  /** After every token, the room left for output is at least the input not yet read. */
  predicate InPlace(ts: seq<Token>, slots: nat, room: int)
    decreases |ts|, if slots == 0 then 1 else 0
  {
    if ts == [] then room >= 0
    else if slots == 0 then InPlace(ts, 8, room)
    else
      var left := room - OutputLength(ts[0]);
      left >= PackedLength(ts[1..], slots - 1) && InPlace(ts[1..], slots - 1, left)
  }

  // ----- what a token list means -----

  function CopyBack(out: seq<u8>, len: nat, dist: nat): (r: seq<u8>)
    requires 0 < dist <= |out|
    ensures |r| == |out| + len
  {
    if len == 0 then out
    else
      var p := CopyBack(out, len - 1, dist);
      p + [p[|p| - dist]]
  }

  function ExpandToken(t: Token, out: seq<u8>): (r: seq<u8>)
    requires t.Match? ==> t.disp + 3 <= |out|
    ensures |r| == |out| + OutputLength(t)
  {
    match t
    case Literal(b) => out + [b]
    case Match(size, disp) => CopyBack(out, size + 3, disp + 3)
  }

  /** The expansion of ts after `out`, in the order the bytes are produced. */
  function Expand(ts: seq<Token>, out: seq<u8>): seq<u8>
    requires Valid(ts, |out|)
  {
    if ts == [] then out else Expand(ts[1..], ExpandToken(ts[0], out))
  }

  /** A copy, overlapping or not, extends out by bytes that each equal the one dist before. */
  lemma {:induction false} CopyIsPeriodic(out: seq<u8>, len: nat, dist: nat)
    requires 0 < dist <= |out|
    ensures out <= CopyBack(out, len, dist)
    ensures forall i :: |out| <= i < |out| + len ==>
      CopyBack(out, len, dist)[i] == CopyBack(out, len, dist)[i - dist]
  {
    if len != 0 { CopyIsPeriodic(out, len - 1, dist); }
  }

  // ----- the encoder's framing: flag groups of eight -----

  function FlagBit(group: seq<Token>, i: nat): int {
    if i < |group| && group[i].Match? then 1 else 0
  }

  /** The flag byte of a group: most significant bit first, 1 for a match. */
  function FlagByte(group: seq<Token>): u8 {
    0x80 * FlagBit(group, 0) + 0x40 * FlagBit(group, 1) + 0x20 * FlagBit(group, 2) + 0x10 * FlagBit(group, 3) +
    8 * FlagBit(group, 4) + 4 * FlagBit(group, 5) + 2 * FlagBit(group, 6) + FlagBit(group, 7)
  }

  function Body(ts: seq<Token>): seq<u8> {
    if ts == [] then [] else TokenBytes(ts[0]) + Body(ts[1..])
  }

  function FirstGroup(ts: seq<Token>): seq<Token> {
    ts[..if |ts| < 8 then |ts| else 8]
  }

  /** A flag byte before each eight tokens. */
  function Pack(ts: seq<Token>): seq<u8> {
    if ts == [] then []
    else [FlagByte(FirstGroup(ts))] + Body(FirstGroup(ts)) + Pack(ts[|FirstGroup(ts)|..])
  }

  lemma FlagByteShifts(group: seq<Token>)
    requires 0 < |group| <= 8
    ensures FlagByte(group) >= 0x80 <==> group[0].Match?
    ensures ShiftFlags(FlagByte(group)) == FlagByte(group[1..])
  {
    assert forall i: nat :: FlagBit(group[1..], i) == FlagBit(group, i + 1);
    assert FlagByte(group) * 2 == 0x100 * FlagBit(group, 0) + FlagByte(group[1..]);
  }

  lemma EncodesToken(t: Token, rest: seq<Token>, tail: seq<u8>, flags: u8, slots: nat)
    requires slots > 0
    requires flags >= 0x80 <==> t.Match?
    requires Encodes(tail, rest, ShiftFlags(flags), slots - 1)
    ensures Encodes(TokenBytes(t) + tail, [t] + rest, flags, slots)
  {
    assert (TokenBytes(t) + tail)[|TokenBytes(t)|..] == tail;
    assert ([t] + rest)[1..] == rest;
  }

  predicate HasFlags(flags: u8, group: seq<Token>)
    decreases group
  {
    group == [] ||
    ((flags >= 0x80 <==> group[0].Match?) && HasFlags(ShiftFlags(flags), group[1..]))
  }

  lemma {:induction false} FlagByteHasFlags(group: seq<Token>)
    requires |group| <= 8
    ensures HasFlags(FlagByte(group), group)
  {
    if group != [] {
      FlagByteShifts(group);
      FlagByteHasFlags(group[1..]);
    }
  }

  lemma {:induction false} GroupEncodes(group: seq<Token>, tail: seq<u8>, rest: seq<Token>, flags: u8, slots: nat)
    requires |group| <= slots && HasFlags(flags, group)
    requires rest == [] || |group| == slots
    requires Encodes(tail, rest, 0, slots - |group|)
    ensures Encodes(Body(group) + tail, group + rest, flags, slots)
    decreases |group|
  {
    if group == [] {
      assert group + rest == rest && Body(group) + tail == tail;
    } else {
      var t, after := group[0], Body(group[1..]) + tail;
      GroupEncodes(group[1..], tail, rest, ShiftFlags(flags), slots - 1);
      EncodesToken(t, group[1..] + rest, after, flags, slots);
      AppendAssoc(TokenBytes(t), Body(group[1..]), tail);
      HeadAppend(group, rest);
    }
  }

  /** The encoder's framing is one the decompressor reads. */
  lemma {:induction false} PackEncodes(ts: seq<Token>, flags: u8)
    ensures Encodes(Pack(ts), ts, flags, 0)
    decreases |ts|
  {
    if ts != [] {
      var group := FirstGroup(ts);
      var rest := ts[|group|..];
      PackEncodes(rest, 0);
      FlagByteHasFlags(group);
      GroupEncodes(group, Pack(rest), rest, FlagByte(group), 8);
      assert group + rest == ts;
      assert Pack(ts)[1..] == Body(group) + Pack(rest);
    }
  }

  lemma {:induction false} EncodedLength(s: seq<u8>, ts: seq<Token>, flags: u8, slots: nat)
    requires Encodes(s, ts, flags, slots)
    ensures |s| == PackedLength(ts, slots)
    decreases |ts|, if slots == 0 then 1 else 0
  {
    if ts == [] {
    } else if slots == 0 {
      EncodedLength(s[1..], ts, s[0], 8);
    } else {
      EncodedLength(s[|TokenBytes(ts[0])|..], ts[1..], ShiftFlags(flags), slots - 1);
    }
  }

  // ----- the decompressor -----

  /** Bytes lo..hi of a buffer, read downwards. */
  function Downwards(a: seq<u8>, lo: int, hi: int): (s: seq<u8>)
    requires 0 <= lo && hi <= |a|
    ensures |s| == if lo <= hi then hi - lo else 0
    ensures forall i :: 0 <= i < |s| ==> s[i] == a[hi - 1 - i]
  {
    if hi <= lo then [] else seq(hi - lo, i requires 0 <= i < hi - lo => a[hi - 1 - i])
  }

  /** The three positions that the eight footer bytes before `end` define. */
  datatype Layout = Layout(limit: int, input: int, top: int)

  function Footer(a: seq<u8>, end: nat): Layout
    requires 8 <= end <= |a|
  {
    var lengths, extra := LoadWord(a, end - 8), LoadWord(a, end - 4);
    Layout(end - lengths % 0x100_0000, end - lengths / 0x100_0000, end + extra)
  }

  /** What a caller of the decompressor must supply: a complete stream for ts whose
      expansion never catches up with the input. */
  ghost predicate WellFormed(a: seq<u8>, end: nat, ts: seq<Token>) {
    && 8 <= end <= |a|
    && var f := Footer(a, end);
    && 0 <= f.limit && f.top <= |a|
    && Valid(ts, 0)
    && Encodes(Downwards(a, f.limit, f.input), ts, 0, 0)
    && InPlace(ts, 0, f.top - f.limit)
  }

  /** The output lies, first byte highest, just below top; nothing else has changed. */
  ghost predicate Decompressed(a: seq<u8>, b: seq<u8>, limit: int, top: int, out: seq<u8>) {
    && 0 <= limit <= top - |out| && top <= |a| == |b|
    && b == a[..top - |out|] + Reverse(out) + a[top..]
  }

  /** A buffer that holds an encoder's output between the footer's limit and its input
      position is well formed when the expansion never catches up with the input. */
  lemma PackedIsWellFormed(a: seq<u8>, end: nat, ts: seq<Token>)
    requires 8 <= end <= |a| && Valid(ts, 0)
    requires var f := Footer(a, end);
      0 <= f.limit && f.top <= |a| && Downwards(a, f.limit, f.input) == Pack(ts) && InPlace(ts, 0, f.top - f.limit)
    ensures WellFormed(a, end, ts)
  {
    PackEncodes(ts, 0);
  }

  /** b differs from a at most in positions w..top. */
  ghost predicate Untouched(a: seq<u8>, b: seq<u8>, w: int, top: int) {
    |a| == |b| && forall i :: 0 <= i < |a| && (i < w || top <= i) ==> b[i] == a[i]
  }

  /** Where the decompressor stands: the read and write positions, the flag register with the
      number of bits not yet used, the tokens to come and the output produced. */
  datatype Progress = Progress(r: int, w: int, flags: u8, slots: nat, rest: seq<Token>, out: seq<u8>)

  /** The input from r down to the limit encodes the tokens to come, and there is room. */
  ghost predicate InputLeft(a: seq<u8>, limit: int, p: Progress) {
    && 0 <= limit && p.r <= |a|
    && Valid(p.rest, |p.out|)
    && Encodes(Downwards(a, limit, p.r), p.rest, p.flags, p.slots)
    && InPlace(p.rest, p.slots, p.w - limit)
  }

  /** The output lies below top down to w, and nothing else has changed. */
  ghost predicate OutputSoFar(a: seq<u8>, b: seq<u8>, limit: int, top: int, p: Progress) {
    && |a| == |b| && 0 <= limit <= p.w <= top <= |a| && p.r <= p.w
    && Untouched(a, b, p.w, top)
    && Downwards(b, p.w, top) == p.out
  }

  /** The decompressor between two tokens: b is the buffer, a what it was on entry. */
  ghost predicate Between(a: seq<u8>, b: seq<u8>, limit: int, top: int, p: Progress) {
    InputLeft(a, limit, p) && OutputSoFar(a, b, limit, top, p)
  }

  lemma AtStart(a: seq<u8>, end: nat, ts: seq<Token>)
    requires WellFormed(a, end, ts)
    ensures var f := Footer(a, end);
      0 <= f.limit && f.top <= |a| && f.input <= f.top &&
      Between(a, a, f.limit, f.top, Progress(f.input, f.top, 0, 0, ts, []))
  {
  }

  lemma AfterFlagByte(a: seq<u8>, b: seq<u8>, limit: int, top: int, p: Progress)
    requires Between(a, b, limit, top, p) && p.slots == 0 && p.r > limit
    ensures 0 < p.r <= |b| && p.rest != []
    ensures Between(a, b, limit, top, p.(r := p.r - 1, flags := b[p.r - 1], slots := 8))
  {
    hide Encodes, InPlace, Downwards, Valid;
    EncodesFlags(Downwards(a, limit, p.r), p.rest, p.flags);
    assert Downwards(a, limit, p.r)[0] == a[p.r - 1] == b[p.r - 1];
    DropsFirst(a, limit, p.r, 1);
    FlagsInPlace(p.rest, p.w - limit);
  }

  lemma EncodesFlags(s: seq<u8>, ts: seq<Token>, flags: u8)
    requires Encodes(s, ts, flags, 0) && s != []
    ensures ts != [] && Encodes(s[1..], ts, s[0], 8)
  {
  }

  lemma FlagsInPlace(ts: seq<Token>, room: int)
    requires InPlace(ts, 0, room)
    ensures InPlace(ts, 8, room)
  {
  }

  /** The next token as it lies below r, and the room its output leaves. */
  lemma NextToken(a: seq<u8>, b: seq<u8>, limit: int, top: int, p: Progress)
    requires Between(a, b, limit, top, p) && p.slots > 0 && p.rest != []
    ensures var t := p.rest[0];
      && (p.flags >= 0x80 <==> t.Match?)
      && (t.Match? ==> t.disp + 3 <= |p.out| == top - p.w)
      && 0 <= limit <= p.r - |TokenBytes(t)| <= p.w - OutputLength(t) && p.r <= p.w <= top <= |b|
      && Downwards(b, p.r - |TokenBytes(t)|, p.r) == TokenBytes(t)
  {
    var t := p.rest[0];
    var s, n := Downwards(a, limit, p.r), |TokenBytes(t)|;
    EncodedLength(s[n..], p.rest[1..], ShiftFlags(p.flags), p.slots - 1);
    assert Downwards(b, p.r - n, p.r) == s[..n];
  }

  lemma MoreTokens(a: seq<u8>, b: seq<u8>, limit: int, top: int, p: Progress)
    requires Between(a, b, limit, top, p) && p.r > limit
    ensures p.rest != []
  {
  }

  lemma NothingLeft(a: seq<u8>, b: seq<u8>, limit: int, top: int, p: Progress)
    requires Between(a, b, limit, top, p) && p.r <= limit
    ensures p.rest == [] && Decompressed(a, b, limit, top, p.out)
  {
  }

  /** The buffer after k bytes of a match have been copied downwards from `from` above w. */
  function CopyDown(b: seq<u8>, w: nat, from: nat, k: nat): (c: seq<u8>)
    requires k <= w && w + from < |b|
    ensures Untouched(b, c, w - k, w)
    decreases k
  {
    if k == 0 then b else CopyDown(b[w - 1 := b[w + from]], w - 1, from, k - 1)
  }

  /** Writing one byte below w adds it to the output. */
  lemma Emit(b: seq<u8>, top: nat, w: nat, x: u8)
    requires 0 < w <= top <= |b|
    ensures Downwards(b[w - 1 := x], w - 1, top) == Downwards(b, w, top) + [x]
  {
  }

  lemma {:induction false} CopyFromFront(out: seq<u8>, k: nat, dist: nat)
    requires 0 < dist <= |out| && k > 0
    ensures CopyBack(out, k, dist) == CopyBack(out + [out[|out| - dist]], k - 1, dist)
  {
    if k > 1 { CopyFromFront(out, k - 1, dist); }
  }

  lemma {:induction false} CopyDownCopiesBack(b: seq<u8>, top: nat, w: nat, from: nat, k: nat)
    requires k <= w && w + from < top <= |b|
    ensures Downwards(CopyDown(b, w, from, k), w - k, top) == CopyBack(Downwards(b, w, top), k, from + 1)
    decreases k
  {
    if k == 0 {
      NothingCopied(b, top, w, from);
    } else {
      hide *;
      var b' := b[w - 1 := b[w + from]];
      CopyDownStep(b, top, w, from, k);
      CopyDownCopiesBack(b', top, w - 1, from, k - 1);
    }
  }

  lemma NothingCopied(b: seq<u8>, top: nat, w: nat, from: nat)
    requires w + from < top <= |b|
    ensures CopyDown(b, w, from, 0) == b && CopyBack(Downwards(b, w, top), 0, from + 1) == Downwards(b, w, top)
  {
  }

  /** One byte copied in the buffer is one byte copied in the output. */
  lemma CopyDownStep(b: seq<u8>, top: nat, w: nat, from: nat, k: nat)
    requires 0 < k <= w && w + from < top <= |b|
    ensures var b' := b[w - 1 := b[w + from]];
      && CopyDown(b, w, from, k) == CopyDown(b', w - 1, from, k - 1)
      && CopyBack(Downwards(b, w, top), k, from + 1) == CopyBack(Downwards(b', w - 1, top), k - 1, from + 1)
  {
    hide CopyBack;
    Emit(b, top, w, b[w + from]);
    CopyFromFront(Downwards(b, w, top), k, from + 1);
  }

  /** The fields that the decompressor's masks and shifts pick out of a match. */
  lemma MatchFields(t: Token)
    requires t.Match?
    ensures var hi: int, lo: int := TokenBytes(t)[0], TokenBytes(t)[1];
      (lo + hi * 0x100) % 0x1000 == t.disp && (hi + 0x20) / 16 + 1 == t.size + 3
  {
    var hi: int, lo: int := TokenBytes(t)[0], TokenBytes(t)[1];
    assert lo + hi * 0x100 == t.size * 0x1000 + t.disp;
  }

  /** The buffer after one token has been written below w. */
  function WriteToken(b: seq<u8>, w: nat, t: Token): (c: seq<u8>)
    requires OutputLength(t) <= w <= |b| && (t.Match? ==> w + t.disp + 2 < |b|)
    ensures Untouched(b, c, w - OutputLength(t), w)
  {
    match t
    case Literal(x) => b[w - 1 := x]
    case Match(size, disp) => CopyDown(b, w, disp + 2, size + 3)
  }

  lemma WriteTokenExpands(b: seq<u8>, top: nat, w: nat, t: Token)
    requires OutputLength(t) <= w <= top <= |b| && (t.Match? ==> t.disp + 3 <= top - w)
    ensures Downwards(WriteToken(b, w, t), w - OutputLength(t), top) == ExpandToken(t, Downwards(b, w, top))
  {
    hide Downwards, CopyDown, CopyBack, Untouched;
    match t
    case Literal(x) => Emit(b, top, w, x);
    case Match(size, disp) => CopyDownCopiesBack(b, top, w, disp + 2, size + 3);
  }

  function AfterToken(p: Progress): Progress
    requires p.slots > 0 && p.rest != [] && (p.rest[0].Match? ==> p.rest[0].disp + 3 <= |p.out|)
  {
    var t := p.rest[0];
    Progress(p.r - |TokenBytes(t)|, p.w - OutputLength(t), ShiftFlags(p.flags), p.slots - 1,
             p.rest[1..], ExpandToken(t, p.out))
  }

  function LastByte(out: seq<u8>): u8 {
    if out == [] then 0 else out[|out| - 1]
  }

  lemma WrittenLast(b: seq<u8>, top: nat, w: nat, t: Token)
    requires OutputLength(t) <= w <= top <= |b| && (t.Match? ==> t.disp + 3 <= top - w)
    ensures LastByte(ExpandToken(t, Downwards(b, w, top))) == WriteToken(b, w, t)[w - OutputLength(t)]
  {
    WriteTokenExpands(b, top, w, t);
  }

  /** The token's bytes are gone from the input, and what is left still fits below the output. */
  lemma InputDone(a: seq<u8>, limit: int, p: Progress)
    requires InputLeft(a, limit, p) && p.slots > 0 && p.rest != []
    requires p.rest[0].Match? ==> p.rest[0].disp + 3 <= |p.out|
    ensures var q := AfterToken(p); InputLeft(a, limit, q) && limit <= q.r <= q.w
  {
    hide Downwards, TokenBytes, ShiftFlags, ExpandToken, CopyBack, Encodes, InPlace;
    var n := |TokenBytes(p.rest[0])|;
    EncodesStep(Downwards(a, limit, p.r), p.rest, p.flags, p.slots);
    InPlaceStep(p.rest, p.slots, p.w - limit);
    DropsFirst(a, limit, p.r, n);
  }

  lemma EncodesStep(s: seq<u8>, ts: seq<Token>, flags: u8, slots: nat)
    requires Encodes(s, ts, flags, slots) && slots > 0 && ts != []
    ensures var n := |TokenBytes(ts[0])|;
      && 0 < n <= |s| && Encodes(s[n..], ts[1..], ShiftFlags(flags), slots - 1)
      && |s| - n == PackedLength(ts[1..], slots - 1)
  {
    hide ShiftFlags;
    EncodedLength(s[|TokenBytes(ts[0])|..], ts[1..], ShiftFlags(flags), slots - 1);
  }

  lemma InPlaceStep(ts: seq<Token>, slots: nat, room: int)
    requires InPlace(ts, slots, room) && slots > 0 && ts != []
    ensures var left := room - OutputLength(ts[0]);
      left >= PackedLength(ts[1..], slots - 1) && InPlace(ts[1..], slots - 1, left)
  {
    hide OutputLength;
  }

  lemma DropsFirst(a: seq<u8>, lo: int, hi: int, n: nat)
    requires 0 <= lo && hi <= |a| && n <= |Downwards(a, lo, hi)|
    ensures Downwards(a, lo, hi)[n..] == Downwards(a, lo, hi - n)
  {
  }

  /** The token's expansion is added to the output. */
  lemma OutputDone(a: seq<u8>, b: seq<u8>, limit: int, top: int, p: Progress)
    requires OutputSoFar(a, b, limit, top, p) && p.slots > 0 && p.rest != []
    requires p.rest[0].Match? ==> p.rest[0].disp + 3 <= |p.out|
    requires limit <= p.w - OutputLength(p.rest[0]) && (p.rest[0].Match? ==> p.w + p.rest[0].disp + 2 < |b|)
    requires p.r - |TokenBytes(p.rest[0])| <= p.w - OutputLength(p.rest[0])
    ensures OutputSoFar(a, WriteToken(b, p.w, p.rest[0]), limit, top, AfterToken(p))
  {
    hide Downwards, TokenBytes, ShiftFlags, ExpandToken, CopyBack, WriteToken;
    WriteTokenExpands(b, top, p.w, p.rest[0]);
  }

  /** Once the token has been written, the decompressor is between tokens again. */
  lemma TokenDone(a: seq<u8>, b: seq<u8>, limit: int, top: int, p: Progress)
    requires Between(a, b, limit, top, p) && p.slots > 0 && p.rest != []
    requires p.rest[0].Match? ==> p.rest[0].disp + 3 <= |p.out|
    requires 0 <= p.w - OutputLength(p.rest[0]) && p.w <= |b|
    requires p.rest[0].Match? ==> p.w + p.rest[0].disp + 2 < |b|
    ensures Between(a, WriteToken(b, p.w, p.rest[0]), limit, top, AfterToken(p))
  {
    hide InputLeft, Downwards, TokenBytes, ShiftFlags, ExpandToken, WriteToken;
    InputDone(a, limit, p);
    OutputDone(a, b, limit, top, p);
  }

  /** The copy loop of one match: it runs count / 16 + 1 times. */
  method CopyMatch(buf: array<u8>, w0: nat, from: nat, count0: nat) returns (w: nat, ret: u8)
    requires count0 / 16 + 1 <= w0 && w0 + from < buf.Length
    modifies buf
    ensures w == w0 - (count0 / 16 + 1)
    ensures buf[..] == CopyDown(old(buf[..]), w0, from, count0 / 16 + 1)
    ensures ret == buf[w]
  {
    ghost var goal := CopyDown(buf[..], w0, from, count0 / 16 + 1);
    w := w0;
    ret := 0;
    var count: int := count0;
    var more := true;
    while more
      invariant 0 <= w0 - w <= count0 / 16 + 1 && count == count0 - 16 * (w0 - w)
      invariant more <==> count >= 0
      invariant CopyDown(buf[..], w, from, count0 / 16 + 1 - (w0 - w)) == goal
      invariant w < w0 ==> ret == buf[w]
      decreases count
    {
      ghost var b := buf[..];
      ret := buf[w + from];
      buf[w - 1] := ret;
      assert buf[..] == b[w - 1 := b[w + from]];
      w := w - 1;
      count := count - 16;
      more := count >= 0;
    }
  }

  /** One token: one or two bytes of input, chosen by the flag bit, and what they expand to. */
  method DecodeToken(buf: array<u8>, r0: nat, w0: nat, flags: u8, ghost t: Token) returns (r: nat, w: nat, ret: u8)
    requires flags >= 0x80 <==> t.Match?
    requires |TokenBytes(t)| <= r0 <= w0 <= buf.Length && OutputLength(t) <= w0
    requires t.Match? ==> w0 + t.disp + 2 < buf.Length
    requires Downwards(buf[..], r0 - |TokenBytes(t)|, r0) == TokenBytes(t)
    modifies buf
    ensures r == r0 - |TokenBytes(t)| && w == w0 - OutputLength(t)
    ensures buf[..] == WriteToken(old(buf[..]), w0, t) && ret == buf[w]
  {
    if flags >= 0x80 {
      var hi: int := buf[r0 - 1];
      var lo: int := buf[r0 - 2];
      r := r0 - 2;
      MatchFields(t);
      assert hi == TokenBytes(t)[0] && lo == TokenBytes(t)[1];
      w, ret := CopyMatch(buf, w0, (lo + hi * 0x100) % 0x1000 + 2, hi + 0x20);
    } else {
      assert buf[r0 - 1] == TokenBytes(t)[0];
      r := r0 - 1;
      ret := buf[r];
      w := w0 - 1;
      buf[w] := ret;
    }
  }

  method DecodeNext(buf: array<u8>, r0: nat, w0: nat, flags: u8,
                    ghost a: seq<u8>, ghost limit: int, ghost top: int, ghost p0: Progress)
    returns (r: nat, w: nat, ret: u8, ghost p: Progress)
    requires p0.r == r0 && p0.w == w0 && p0.flags == flags && p0.slots > 0 && p0.rest != []
    requires Between(a, buf[..], limit, top, p0)
    modifies buf
    ensures (p0.rest[0].Match? ==> p0.rest[0].disp + 3 <= |p0.out|) && p == AfterToken(p0)
    ensures p.r == r < r0 && p.w == w && Between(a, buf[..], limit, top, p)
    ensures Valid(p0.rest, |p0.out|) && Valid(p.rest, |p.out|) && Expand(p.rest, p.out) == Expand(p0.rest, p0.out)
    ensures ret == LastByte(p.out)
  {
    hide Between, TokenBytes, Downwards, WriteToken, ExpandToken, Expand, Valid, ShiftFlags, LastByte;
    ghost var b := buf[..];
    NextToken(a, b, limit, top, p0);
    TokenDone(a, b, limit, top, p0);
    ExpandStep(a, b, limit, top, p0);
    WrittenLast(b, top, w0, p0.rest[0]);
    r, w, ret := DecodeToken(buf, r0, w0, flags, p0.rest[0]);
    p := AfterToken(p0);
  }

  lemma ExpandStep(a: seq<u8>, b: seq<u8>, limit: int, top: int, p: Progress)
    requires Between(a, b, limit, top, p) && p.slots > 0 && p.rest != []
    ensures (p.rest[0].Match? ==> p.rest[0].disp + 3 <= |p.out|) && |TokenBytes(p.rest[0])| > 0
    ensures Downwards(b, p.w, top) == p.out
    ensures var q := AfterToken(p);
      Valid(p.rest, |p.out|) && Valid(q.rest, |q.out|) && Expand(q.rest, q.out) == Expand(p.rest, p.out)
  {
    hide ExpandToken, Downwards, Encodes, InPlace, ShiftFlags;
  }

  /** One flag byte and its tokens: eight, or fewer when the input ends. */
  method DecodeGroup(buf: array<u8>, r0: nat, w0: nat, limit: nat,
                     ghost a: seq<u8>, ghost top: int, ghost p0: Progress)
    returns (r: nat, w: nat, ret: u8, ghost p: Progress)
    requires p0.r == r0 > limit && p0.w == w0 && p0.slots == 0
    requires Between(a, buf[..], limit, top, p0)
    modifies buf
    ensures p.r == r < r0 && p.w == w && Between(a, buf[..], limit, top, p)
    ensures r <= limit || p.slots == 0
    ensures Valid(p0.rest, |p0.out|) && Valid(p.rest, |p.out|) && Expand(p.rest, p.out) == Expand(p0.rest, p0.out)
    ensures ret == LastByte(p.out)
  {
    ghost var b := buf[..];
    AfterFlagByte(a, b, limit, top, p0);
    r, w, ret := r0 - 1, w0, 0;
    var flags, n := buf[r], 8;
    p := p0.(r := p0.r - 1, flags := b[p0.r - 1], slots := 8);
    while n >= 1
      invariant 0 <= n <= 8 && r < r0
      invariant r == p.r && w == p.w && n == p.slots && flags == p.flags
      invariant p.rest != [] || n == 0
      invariant Between(a, buf[..], limit, top, p)
      invariant Valid(p.rest, |p.out|) && Expand(p.rest, p.out) == Expand(p0.rest, p0.out)
      invariant n < 8 ==> ret == LastByte(p.out)
    {
      n := n - 1;
      r, w, ret, p := DecodeNext(buf, r, w, flags, a, limit, top, p);
      flags := ShiftFlags(flags);
      if r <= limit {
        return;
      }
      MoreTokens(a, buf[..], limit, top, p);
    }
  }

  method LzssDecompress(buf: array<u8>, end: nat, ghost ts: seq<Token>) returns (ret: u8)
    requires WellFormed(buf[..], end, ts)
    modifies buf
    ensures var f := Footer(old(buf[..]), end);
      Decompressed(old(buf[..]), buf[..], f.limit, f.top, Expand(ts, []))
    ensures ret == LastByte(Expand(ts, []))
  {
    ghost var a := buf[..];
    AtStart(a, end, ts);
    var footer := Footer(buf[..], end);
    var limit, r, w := footer.limit, footer.input, footer.top;
    ghost var top := w;
    ghost var p := Progress(footer.input, footer.top, 0, 0, ts, []);
    ret := 0;
    while r > limit
      invariant r == p.r && w == p.w && (r <= limit || p.slots == 0)
      invariant Between(a, buf[..], limit, top, p)
      invariant Valid(p.rest, |p.out|) && Expand(p.rest, p.out) == Expand(ts, [])
      invariant ret == LastByte(p.out)
      decreases r
    {
      r, w, ret, p := DecodeGroup(buf, r, w, limit, a, top, p);
    }
    NothingLeft(a, buf[..], limit, top, p);
  }

  /** The number whose bytes these are, the least significant first. */
  function Unsigned(bytes: seq<u8>): nat {
    if bytes == [] then 0 else bytes[0] + 0x100 * Unsigned(bytes[1..])
  }

  /** What the footer says, byte by byte: three bytes of compressed length, one byte of footer
      length, and four bytes of the length that the output has in addition. */
  predicate FooterBytes(a: seq<u8>, end: nat, c: nat, h: nat, x: nat) {
    && 8 <= end <= |a| && h <= c <= end && end + x <= |a|
    && c == Unsigned(a[end - 8..end - 5]) && h == a[end - 5] && x == Unsigned(a[end - 4..end])
  }

  /** Where everything lies: the packed tokens, read downwards, from h bytes below the end to c
      bytes below it, and the output, written downwards, up to x bytes above the end. */
  method DecompressPacked(buf: array<u8>, end: nat, ghost c: nat, ghost h: nat, ghost x: nat, ghost ts: seq<Token>)
    returns (ret: u8)
    requires FooterBytes(buf[..], end, c, h, x) && Valid(ts, 0)
    requires buf[..][end - c..end - h] == Reverse(Pack(ts)) && InPlace(ts, 0, c + x)
    modifies buf
    ensures var out := Expand(ts, []);
      && |out| <= end + x && buf[..] == old(buf[..end + x - |out|]) + Reverse(out) + old(buf[end + x..])
      && ret == LastByte(out)
  {
    hide Expand, Pack, InPlace, Valid, Footer, WellFormed, Decompressed, Reverse, Downwards, Unsigned;
    ghost var a := buf[..];
    FooterIs(a, end, c, h, x);
    ReadDownwards(a, end - c, end - h, Pack(ts));
    PackedIsWellFormed(a, end, ts);
    ret := LzssDecompress(buf, end, ts);
    OutputLies(a, buf[..], end - c, end + x, Expand(ts, []));
  }

  lemma OutputLies(a: seq<u8>, b: seq<u8>, limit: int, top: int, out: seq<u8>)
    requires Decompressed(a, b, limit, top, out)
    ensures 0 <= top - |out| <= top <= |a| && b == a[..top - |out|] + Reverse(out) + a[top..]
  {
  }

  lemma FooterIs(a: seq<u8>, end: nat, c: nat, h: nat, x: nat)
    requires FooterBytes(a, end, c, h, x)
    ensures Footer(a, end) == Layout(end - c, end - h, end + x)
  {
    LowBytes(a[end - 8..end - 5]);
    LowBytes(a[end - 4..end]);
    hide Unsigned;
  }

  lemma LowBytes(b: seq<u8>)
    requires 3 <= |b| <= 4
    ensures Unsigned(b[..3]) < 0x100_0000
    ensures var b0: int, b1: int, b2: int, b3: int := b[0], b[1], b[2], if |b| == 4 then b[3] else 0;
      Unsigned(b) == b0 + 0x100 * b1 + 0x1_0000 * b2 + 0x100_0000 * b3
  {
    var c := b[..3];
    assert Unsigned(b[3..]) == if |b| == 4 then b[3] else 0;
    assert Unsigned(b[2..]) == b[2] + 0x100 * Unsigned(b[3..]) by { assert b[2..][1..] == b[3..]; }
    assert Unsigned(b[1..]) == b[1] + 0x100 * Unsigned(b[2..]) by { assert b[1..][1..] == b[2..]; }
    assert Unsigned(c[2..]) == c[2];
    assert Unsigned(c[1..]) == c[1] + 0x100 * Unsigned(c[2..]) by { assert c[1..][1..] == c[2..]; }
  }

  lemma ReadDownwards(a: seq<u8>, lo: nat, hi: nat, s: seq<u8>)
    requires lo <= hi <= |a| && a[lo..hi] == Reverse(s)
    ensures Downwards(a, lo, hi) == s
  {
    forall i | 0 <= i < |s| ensures Downwards(a, lo, hi)[i] == s[i] {
      assert a[lo..hi][|s| - 1 - i] == Reverse(s)[|s| - 1 - i];
    }
  }

  // ----- an example -----

  /** Three literals, and a match of eighteen bytes that starts with the first of them. */
  function ExampleTokens(): seq<Token> {
    [Literal(1), Literal(2), Literal(3), Match(15, 0)]
  }

  /** The packed tokens, from their end down to the flag byte 0x10, the footer, and room for seven
      bytes more. */
  function ExampleBuffer(): seq<u8> {
    [0x00, 0xF0, 3, 2, 1, 0x10, 14, 0, 0, 8, 7, 0, 0, 0, 0, 0, 0, 0, 0, 0, 0]
  }

  /** It can be decompressed in place, although its output takes the whole buffer. */
  lemma Example()
    ensures FooterBytes(ExampleBuffer(), 14, 14, 8, 7) && Valid(ExampleTokens(), 0)
    ensures ExampleBuffer()[0..6] == Reverse(Pack(ExampleTokens())) && InPlace(ExampleTokens(), 0, 21)
    ensures |Expand(ExampleTokens(), [])| == 21 == |ExampleBuffer()|
    ensures forall i :: 0 <= i < 21 ==> Expand(ExampleTokens(), [])[i] == 1 + i % 3
  {
    var ts := ExampleTokens();
    var t3, t2, t1 := [Match(15, 0)], [Literal(3), Match(15, 0)], [Literal(2), Literal(3), Match(15, 0)];
    assert ts[1..] == t1 && t1[1..] == t2 && t2[1..] == t3 && t3[1..] == [];
    ExampleFooter();
    ExamplePacked();
    ExampleExpanded();
    assert InPlace([], 4, 0);
    assert InPlace(t3, 5, 18);
    assert InPlace(t2, 6, 19);
    assert InPlace(t1, 7, 20);
  }

  lemma ExampleFooter()
    ensures FooterBytes(ExampleBuffer(), 14, 14, 8, 7)
  {
    var a := ExampleBuffer();
    LowBytes(a[6..9]);
    LowBytes(a[10..14]);
    hide Unsigned;
  }

  lemma ExamplePacked()
    ensures ExampleBuffer()[0..6] == Reverse(Pack(ExampleTokens()))
  {
    var ts := ExampleTokens();
    assert FirstGroup(ts) == ts && ts[4..] == [];
    assert FlagByte(ts) == 0x10;
    assert Body([Match(15, 0)]) == [0xF0, 0x00];
    assert Body([Literal(3), Match(15, 0)]) == [3, 0xF0, 0x00];
    assert Body([Literal(2), Literal(3), Match(15, 0)]) == [2, 3, 0xF0, 0x00];
    assert Body(ts) == [1, 2, 3, 0xF0, 0x00];
    assert Pack(ts) == [0x10, 1, 2, 3, 0xF0, 0x00];
  }

  lemma ExampleLast()
    ensures Valid([Match(15, 0)], 3)
    ensures Expand([Match(15, 0)], [1, 2, 3]) == CopyBack([1, 2, 3], 18, 3)
  {
    assert [Match(15, 0)][1..] == [];
    hide CopyBack;
  }

  lemma ExampleThird()
    ensures Valid([Literal(3), Match(15, 0)], 2)
    ensures Expand([Literal(3), Match(15, 0)], [1, 2]) == CopyBack([1, 2, 3], 18, 3)
  {
    ExampleLast();
    hide CopyBack;
    assert [Literal(3), Match(15, 0)][1..] == [Match(15, 0)] && [1, 2] + [3] == [1, 2, 3];
  }

  lemma ExampleSecond()
    ensures Valid([Literal(2), Literal(3), Match(15, 0)], 1)
    ensures Expand([Literal(2), Literal(3), Match(15, 0)], [1]) == CopyBack([1, 2, 3], 18, 3)
  {
    ExampleThird();
    hide CopyBack;
    assert [Literal(2), Literal(3), Match(15, 0)][1..] == [Literal(3), Match(15, 0)] && [1] + [2] == [1, 2];
  }

  lemma ExampleIs()
    ensures Valid(ExampleTokens(), 0) && Expand(ExampleTokens(), []) == CopyBack([1, 2, 3], 18, 3)
  {
    ExampleSecond();
    hide CopyBack;
    assert ExampleTokens()[1..] == [Literal(2), Literal(3), Match(15, 0)] && [] + [1] == [1];
  }

  lemma ExampleExpanded()
    ensures Valid(ExampleTokens(), 0) && |Expand(ExampleTokens(), [])| == 21
    ensures forall i :: 0 <= i < 21 ==> Expand(ExampleTokens(), [])[i] == 1 + i % 3
  {
    ExampleIs();
    hide CopyBack, Expand, Valid, ExampleTokens;
    forall i | 0 <= i < 21 ensures CopyBack([1, 2, 3], 18, 3)[i] == 1 + i % 3 { ByThrees(i); }
  }

  lemma {:induction false} ByThrees(i: nat)
    requires i < 21
    ensures CopyBack([1, 2, 3], 18, 3)[i] == 1 + i % 3
  {
    CopyIsPeriodic([1, 2, 3], 18, 3);
    hide CopyBack;
    if i >= 3 {
      ByThrees(i - 3);
    } else {
      assert CopyBack([1, 2, 3], 18, 3)[i] == [1, 2, 3][i];
    }
  }
}
