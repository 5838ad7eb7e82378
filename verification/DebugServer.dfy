/** Message framing of Debug3dsServerConsole/Back.cs. */
module DebugServer {
  import opened Machine
  import opened Words

  const BUFFER_SIZE: nat := 0x1000
  const HEADER: nat := 16

  // ----- headers -----

  function LittleEndian(x: u32): (b: seq<u8>)
    ensures |b| == 4
  {
    [Byte(x, 0), Byte(x, 1), Byte(x, 2), Byte(x, 3)]
  }

  lemma WordRoundTrip(x: u32)
    ensures LoadWord(LittleEndian(x), 0) == x
  {
    WordOfBytes(x);
    hide Byte;
  }

  /** The 16 header bytes: marker, type, response, a reserved byte, the size of the whole
      message, and two numbers. */
  function SendHeader(kind: u8, response: u8, size: u32, b: u32, c: u32): (h: seq<u8>)
    ensures |h| == HEADER
  {
    [0xFF, kind, response, 0] + LittleEndian(size) + LittleEndian(b) + LittleEndian(c)
  }

  function SizeField(bytes: seq<u8>): u32
    requires |bytes| >= HEADER
  {
    LoadWord(bytes, 4)
  }

  lemma SizeOfHeader(kind: u8, response: u8, size: u32, b: u32, c: u32, rest: seq<u8>)
    ensures SizeField(SendHeader(kind, response, size, b, c) + rest) == size
  {
    var w := LittleEndian(size);
    var s := SendHeader(kind, response, size, b, c) + rest;
    assert s[4] == w[0] && s[5] == w[1] && s[6] == w[2] && s[7] == w[3];
    WordRoundTrip(size);
  }

  /** What the receiver finds in the header, byte by byte and word by word. */
  lemma HeaderReads(kind: u8, response: u8, size: u32, b: u32, c: u32, rest: seq<u8>)
    ensures var m := SendHeader(kind, response, size, b, c) + rest;
      && m[0] == 0xFF && m[1] == kind && m[2] == response && m[3] == 0
      && LoadWord(m, 4) == size && LoadWord(m, 8) == b && LoadWord(m, 12) == c
  {
    var m := SendHeader(kind, response, size, b, c) + rest;
    WordRoundTrip(size);
    WordRoundTrip(b);
    WordRoundTrip(c);
    hide FromBytes;
    forall k | 0 <= k < 4
      ensures m[4 + k] == LittleEndian(size)[k] && m[8 + k] == LittleEndian(b)[k] && m[12 + k] == LittleEndian(c)[k] {}
  }

  // ----- messages -----

  /** A message names its own length in its header. */
  predicate IsMessage(m: seq<u8>) {
    |m| >= HEADER && SizeField(m) == |m|
  }

  predicate AllMessages(ms: seq<seq<u8>>) {
    forall m :: m in ms ==> IsMessage(m)
  }

  /** A framed message is one. */
  lemma FramedIsMessage(kind: u8, response: u8, payload: seq<u8>)
    requires HEADER + |payload| < 0x1_0000_0000
    ensures IsMessage(SendHeader(kind, response, HEADER + |payload|, 0, 0) + payload)
  {
    SizeOfHeader(kind, response, HEADER + |payload|, 0, 0, payload);
  }

  // ----- receiving -----

  /** A connection: the read buffer, the bytes that have not been read yet, whether a message has
      been begun, the size it is taken to have and how much of it has come, and the server's
      copy of it; and the messages delivered so far. */
  datatype Conn = Conn(buffer: seq<u8>, incoming: seq<u8>, reading: bool, target: u32, current: nat,
                       collected: seq<u8>, delivered: seq<seq<u8>>)
  {
    predicate Valid() {
      |buffer| == BUFFER_SIZE && (reading ==> current < target)
    }

    /** How many bytes a read asks for. */
    function ReadCount(): (n: nat)
      requires Valid()
      ensures 0 < n <= BUFFER_SIZE
    {
      if !reading then HEADER else Min(target - current, BUFFER_SIZE)
    }

    /** How many it gets when the network has this many ready. */
    function BytesRead(fragment: nat): (n: nat)
      requires Valid()
      ensures n <= |incoming| && n <= ReadCount()
    {
      Min(fragment, Min(ReadCount(), |incoming|))
    }
  }

  function Initial(incoming: seq<u8>): Conn {
    Conn(seq(BUFFER_SIZE, _ => 0), incoming, false, 0, 0, [], [])
  }

  /** One round of the server: a read, and what it brings is put with the rest of its message. */
  function Round(v: Conn, fragment: nat): (w: Conn)
    requires v.Valid()
    ensures w.Valid()
  {
    var n := v.BytesRead(fragment);
    if n == 0 then v
    else
      var buffer := v.incoming[..n] + v.buffer[n..];
      var target := if v.reading then v.target else SizeField(buffer);
      var current := if v.reading then v.current + n else n;
      var collected := (if v.reading then v.collected else []) + v.incoming[..n];
      Conn(buffer, v.incoming[n..], current < target, target, current, collected,
           if current < target then v.delivered else v.delivered + [collected])
  }

  /** The rounds up to the end of the connection, for any choice of fragments. */
  function Rounds(v: Conn, fragments: seq<nat>): (w: Conn)
    requires v.Valid()
    ensures w.Valid()
    decreases |fragments|
  {
    if fragments == [] || v.BytesRead(fragments[0]) == 0 then v
    else Rounds(Round(v, fragments[0]), fragments[1..])
  }

  /** A read that begins a message leaves its size in the buffer: what it does not bring of the
      size field is there from before. */
  predicate SizeSeen(v: Conn, fragment: nat)
    requires v.Valid()
  {
    forall k :: 4 <= k < 8 ==> k < v.BytesRead(fragment) || (k < |v.incoming| && v.buffer[k] == v.incoming[k])
  }

  /** Every read that begins a message does so. */
  predicate SizesSeen(v: Conn, fragments: seq<nat>)
    requires v.Valid()
    decreases |fragments|
  {
    fragments == [] || v.BytesRead(fragments[0]) == 0 ||
    ((v.reading || SizeSeen(v, fragments[0])) && SizesSeen(Round(v, fragments[0]), fragments[1..]))
  }

  // ----- a message that is read with its size -----

  /** The bytes read so far begin the message m, and the incoming ones complete it and go on
      with the rest. */
  predicate Splits(m: seq<u8>, rest: seq<u8>, read: seq<u8>, incoming: seq<u8>) {
    |read| <= |m| && read == m[..|read|] && incoming == m[|read|..] + rest
  }

  lemma PieceMoves(m: seq<u8>, rest: seq<u8>, read: seq<u8>, incoming: seq<u8>, n: nat)
    requires (read == [] && incoming == m + rest) || Splits(m, rest, read, incoming)
    requires |read| + n <= |m|
    ensures n <= |incoming| && Splits(m, rest, read + incoming[..n], incoming[n..])
    ensures [] + incoming[..n] == incoming[..n]
  {
  }

  lemma WholeMessage(m: seq<u8>, rest: seq<u8>, read: seq<u8>, incoming: seq<u8>)
    requires Splits(m, rest, read, incoming) && |read| == |m|
    ensures read == m && incoming == rest
  {
  }

  /** The message m has been begun, with the right size, and the rest follows it. */
  predicate Midway(v: Conn, m: seq<u8>, rest: seq<u8>) {
    v.reading && v.target == |m| && v.current == |v.collected| && Splits(m, rest, v.collected, v.incoming)
  }

  /** Nothing of m has been read. */
  predicate Before(v: Conn, m: seq<u8>, rest: seq<u8>) {
    !v.reading && IsMessage(m) && v.incoming == m + rest
  }

  /** From v to w some of m has been read, or all of it, and then it has been delivered. */
  predicate Advances(v: Conn, w: Conn, m: seq<u8>, rest: seq<u8>) {
    if w.reading then Midway(w, m, rest) && w.delivered == v.delivered
    else w.delivered == v.delivered + [m] && w.incoming == rest
  }

  lemma RoundInside(v: Conn, fragment: nat, m: seq<u8>, rest: seq<u8>)
    requires v.Valid() && Midway(v, m, rest) && v.BytesRead(fragment) > 0
    ensures Advances(v, Round(v, fragment), m, rest)
  {
    hide SizeField, Splits;
    var w := Round(v, fragment);
    PieceMoves(m, rest, v.collected, v.incoming, v.BytesRead(fragment));
    if !w.reading { WholeMessage(m, rest, w.collected, w.incoming); }
  }

  /** The size is right after the first read of a message if and only if it has been seen. */
  lemma SizeRead(v: Conn, fragment: nat, m: seq<u8>, rest: seq<u8>)
    requires v.Valid() && Before(v, m, rest) && v.BytesRead(fragment) > 0
    ensures Round(v, fragment).target == |m| <==> SizeSeen(v, fragment)
  {
    var n, buffer := v.BytesRead(fragment), Round(v, fragment).buffer;
    forall k | 0 <= k < HEADER ensures m[k] == v.incoming[k] {}
    forall k | 0 <= k < HEADER ensures buffer[k] == if k < n then m[k] else v.buffer[k] {}
    if SizeField(buffer) == SizeField(m) { SameBytes(buffer, m); }
  }

  /** Words are equal only when their bytes are. */
  lemma SameBytes(a: seq<u8>, b: seq<u8>)
    requires |a| >= HEADER && |b| >= HEADER && SizeField(a) == SizeField(b)
    ensures forall k :: 4 <= k < 8 ==> a[k] == b[k]
  {
    BytesOfWord(a[4], a[5], a[6], a[7]);
    BytesOfWord(b[4], b[5], b[6], b[7]);
    hide Byte, FromBytes;
  }

  lemma RoundFirst(v: Conn, fragment: nat, m: seq<u8>, rest: seq<u8>)
    requires v.Valid() && Before(v, m, rest) && v.BytesRead(fragment) > 0 && SizeSeen(v, fragment)
    ensures Advances(v, Round(v, fragment), m, rest)
  {
    hide SizeField, Splits, SizeSeen;
    var w := Round(v, fragment);
    SizeRead(v, fragment, m, rest);
    PieceMoves(m, rest, [], v.incoming, v.BytesRead(fragment));
    if !w.reading { WholeMessage(m, rest, w.collected, w.incoming); }
  }

  // ----- a message that is read with another size -----

  /** The message at position n of the deliveries is not m, and will not be. */
  predicate Wrong(v: Conn, n: nat, m: seq<u8>) {
    if |v.delivered| > n then v.delivered[n] != m
    else |v.delivered| == n && v.reading && v.current == |v.collected| && v.target != |m|
  }

  lemma RoundMisread(v: Conn, fragment: nat, m: seq<u8>, rest: seq<u8>)
    requires v.Valid() && Before(v, m, rest) && v.BytesRead(fragment) > 0 && !SizeSeen(v, fragment)
    ensures Wrong(Round(v, fragment), |v.delivered|, m)
  {
    SizeRead(v, fragment, m, rest);
    hide SizeField;
  }

  lemma {:induction false} WrongStays(v: Conn, fragments: seq<nat>, n: nat, m: seq<u8>)
    requires v.Valid() && Wrong(v, n, m)
    ensures Wrong(Rounds(v, fragments), n, m)
    decreases |fragments|
  {
    hide SizeField;
    if fragments != [] && v.BytesRead(fragments[0]) != 0 {
      WrongStays(Round(v, fragments[0]), fragments[1..], n, m);
    }
  }

  // ----- the first message -----

  lemma {:induction false} DeliveredStays(v: Conn, fragments: seq<nat>)
    requires v.Valid()
    ensures v.delivered <= Rounds(v, fragments).delivered
    decreases |fragments|
  {
    hide SizeField;
    if fragments != [] && v.BytesRead(fragments[0]) != 0 { DeliveredStays(Round(v, fragments[0]), fragments[1..]); }
  }

  lemma {:induction false} MidwayDelivers(v: Conn, fragments: seq<nat>, m: seq<u8>, rest: seq<u8>)
    requires v.Valid() && Midway(v, m, rest)
    ensures var w := Rounds(v, fragments); |w.delivered| > |v.delivered| ==> w.delivered[|v.delivered|] == m
    decreases |fragments|
  {
    hide Round;
    if fragments != [] && v.BytesRead(fragments[0]) != 0 {
      var next := Round(v, fragments[0]);
      RoundInside(v, fragments[0], m, rest);
      if next.reading {
        MidwayDelivers(next, fragments[1..], m, rest);
      } else {
        DeliveredStays(next, fragments[1..]);
      }
    }
  }

  /** Whatever follows a message, and however the network cuts the stream up: the first message
      delivered is the one sent if and only if its size was seen by the read that began it. */
  lemma FirstDelivery(v: Conn, fragments: seq<nat>, m: seq<u8>, rest: seq<u8>)
    requires v.Valid() && Before(v, m, rest) && fragments != [] && v.BytesRead(fragments[0]) > 0
    ensures var w := Rounds(v, fragments);
      |w.delivered| > |v.delivered| ==> (w.delivered[|v.delivered|] == m <==> SizeSeen(v, fragments[0]))
  {
    hide Round, SizeSeen;
    var next := Round(v, fragments[0]);
    if SizeSeen(v, fragments[0]) {
      RoundFirst(v, fragments[0], m, rest);
      if next.reading {
        MidwayDelivers(next, fragments[1..], m, rest);
      } else {
        DeliveredStays(next, fragments[1..]);
      }
    } else {
      RoundMisread(v, fragments[0], m, rest);
      WrongStays(next, fragments[1..], |v.delivered|, m);
    }
  }

  // ----- whole runs -----

  /** The messages ms are still to be delivered; the first one may have been begun. */
  predicate Pending(v: Conn, ms: seq<seq<u8>>) {
    v.Valid() && AllMessages(ms) &&
    if v.reading then ms != [] && Midway(v, ms[0], Concat(ms[1..])) else v.incoming == Concat(ms)
  }

  lemma ConcatStep(ms: seq<seq<u8>>)
    requires ms != [] && AllMessages(ms)
    ensures Concat(ms) == ms[0] + Concat(ms[1..]) && IsMessage(ms[0]) && AllMessages(ms[1..])
  {
    hide SizeField;
    assert ms[0] in ms && IsMessage(ms[0]);
  }

  lemma NothingPending(v: Conn, ms: seq<seq<u8>>)
    requires Pending(v, ms) && v.incoming == []
    ensures ms == [] && !v.reading
  {
    hide SizeField;
    if ms != [] { ConcatStep(ms); }
  }

  lemma PendingRound(v: Conn, ms: seq<seq<u8>>, fragment: nat)
    requires Pending(v, ms) && v.BytesRead(fragment) > 0 && (v.reading || SizeSeen(v, fragment))
    ensures var w := Round(v, fragment);
      var left := if w.reading then ms else ms[1..];
      ms != [] && Pending(w, left) && w.delivered + left == v.delivered + ms
  {
    hide Round, SizeSeen, IsMessage, Midway;
    assert ms == [] ==> Concat(ms) == [];
    ConcatStep(ms);
    if v.reading {
      RoundInside(v, fragment, ms[0], Concat(ms[1..]));
    } else {
      RoundFirst(v, fragment, ms[0], Concat(ms[1..]));
    }
    var w := Round(v, fragment);
    assert !w.reading ==> (v.delivered + [ms[0]]) + ms[1..] == v.delivered + ms;
  }

  /** What is left of the messages ms after some rounds. */
  ghost predicate Serves(w: Conn, all: seq<seq<u8>>, left: seq<seq<u8>>) {
    Pending(w, left) && w.delivered + left == all
  }

  /** Over every run: if every size is seen, the messages sent are delivered in order, and those
      not yet delivered are pending; if not, some delivery is, or will be, wrong. */
  lemma {:induction false} RunServes(v: Conn, ms: seq<seq<u8>>, fragments: seq<nat>)
    returns (left: seq<seq<u8>>, n: nat)
    requires v.Valid() && Pending(v, ms)
    ensures SizesSeen(v, fragments) ==> Serves(Rounds(v, fragments), v.delivered + ms, left)
    ensures !SizesSeen(v, fragments) ==> n < |v.delivered + ms| && Wrong(Rounds(v, fragments), n, (v.delivered + ms)[n])
    decreases |fragments|
  {
    hide Round, SizeSeen, Pending, Wrong;
    left, n := ms, |v.delivered|;
    if fragments != [] && v.BytesRead(fragments[0]) != 0 {
      if v.reading || SizeSeen(v, fragments[0]) {
        PendingRound(v, ms, fragments[0]);
        var w := Round(v, fragments[0]);
        left, n := RunServes(w, if w.reading then ms else ms[1..], fragments[1..]);
      } else {
        MisreadRound(v, ms, fragments[0]);
        WrongStays(Round(v, fragments[0]), fragments[1..], n, ms[0]);
      }
    }
  }

  lemma MisreadRound(v: Conn, ms: seq<seq<u8>>, fragment: nat)
    requires Pending(v, ms) && v.BytesRead(fragment) > 0 && !v.reading && !SizeSeen(v, fragment)
    ensures ms != [] && Wrong(Round(v, fragment), |v.delivered|, ms[0])
  {
    hide Round, SizeSeen, IsMessage, Wrong;
    assert ms == [] ==> Concat(ms) == [];
    ConcatStep(ms);
    RoundMisread(v, fragment, ms[0], Concat(ms[1..]));
  }

  /** When the stream has been read to its end, the messages delivered are those sent, in order,
      if and only if every read that begins a message leaves its size in the buffer. */
  lemma ServesExactly(v: Conn, ms: seq<seq<u8>>, fragments: seq<nat>)
    requires v.Valid() && Pending(v, ms) && Rounds(v, fragments).incoming == []
    ensures Rounds(v, fragments).delivered == v.delivered + ms <==> SizesSeen(v, fragments)
  {
    hide Rounds, SizesSeen, Pending;
    var left, n := RunServes(v, ms, fragments);
    if SizesSeen(v, fragments) { NothingPending(Rounds(v, fragments), left); }
  }

  /** The same from the start, for any messages and any fragments. */
  lemma ServesFromStart(ms: seq<seq<u8>>, fragments: seq<nat>)
    requires forall m <- ms :: |m| >= 16 && LoadWord(m, 4) == |m|
    requires Rounds(Initial(Concat(ms)), fragments).incoming == []
    ensures Rounds(Initial(Concat(ms)), fragments).delivered == ms <==> SizesSeen(Initial(Concat(ms)), fragments)
  {
    hide Rounds, SizesSeen;
    ServesExactly(Initial(Concat(ms)), ms, fragments);
    assert [] + ms == ms;
  }

  /** How much a read asks for at most: a header, or the rest of the message, 0x1000 bytes at a
      time. */
  lemma ReadLimit(v: Conn, fragment: nat)
    requires v.Valid()
    ensures v.BytesRead(fragment) ==
      Min(Min(fragment, |v.incoming|), if v.reading then Min(v.target - v.current, 0x1000) else 16)
  {
  }

  /** A message of which four bytes come first is delivered as these four bytes, by a server that
      has received nothing before. */
  lemma SplitHeaderIsMisread(kind: u8)
    ensures var m := SendHeader(kind, 0, HEADER, 0, 0);
      IsMessage(m) && Rounds(Initial(m), [4]).delivered == [m[..4]]
  {
    var m := SendHeader(kind, 0, HEADER, 0, 0);
    SizeOfHeader(kind, 0, HEADER, 0, 0, []);
    assert m + [] == m;
    var v := Initial(m);
    var w := Round(v, 4);
    assert w.buffer[4] == 0 && w.buffer[5] == 0 && w.buffer[6] == 0 && w.buffer[7] == 0;
    assert w.target == 0 && [] + m[..4] == m[..4];
    assert [4][1..] == [] && Rounds(v, [4]) == Rounds(w, []);
  }

  // ----- the classes -----

  /** The receiving half of a client. The network is the bytes that have not been read yet and
      hands over as many of them at a time as it likes. */
  class Client {
    const readBuffer: array<u8>
    var incoming: seq<u8>
    var isReading: bool
    var sectionCount: nat
    var targetBytes: u32
    var currentBytes: nat

    constructor (incoming: seq<u8>)
      ensures Valid() && fresh(readBuffer) && Value([], []) == Initial(incoming)
    {
      readBuffer := new u8[BUFFER_SIZE](_ => 0);
      this.incoming, isReading, sectionCount, targetBytes, currentBytes := incoming, false, 0, 0, 0;
      new;
      assert readBuffer[..] == seq(BUFFER_SIZE, _ => 0);
    }

    /** The connection, together with what the server holds. */
    ghost function Value(collected: seq<u8>, delivered: seq<seq<u8>>): Conn
      reads this, readBuffer
    {
      Conn(readBuffer[..], incoming, isReading, targetBytes, currentBytes, collected, delivered)
    }

    ghost predicate Valid()
      reads this
    {
      readBuffer.Length == BUFFER_SIZE && (isReading ==> currentBytes < targetBytes && sectionCount >= 1)
    }

    /** The bytes the network hands over, at most as many as were asked for. */
    method ReadAsync(readCount: nat, fragment: nat) returns (bytesRead: nat)
      requires readCount <= readBuffer.Length
      modifies this`incoming, readBuffer
      ensures bytesRead == Min(fragment, Min(readCount, |old(incoming)|))
      ensures incoming == old(incoming)[bytesRead..]
      ensures readBuffer[..] == old(incoming)[..bytesRead] + old(readBuffer[bytesRead..])
    {
      bytesRead := Min(fragment, Min(readCount, |incoming|));
      forall k | 0 <= k < bytesRead { readBuffer[k] := incoming[k]; }
      incoming := incoming[bytesRead..];
    }

    method Read(fragment: nat, ghost v: Conn) returns (bytesRead: nat)
      requires Valid() && v == Value(v.collected, v.delivered)
      modifies this, readBuffer
      ensures Valid() && bytesRead == v.BytesRead(fragment)
      ensures bytesRead == 0 ==> Value(v.collected, v.delivered) == v
      ensures bytesRead > 0 ==> var w := Round(v, fragment);
        Value(w.collected, w.delivered) == w && (sectionCount == 1 <==> !v.reading)
      ensures readBuffer[..bytesRead] == v.incoming[..bytesRead]
    {
      hide SizeField;
      var readCount := if !isReading then HEADER else Min(targetBytes - currentBytes, BUFFER_SIZE);
      bytesRead := ReadAsync(readCount, fragment);
      if bytesRead == 0 {
        assert readBuffer[..] == v.buffer;
        return;
      }
      if !isReading {
        isReading, currentBytes, sectionCount := true, 0, 0;
        targetBytes := SizeField(readBuffer[..]);
      }
      currentBytes := currentBytes + bytesRead;
      isReading := currentBytes < targetBytes;
      sectionCount := sectionCount + 1;
    }
  }

  /** The read loop of the server, which puts the pieces of each message together. */
  class Server {
    const client: Client
    var serverSideBuffer: seq<u8>
    var delivered: seq<seq<u8>>

    constructor (client: Client)
      ensures this.client == client && serverSideBuffer == [] && delivered == []
    {
      this.client, serverSideBuffer, delivered := client, [], [];
    }

    ghost function Value(): Conn
      reads this, client, client.readBuffer
    {
      client.Value(serverSideBuffer, delivered)
    }

    /** One round does what its specification says, on the buffers in place. */
    method Step(fragment: nat) returns (bytesRead: nat)
      requires client.Valid()
      modifies this, client, client.readBuffer
      ensures client.Valid() && bytesRead == old(Value()).BytesRead(fragment)
      ensures Value() == Round(old(Value()), fragment)
      ensures bytesRead == 0 ==> Value() == old(Value())
    {
      hide SizeField;
      ghost var v := Value();
      bytesRead := client.Read(fragment, v);
      if bytesRead == 0 { return; }
      if client.sectionCount == 1 { serverSideBuffer := []; }
      serverSideBuffer := serverSideBuffer + client.readBuffer[..bytesRead];
      if !client.isReading { delivered := delivered + [serverSideBuffer]; }
    }

    /** Any number of rounds, up to the end of the connection. */
    method Serve(fragments: seq<nat>)
      requires client.Valid()
      modifies this, client, client.readBuffer
      ensures client.Valid() && Value() == Rounds(old(Value()), fragments)
    {
      hide Round;
      var i := 0;
      while i < |fragments|
        invariant i <= |fragments| && client.Valid()
        invariant Rounds(Value(), fragments[i..]) == Rounds(old(Value()), fragments)
      {
        assert fragments[i..][1..] == fragments[i + 1..];
        var bytesRead := Step(fragments[i]);
        if bytesRead == 0 { return; }
        i := i + 1;
      }
      assert fragments[i..] == [];
    }
  }
}
