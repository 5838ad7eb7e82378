/** The directory listings of Debug3dsServerConsole/Back.cs: written in chunks by the client,
    parsed by the server. */
module Directory {
  import opened Machine
  import opened Words
  import opened DebugServer

  /** A unit of a UTF-16 string. */
  type u16 = x: int | 0 <= x < 0x1_0000

  datatype Entry = Entry(name: seq<u16>, size: u64, isFolder: bool)

  const REQUEST_DIRECTORY: u8 := 3

  // ----- names -----

  const QUESTION_MARK: u8 := 0x3F

  /** The ASCII byte of a unit, and the unit of a byte; a question mark stands for those that
      ASCII does not have, also for each half of a surrogate pair. */
  function ToByte(c: u16): u8 {
    if c < 0x80 then c else QUESTION_MARK
  }

  function ToUnit(b: u8): u16 {
    if b < 0x80 then b else QUESTION_MARK
  }

  function GetBytes(name: seq<u16>): (b: seq<u8>)
    ensures |b| == |name|
    ensures forall k :: 0 <= k < |name| ==> b[k] == ToByte(name[k])
  {
    seq(|name|, k requires 0 <= k < |name| => ToByte(name[k]))
  }

  function GetString(bytes: seq<u8>): (t: seq<u16>)
    ensures |t| == |bytes|
    ensures forall k :: 0 <= k < |bytes| ==> t[k] == ToUnit(bytes[k])
  {
    seq(|bytes|, k requires 0 <= k < |bytes| => ToUnit(bytes[k]))
  }

  predicate IsAscii(name: seq<u16>) {
    forall k :: 0 <= k < |name| ==> name[k] < 0x80
  }

  /** A name survives the two conversions if and only if it is ASCII. */
  lemma NameRoundTrip(name: seq<u16>)
    ensures GetString(GetBytes(name)) == name <==> IsAscii(name)
  {
    var t := GetString(GetBytes(name));
    assert forall k :: 0 <= k < |name| ==> (t[k] == name[k] <==> name[k] < 0x80);
  }

  /** Nothing but ASCII is sent, and nothing but ASCII is shown. */
  lemma OnlyAscii(name: seq<u16>, bytes: seq<u8>)
    ensures forall k :: 0 <= k < |name| ==>
      GetBytes(name)[k] < 0x80 && (name[k] >= 0x80 ==> GetBytes(name)[k] as int == '?' as int)
    ensures forall k :: 0 <= k < |bytes| ==>
      GetString(bytes)[k] < 0x80 && (bytes[k] >= 0x80 ==> GetString(bytes)[k] as int == '?' as int)
  {
  }

  // ----- sizes -----

  function LowWord(x: u64): u32 {
    var v: int := x;
    v % 0x1_0000_0000
  }

  function HighWord(x: u64): u32 {
    var v: int := x;
    v / 0x1_0000_0000
  }

  /** Eight bytes, lowest first. */
  function SizeBytes(x: u64): (b: seq<u8>)
    ensures |b| == 8
  {
    LittleEndian(LowWord(x)) + LittleEndian(HighWord(x))
  }

  /** One byte of a size as the decoder adds it: the shift is done on a signed 32-bit integer,
      where the shift count is taken modulo 32, and the result is extended with its sign. */
  function Shifted(b: u8, k: nat): int
    requires k < 8
  {
    var v: int := b;
    match k % 4
    case 0 => v
    case 1 => v * 0x100
    case 2 => v * 0x1_0000
    case _ => if v < 0x80 then v * 0x100_0000 else v * 0x100_0000 - 0x1_0000_0000
  }

  function Wrap64(x: int): u64 {
    x % 0x1_0000_0000_0000_0000
  }

  /** The sum of the first n shifted bytes, in 64-bit arithmetic. */
  function SizeSum(bytes: seq<u8>, n: nat): u64
    requires n <= 8 <= |bytes|
  {
    if n == 0 then 0
    else
      var sum: int := SizeSum(bytes, n - 1);
      Wrap64(sum + Shifted(bytes[n - 1], n - 1))
  }

  function DecodedSize(bytes: seq<u8>): u64
    requires |bytes| >= 8
  {
    SizeSum(bytes, 8)
  }

  function Signed32(x: u32): int {
    var v: int := x;
    if v < 0x8000_0000 then v else v - 0x1_0000_0000
  }

  lemma SignedBytes(x: u32)
    ensures Shifted(Byte(x, 0), 0) + Shifted(Byte(x, 1), 1) + Shifted(Byte(x, 2), 2) + Shifted(Byte(x, 3), 3)
      == Signed32(x)
  {
    var b0: int, b1: int, b2: int, b3: int := Byte(x, 0), Byte(x, 1), Byte(x, 2), Byte(x, 3);
    WordOfBytes(x);
    hide Byte;
    assert b0 + 0x100 * b1 + 0x1_0000 * b2 < 0x100_0000;
  }

  lemma WrapAdd(a: int, b: int)
    ensures var w: int := Wrap64(a); Wrap64(w + b) == Wrap64(a + b)
  {
  }

  function Total(bytes: seq<u8>, n: nat): int
    requires n <= 8 <= |bytes|
  {
    if n == 0 then 0 else Total(bytes, n - 1) + Shifted(bytes[n - 1], n - 1)
  }

  lemma {:induction false} SumWraps(bytes: seq<u8>, n: nat)
    requires n <= 8 <= |bytes|
    ensures SizeSum(bytes, n) == Wrap64(Total(bytes, n))
  {
    if n > 0 {
      hide Shifted, Wrap64;
      SumWraps(bytes, n - 1);
      WrapAdd(Total(bytes, n - 1), Shifted(bytes[n - 1], n - 1));
    } else {
      WrapAdd(0, 0);
    }
  }

  lemma TotalOfWords(bytes: seq<u8>)
    requires |bytes| >= 8
    ensures Total(bytes, 8) ==
      Shifted(bytes[0], 0) + Shifted(bytes[1], 1) + Shifted(bytes[2], 2) + Shifted(bytes[3], 3)
      + (Shifted(bytes[4], 4) + Shifted(bytes[5], 5) + Shifted(bytes[6], 6) + Shifted(bytes[7], 7))
  {
    hide Shifted;
    assert Total(bytes, 0) == 0;
    assert Total(bytes, 1) == Shifted(bytes[0], 0);
    assert Total(bytes, 2) == Total(bytes, 1) + Shifted(bytes[1], 1);
    assert Total(bytes, 3) == Total(bytes, 2) + Shifted(bytes[2], 2);
    assert Total(bytes, 4) == Total(bytes, 3) + Shifted(bytes[3], 3);
    assert Total(bytes, 5) == Total(bytes, 4) + Shifted(bytes[4], 4);
    assert Total(bytes, 6) == Total(bytes, 5) + Shifted(bytes[5], 5);
    assert Total(bytes, 7) == Total(bytes, 6) + Shifted(bytes[6], 6);
  }

  /** What the decoder makes of an encoded size: the two halves as signed integers, added. */
  function Misread(x: u64): u64 {
    Wrap64(Signed32(LowWord(x)) + Signed32(HighWord(x)))
  }

  lemma DecodesAs(x: u64, rest: seq<u8>)
    ensures DecodedSize(SizeBytes(x) + rest) == Misread(x)
  {
    var b := SizeBytes(x) + rest;
    var lo, hi := LowWord(x), HighWord(x);
    hide Byte, Shifted, Wrap64, LowWord, HighWord, Signed32, SizeSum, Total;
    assert b[0] == Byte(lo, 0) && b[1] == Byte(lo, 1) && b[2] == Byte(lo, 2) && b[3] == Byte(lo, 3);
    assert b[4] == Byte(hi, 0) && b[5] == Byte(hi, 1) && b[6] == Byte(hi, 2) && b[7] == Byte(hi, 3);
    SumWraps(b, 8);
    TotalOfWords(b);
    SignedBytes(lo);
    SignedBytes(hi);
    HighShifts(Byte(hi, 0), Byte(hi, 1), Byte(hi, 2), Byte(hi, 3));
  }

  /** The upper four bytes are shifted like the lower four. */
  lemma HighShifts(b0: u8, b1: u8, b2: u8, b3: u8)
    ensures Shifted(b0, 4) == Shifted(b0, 0) && Shifted(b1, 5) == Shifted(b1, 1)
    ensures Shifted(b2, 6) == Shifted(b2, 2) && Shifted(b3, 7) == Shifted(b3, 3)
  {
  }

  /** A size is decoded correctly if and only if it is below 2^31. */
  lemma SizeRoundTrip(x: u64)
    ensures Misread(x) == x <==> x < 0x8000_0000
  {
    var v: int := x;
    var lo: int, hi: int := v % 0x1_0000_0000, v / 0x1_0000_0000;
    assert v == lo + 0x1_0000_0000 * hi;
    var s := Signed32(lo) + Signed32(hi);
    assert Misread(x) == if s >= 0 then s else s + 0x1_0000_0000_0000_0000;
  }

  // ----- listings -----

  function Flag(e: Entry): u8 {
    if e.isFolder then 1 else 0
  }

  function EntryBytes(e: Entry): (b: seq<u8>)
    ensures |b| == 9 + |e.name|
  {
    SizeBytes(e.size) + GetBytes(e.name) + [Flag(e)]
  }

  function Listing(es: seq<Entry>): seq<u8> {
    if es == [] then [] else EntryBytes(es[0]) + Listing(es[1..])
  }

  /** The end of a name: a byte 0 or 1, or the end of the buffer. */
  function NameEnd(buffer: seq<u8>, i: nat): (j: nat)
    requires i <= |buffer|
    ensures i <= j <= |buffer|
    ensures forall k :: i <= k < j ==> buffer[k] != 0 && buffer[k] != 1
    ensures j < |buffer| ==> buffer[j] == 0 || buffer[j] == 1
    decreases |buffer| - i
  {
    if i == |buffer| || buffer[i] == 0 || buffer[i] == 1 then i else NameEnd(buffer, i + 1)
  }

  /** The entry at position i whose name ends at j. */
  function EntryAt(buffer: seq<u8>, i: nat, j: nat): Entry
    requires i + 8 <= j < |buffer|
  {
    Entry(GetString(buffer[i + 8..j]), DecodedSize(buffer[i..]), buffer[j] == 1)
  }

  /** The entries from position i on; none when an index runs past the end, which the program
      reports as an exception. */
  function Decode(buffer: seq<u8>, i: nat): Option<seq<Entry>>
    decreases |buffer| - i
  {
    if i >= |buffer| then Some([])
    else if i + 8 > |buffer| || NameEnd(buffer, i + 8) == |buffer| then None
    else
      var j := NameEnd(buffer, i + 8);
      var rest := Decode(buffer, j + 1);
      if rest.None? then None
      else Some([EntryAt(buffer, i, j)] + rest.value)
  }

  /** The bytes of the name do not end it early. */
  predicate CleanName(e: Entry) {
    forall k :: 0 <= k < |e.name| ==> e.name[k] != 0 && e.name[k] != 1
  }

  /** An entry as the decoder sees it. */
  function Seen(e: Entry): Entry {
    Entry(GetString(GetBytes(e.name)), Misread(e.size), e.isFolder)
  }

  function Reread(es: seq<Entry>): seq<Entry> {
    if es == [] then [] else [Seen(es[0])] + Reread(es[1..])
  }

  lemma EntryDecodes(before: seq<u8>, e: Entry, after: seq<u8>)
    requires CleanName(e)
    ensures var buffer, i := before + (EntryBytes(e) + after), |before|;
      var j := i + 8 + |e.name|;
      && NameEnd(buffer, i + 8) == j < |buffer|
      && buffer[i + 8..j] == GetBytes(e.name) && buffer[j] == Flag(e)
      && DecodedSize(buffer[i..]) == Misread(e.size)
  {
    hide SizeBytes, DecodedSize, Misread;
    var buffer, i := before + (EntryBytes(e) + after), |before|;
    var j := i + 8 + |e.name|;
    var name := GetBytes(e.name);
    assert buffer[i..] == SizeBytes(e.size) + (name + [Flag(e)] + after);
    assert forall k :: i + 8 <= k < j ==> buffer[k] == name[k - i - 8];
    assert buffer[j] == Flag(e);
    DecodesAs(e.size, name + [Flag(e)] + after);
  }

  function Prepend(es: seq<Entry>, rest: Option<seq<Entry>>): Option<seq<Entry>> {
    if rest.None? then None else Some(es + rest.value)
  }

  lemma EntryStep(before: seq<u8>, e: Entry, after: seq<u8>)
    requires CleanName(e)
    ensures Decode(before + (EntryBytes(e) + after), |before|) ==
      Prepend([Seen(e)], Decode((before + EntryBytes(e)) + after, |before + EntryBytes(e)|))
  {
    hide EntryBytes, DecodedSize, Misread, CleanName, NameEnd, Decode, Prepend;
    AppendAssoc(before, EntryBytes(e), after);
    EntryDecodes(before, e, after);
    var buffer, i := before + (EntryBytes(e) + after), |before|;
    DecodeOne(buffer, i, i + 8 + |e.name|);
  }

  lemma DecodeOne(buffer: seq<u8>, i: nat, j: nat)
    requires i + 8 <= j < |buffer| && NameEnd(buffer, i + 8) == j
    ensures Decode(buffer, i) == Prepend([EntryAt(buffer, i, j)], Decode(buffer, j + 1))
  {
    hide DecodedSize, NameEnd;
  }

  /** Decoding a listing gives the kinds, the names with question marks for what is not ASCII,
      and the sizes as the decoder reads them, if no name contains a character 0 or 1. */
  lemma {:induction false} ListingDecodes(before: seq<u8>, es: seq<Entry>)
    requires forall e :: e in es ==> CleanName(e)
    ensures Decode(before + Listing(es), |before|) == Some(Reread(es))
    decreases |es|
  {
    hide EntryBytes, DecodedSize, Misread, CleanName, NameEnd, Listing, Decode;
    if es == [] {
      ListingEnd(before);
    } else {
      ListingStep(es);
      EntryStep(before, es[0], Listing(es[1..]));
      ListingDecodes(before + EntryBytes(es[0]), es[1..]);
    }
  }

  lemma ListingEnd(before: seq<u8>)
    ensures Decode(before + Listing([]), |before|) == Some([])
  {
    assert before + Listing([]) == before;
  }

  lemma ListingStep(es: seq<Entry>)
    requires es != []
    ensures Listing(es) == EntryBytes(es[0]) + Listing(es[1..])
  {
  }

  /** A character 0 or 1 in a name ends it early. */
  lemma UncleanName(before: seq<u8>, e: Entry, after: seq<u8>)
    requires !CleanName(e)
    ensures var buffer, i := before + (EntryBytes(e) + after), |before|;
      NameEnd(buffer, i + 8) < i + 8 + |e.name| < |buffer|
  {
    hide SizeBytes;
    var buffer, i := before + (EntryBytes(e) + after), |before|;
    var k :| 0 <= k < |e.name| && (e.name[k] == 0 || e.name[k] == 1);
    assert buffer[i + 8 + k] == GetBytes(e.name)[k] == e.name[k];
  }

  lemma UncleanEntry(before: seq<u8>, e: Entry, after: seq<u8>)
    requires !CleanName(e)
    ensures var r := Decode(before + (EntryBytes(e) + after), |before|);
      r.Some? ==> r.value != [] && |r.value[0].name| < |e.name|
  {
    hide EntryBytes, DecodedSize, CleanName, NameEnd;
    UncleanName(before, e, after);
  }

  /** An entry that a listing can carry: every character of its name is in 2..0x7F and its size is
      below 2^31. */
  predicate Listable(e: Entry) {
    (forall k :: 0 <= k < |e.name| ==> 2 <= e.name[k] < 0x80) && e.size < 0x8000_0000
  }

  lemma SeenAsIs(e: Entry)
    ensures Listable(e) <==> CleanName(e) && Seen(e) == e
  {
    NameRoundTrip(e.name);
    SizeRoundTrip(e.size);
    hide Misread, GetString, GetBytes;
    assert Seen(e) == e <==> IsAscii(e.name) && e.size < 0x8000_0000;
  }

  /** A listing decodes to exactly the entries it was made from if and only if all of them are
      listable. */
  lemma {:induction false} ListingRoundTrip(before: seq<u8>, es: seq<Entry>)
    ensures Decode(before + Listing(es), |before|) == Some(es) <==> forall e :: e in es ==> Listable(e)
    decreases |es|
  {
    hide EntryBytes, Misread, CleanName, Listing, Decode, Seen, Listable;
    if es == [] {
      ListingEnd(before);
    } else {
      ListingStep(es);
      AllListable(es);
      SeenAsIs(es[0]);
      if CleanName(es[0]) {
        EntryStep(before, es[0], Listing(es[1..]));
        ListingRoundTrip(before + EntryBytes(es[0]), es[1..]);
        PrependSplits(Seen(es[0]),
                      Decode(before + EntryBytes(es[0]) + Listing(es[1..]), |before + EntryBytes(es[0])|), es);
      } else {
        UncleanEntry(before, es[0], Listing(es[1..]));
      }
    }
  }

  /** A file named with one accented letter comes back as a question mark. */
  lemma AccentIsLost()
    ensures var e := Entry([0xE9], 0, false);
      CleanName(e) && Decode(Listing([e]), 0) == Some([Entry([0x3F], 0, false)])
  {
    var e := Entry([0xE9], 0, false);
    SizeRoundTrip(0);
    hide Misread, Decode, Listing;
    assert Seen(e) == Entry([0x3F], 0, false);
    hide Seen;
    ListingDecodes([], [e]);
    assert [] + Listing([e]) == Listing([e]);
    assert Reread([e]) == [Seen(e)];
  }

  lemma AllListable(es: seq<Entry>)
    requires es != []
    ensures (forall e :: e in es ==> Listable(e)) <==> Listable(es[0]) && forall e :: e in es[1..] ==> Listable(e)
  {
    hide Listable;
    assert es[0] in es;
    assert forall e :: e in es <==> e == es[0] || e in es[1..];
  }

  lemma PrependSplits(e: Entry, rest: Option<seq<Entry>>, es: seq<Entry>)
    requires es != []
    ensures Prepend([e], rest) == Some(es) <==> e == es[0] && rest == Some(es[1..])
  {
    if rest.Some? {
      assert ([e] + rest.value)[0] == e && ([e] + rest.value)[1..] == rest.value;
    }
    assert es == [es[0]] + es[1..];
  }

  // ----- the routines -----

  /** The sending half of a client: what has gone out, and the buffer it goes through. */
  class Sender {
    const sendBuffer: array<u8>
    var outgoing: seq<u8>

    constructor ()
      ensures outgoing == [] && sendBuffer.Length == BUFFER_SIZE && fresh(sendBuffer)
    {
      sendBuffer := new u8[BUFFER_SIZE](_ => 0);
      outgoing := [];
    }

    /** Send the first length bytes of a buffer, at most 0x1000 at a time. */
    method Write(buffer: array<u8>, length: nat) returns (writenBytes: nat)
      requires sendBuffer.Length == BUFFER_SIZE && length <= buffer.Length && buffer != sendBuffer
      modifies this`outgoing, sendBuffer
      ensures writenBytes == length && outgoing == old(outgoing) + buffer[..length]
    {
      writenBytes := 0;
      var size := length;
      while size > 0
        invariant 0 <= size && 0 <= writenBytes && writenBytes + size == length
        invariant outgoing == old(outgoing) + buffer[..writenBytes]
        decreases size
      {
        var len := Min(size, BUFFER_SIZE);
        forall k | 0 <= k < len { sendBuffer[k] := buffer[writenBytes + k]; }
        assert sendBuffer[..len] == buffer[writenBytes..writenBytes + len];
        outgoing := outgoing + sendBuffer[..len];
        size := size - len;
        writenBytes := writenBytes + len;
      }
    }

    /** Write one entry at position index of the chunk. */
    method PutEntry(data: array<u8>, at: nat, e: Entry, ghost before: seq<u8>) returns (index: nat)
      requires at + 9 + |e.name| <= data.Length && before == data[..at]
      modifies data
      ensures index == at + 9 + |e.name| && data[..index] == before + EntryBytes(e)
    {
      hide SizeBytes;
      var size, name := SizeBytes(e.size), GetBytes(e.name);
      forall k | 0 <= k < 8 { data[at + k] := size[k]; }
      index := at + 8;
      forall k | 0 <= k < |e.name| { data[index + k] := name[k]; }
      index := index + |e.name|;
      data[index] := Flag(e);
      index := index + 1;
      assert data[..index] == before + (size + name + [Flag(e)]);
    }

    /** A header, then the entries, collected in chunks that are sent when the next entry does
        not fit. What goes out does not depend on the chunks. An entry that does not fit a chunk
        raises an exception, once what came before it has gone out. */
    method SendDirectory(content: seq<Entry>) returns (ok: bool)
      requires sendBuffer.Length == BUFFER_SIZE
      modifies this`outgoing, sendBuffer
      ensures ok <==> FirstTooLong(content) == |content|
      ensures outgoing == old(outgoing) + DirectoryHeader(content) + Listing(content[..FirstTooLong(content)])
    {
      hide Listing, EntryBytes, SendHeader, FirstTooLong;
      var len := 0;
      NoEntries(content);
      for i := 0 to |content|
        invariant len == |Listing(content[..i])| && outgoing == old(outgoing)
      {
        ListingAppend(content, i);
        len := len + 8 + |content[i].name| + 1;
      }
      assert content[..|content|] == content;
      var header := new u8[HEADER];
      var h := SendHeader(REQUEST_DIRECTORY, 1, (HEADER + len) % 0x1_0000_0000, 0, 0);
      forall k | 0 <= k < HEADER { header[k] := h[k]; }
      assert header[..HEADER] == h;
      var num := Write(header, HEADER);
      assert header[..HEADER] == h;
      ok := SendEntries(content, outgoing);
    }

    method SendEntries(content: seq<Entry>, ghost start: seq<u8>) returns (ok: bool)
      requires sendBuffer.Length == BUFFER_SIZE && start == outgoing
      modifies this`outgoing, sendBuffer
      ensures ok <==> FirstTooLong(content) == |content|
      ensures outgoing == start + Listing(content[..FirstTooLong(content)])
    {
      hide Listing, EntryBytes, FirstTooLong;
      NoEntries(content);
      var data := new u8[BUFFER_SIZE];
      var index := 0;
      var num;
      for i := 0 to |content|
        invariant 0 <= index <= data.Length && i <= FirstTooLong(content)
        invariant outgoing + data[..index] == start + Listing(content[..i])
      {
        ListingAppend(content, i);
        TooLongAt(content, i);
        if data.Length < index + |content[i].name| + 8 + 1 {
          num := Write(data, index);
          index := 0;
        }
        ghost var sent, before := outgoing, data[..index];
        if |content[i].name| + 9 > BUFFER_SIZE {
          assert before == [] && sent + before == sent;
          return false;
        }
        index := PutEntry(data, index, content[i], before);
        AppendAssoc(sent, before, EntryBytes(content[i]));
        AppendAssoc(start, Listing(content[..i]), EntryBytes(content[i]));
      }
      num := Write(data, index);
      ok := true;
    }
  }

  /** The first entry that no chunk can hold, or the number of entries. */
  function FirstTooLong(content: seq<Entry>): (i: nat)
    ensures i <= |content|
  {
    if content == [] || |content[0].name| + 9 > BUFFER_SIZE then 0 else 1 + FirstTooLong(content[1..])
  }

  /** Everything is sent if and only if no name is longer than 4087 characters. */
  lemma {:induction false} NoneTooLong(content: seq<Entry>)
    ensures FirstTooLong(content) == |content| <==> forall e <- content :: |e.name| <= 4087
  {
    if content != [] {
      NoneTooLong(content[1..]);
      assert content[0] in content && forall e <- content :: e == content[0] || e in content[1..];
      assert forall e <- content[1..] :: e in content;
    }
  }

  lemma {:induction false} TooLongAt(content: seq<Entry>, i: nat)
    requires i < |content| && i <= FirstTooLong(content)
    ensures if |content[i].name| + 9 > BUFFER_SIZE then FirstTooLong(content) == i else FirstTooLong(content) > i
  {
    if i > 0 { TooLongAt(content[1..], i - 1); }
  }

  /** The bytes of a listing message. The length field is a 32-bit number. */
  function DirectoryHeader(content: seq<Entry>): seq<u8> {
    SendHeader(REQUEST_DIRECTORY, 1, (HEADER + |Listing(content)|) % 0x1_0000_0000, 0, 0)
  }

  function DirectoryMessage(content: seq<Entry>): seq<u8> {
    DirectoryHeader(content) + Listing(content)
  }

  lemma NoEntries(content: seq<Entry>)
    ensures |Listing(content[..0])| == 0
  {
  }

  lemma {:induction false} ListingAppend(content: seq<Entry>, i: nat)
    requires i < |content|
    ensures Listing(content[..i + 1]) == Listing(content[..i]) + EntryBytes(content[i])
  {
    hide EntryBytes;
    ListingConcat(content[..i], [content[i]]);
    assert content[..i + 1] == content[..i] + [content[i]];
    assert Listing([content[i]]) == EntryBytes(content[i]) + Listing([]);
  }

  lemma {:induction false} ListingConcat(a: seq<Entry>, b: seq<Entry>)
    ensures Listing(a + b) == Listing(a) + Listing(b)
  {
    hide EntryBytes;
    if a == [] {
      assert a + b == b;
    } else {
      assert (a + b)[1..] == a[1..] + b;
      ListingConcat(a[1..], b);
    }
  }

  /** The parsing loop: eight size bytes, a name, and the byte that ends it. */
  method DecodeDirectory(buffer: seq<u8>) returns (r: Option<seq<Entry>>)
    ensures r == Decode(buffer, HEADER)
  {
    hide DecodedSize, Prepend, Decode, NameEnd;
    var es: seq<Entry> := [];
    var i := HEADER;
    PrependNothing(Decode(buffer, HEADER));
    while i < |buffer|
      invariant i >= HEADER
      invariant Decode(buffer, HEADER) == Prepend(es, Decode(buffer, i))
      decreases |buffer| - i
    {
      DecodeStep(buffer, i, es);
      if i + 8 > |buffer| { return None; }
      var s := DecodedSize(buffer[i..]);
      var first := i + 8;
      i := EndOfName(buffer, first);
      if i == |buffer| { return None; }
      es := es + [Entry(GetString(buffer[first..i]), s, buffer[i] == 1)];
      i := i + 1;
    }
    DecodeEnd(buffer, i, es);
    r := Some(es);
  }

  method EndOfName(buffer: seq<u8>, first: nat) returns (i: nat)
    requires first <= |buffer|
    ensures i == NameEnd(buffer, first)
  {
    i := first;
    while i < |buffer| && buffer[i] != 0 && buffer[i] != 1
      invariant first <= i <= |buffer| && NameEnd(buffer, first) == NameEnd(buffer, i)
    {
      i := i + 1;
    }
  }

  lemma DecodeStep(buffer: seq<u8>, i: nat, es: seq<Entry>)
    requires i < |buffer|
    ensures Prepend(es, Decode(buffer, i)) ==
      if i + 8 > |buffer| || NameEnd(buffer, i + 8) == |buffer| then None
      else
        var j := NameEnd(buffer, i + 8);
        Prepend(es + [EntryAt(buffer, i, j)], Decode(buffer, j + 1))
  {
    hide DecodedSize, NameEnd;
    if i + 8 <= |buffer| && NameEnd(buffer, i + 8) < |buffer| {
      var j := NameEnd(buffer, i + 8);
      PrependMore(es, EntryAt(buffer, i, j), Decode(buffer, j + 1));
    }
  }

  lemma DecodeEnd(buffer: seq<u8>, i: nat, es: seq<Entry>)
    requires i >= |buffer|
    ensures Prepend(es, Decode(buffer, i)) == Some(es)
  {
    assert es + [] == es;
  }

  lemma PrependNothing(rest: Option<seq<Entry>>)
    ensures Prepend([], rest) == rest
  {
    if rest.Some? { assert [] + rest.value == rest.value; }
  }

  lemma PrependMore(es: seq<Entry>, e: Entry, rest: Option<seq<Entry>>)
    ensures Prepend(es, if rest.None? then None else Some([e] + rest.value)) == Prepend(es + [e], rest)
  {
    if rest.Some? { AppendAssoc(es, [e], rest.value); }
  }

  /** End to end: a listing that fits a 32-bit length is one message, which the server
      reassembles whole, and decoding it gives the entries if and only if all of them are
      listable. */
  lemma DirectoryEndToEnd(content: seq<Entry>)
    requires HEADER + |Listing(content)| < 0x1_0000_0000
    ensures IsMessage(DirectoryMessage(content)) && DirectoryMessage(content)[1] == 3
    ensures Decode(DirectoryMessage(content), HEADER) == Some(content) <==> forall e :: e in content ==> Listable(e)
  {
    hide Listing, Decode, IsMessage, Listable;
    FramedIsMessage(REQUEST_DIRECTORY, 1, Listing(content));
    HeaderReads(REQUEST_DIRECTORY, 1, HEADER + |Listing(content)|, 0, 0, Listing(content));
    ListingRoundTrip(SendHeader(REQUEST_DIRECTORY, 1, HEADER + |Listing(content)|, 0, 0), content);
  }
}
