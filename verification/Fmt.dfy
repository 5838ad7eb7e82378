/** The number printer of arm9/source/fmt.c and the two number readers of
    arm9/source/strings.c. */
module Fmt {
  import opened Machine

  // ----- positional notation -----

  function Base(isHex: bool): int {
    if isHex then 16 else 10
  }

  /** The number that a list of digit values denotes, most significant first. */
  function Number(isHex: bool, ds: seq<int>): int {
    if ds == [] then 0 else Number(isHex, ds[..|ds| - 1]) * Base(isHex) + ds[|ds| - 1]
  }

  /** The digit values of a number, none for 0. */
  function Digits(isHex: bool, v: nat): (ds: seq<int>)
    ensures forall i :: 0 <= i < |ds| ==> 0 <= ds[i] < Base(isHex)
  {
    if v == 0 then [] else Digits(isHex, v / Base(isHex)) + [v % Base(isHex)]
  }

  lemma {:induction false} DigitsDenote(isHex: bool, v: nat)
    ensures Number(isHex, Digits(isHex, v)) == v
    ensures v != 0 ==> Digits(isHex, v) != [] && Digits(isHex, v)[0] != 0
  {
    if v != 0 {
      var rest, last := Digits(isHex, v / Base(isHex)), v % Base(isHex);
      assert (rest + [last])[..|rest|] == rest;
      DigitsDenote(isHex, v / Base(isHex));
    }
  }

  function Power(isHex: bool, n: nat): nat {
    if n == 0 then 1 else Base(isHex) * Power(isHex, n - 1)
  }

  lemma {:induction false} DigitCount(isHex: bool, v: nat, n: nat)
    requires v < Power(isHex, n)
    ensures |Digits(isHex, v)| <= n
    decreases n
  {
    if v != 0 {
      assert v / Base(isHex) < Power(isHex, n - 1);
      DigitCount(isHex, v / Base(isHex), n - 1);
    }
  }

  lemma {:induction false} PowerGrows(isHex: bool, n: nat)
    ensures Power(false, n) <= Power(isHex, n)
  {
    if n > 0 { PowerGrows(isHex, n - 1); }
  }

  /** No 64-bit value has more than 20 digits. */
  lemma TwentyDigits(isHex: bool, v: u64)
    ensures |Digits(isHex, v)| <= 20
  {
    assert Power(false, 10) == 10_000_000_000;
    assert Power(false, 20) == 100_000_000_000_000_000_000;
    PowerGrows(isHex, 20);
    DigitCount(isHex, v, 20);
  }

  lemma {:induction false} LeadingZeros(isHex: bool, n: nat, ds: seq<int>)
    ensures Number(isHex, seq(n, _ => 0) + ds) == Number(isHex, ds)
    decreases n + |ds|
  {
    var zs := seq(n, _ => 0);
    if ds != [] {
      assert (zs + ds)[..|zs + ds| - 1] == zs + ds[..|ds| - 1];
      LeadingZeros(isHex, n, ds[..|ds| - 1]);
    } else if n > 0 {
      assert (zs + ds)[..n - 1] == seq(n - 1, _ => 0) + [];
      LeadingZeros(isHex, n - 1, []);
    }
  }

  // ----- the printed form -----

  datatype Flags = Flags(zeropad: bool, sign: bool, plus: bool, space: bool, left: bool, hexPrep: bool, uppercase: bool)

  function DigitChar(upper: bool, d: int): char
    requires 0 <= d < 16
  {
    (if upper then "0123456789ABCDEF" else "0123456789abcdef")[d]
  }

  function Text(upper: bool, ds: seq<int>): (t: string)
    requires forall i :: 0 <= i < |ds| ==> 0 <= ds[i] < 16
    ensures |t| == |ds|
  {
    seq(|ds|, i requires 0 <= i < |ds| => DigitChar(upper, ds[i]))
  }

  function Repeat(c: char, n: int): (t: string)
    ensures |t| == if n > 0 then n else 0
  {
    if n > 0 then seq(n, _ => c) else ""
  }

  function Sign(num: s64, f: Flags): string {
    if !f.sign then "" else if num < 0 then "-" else if f.plus then "+" else if f.space then " " else ""
  }

  /** The value whose digits are printed: the argument without its sign, or taken as unsigned. */
  function Magnitude(num: s64, f: Flags): u64 {
    var n: int := num;
    if f.sign && n < 0 then -n else if n < 0 then n + 0x1_0000_0000_0000_0000 else n
  }

  function Prefix(num: s64, isHex: bool, f: Flags): string {
    if f.hexPrep && isHex && num != 0 then "0x" else ""
  }

  function Shown(num: s64, isHex: bool, precision: int, f: Flags): (ds: seq<int>)
    ensures forall i :: 0 <= i < |ds| ==> 0 <= ds[i] < 16
  {
    if num != 0 then Digits(isHex, Magnitude(num, f)) else if precision != 0 then [0] else []
  }

  function BodyLength(num: s64, isHex: bool, precision: int, f: Flags): nat {
    |Sign(num, f)| + |Prefix(num, isHex, f)| + Max(|Shown(num, isHex, precision, f)|, precision)
  }

  predicate ZeroPadded(precision: int, f: Flags) {
    f.zeropad && !f.left && precision == -1
  }

  function Head(num: s64, isHex: bool, size: int, precision: int, f: Flags): string {
    var pad := size - BodyLength(num, isHex, precision, f);
    Repeat(' ', if ZeroPadded(precision, f) || f.left then 0 else pad) + Sign(num, f) + Prefix(num, isHex, f)
    + Repeat('0', if ZeroPadded(precision, f) then pad else 0)
  }

  function Tail(num: s64, isHex: bool, size: int, precision: int, f: Flags): string {
    var ds := Shown(num, isHex, precision, f);
    var pad := size - BodyLength(num, isHex, precision, f);
    Repeat('0', precision - |ds|) + Text(f.uppercase, ds) + Repeat(' ', if f.left then pad else 0)
  }

  function Render(num: s64, isHex: bool, size: int, precision: int, f: Flags): string {
    Head(num, isHex, size, precision, f) + Tail(num, isHex, size, precision, f)
  }

  // ----- writing it -----

  /** After is before with out written at position at. */
  predicate Wrote(before: seq<char>, after: seq<char>, at: nat, out: string) {
    at + |out| <= |before| && after == before[..at] + out + before[at + |out|..]
  }

  lemma WroteMore(s: seq<char>, t: seq<char>, u: seq<char>, at: nat, out: string, more: string)
    requires Wrote(s, t, at, out) && Wrote(t, u, at + |out|, more)
    ensures Wrote(s, u, at, out + more)
  {
  }

  lemma WroteOne(before: seq<char>, after: seq<char>, at: nat, text: string, k: nat)
    requires at + |text| <= |before| && k < |text| && Wrote(before, after, at, text[..k])
    ensures Wrote(before, after[at + k := text[k]], at, text[..k + 1])
  {
  }

  /** Store the k-th character of a text being written at position at. */
  method PutChar(str: array<char>, at: nat, c: char, ghost text: string, ghost k: nat, ghost before: seq<char>)
    requires at < str.Length && k < |text| && k <= at && at - k + |text| <= |before| && text[k] == c
    requires Wrote(before, str[..], at - k, text[..k])
    modifies str
    ensures Wrote(before, str[..], at - k, text[..k + 1])
  {
    ghost var now := str[..];
    str[at] := c;
    WroteOne(before, now, at - k, text, k);
    assert str[..] == now[at := c];
  }

  method Fill(str: array<char>, at: nat, c: char, n: int) returns (end: nat)
    requires at + |Repeat(c, n)| <= str.Length
    modifies str
    ensures end == at + |Repeat(c, n)| && Wrote(old(str[..]), str[..], at, Repeat(c, n))
  {
    var size := n;
    end := at;
    ghost var text, before := Repeat(c, n), str[..];
    while size > 0
      invariant size == n - (end - at) && at <= end && end - at <= |text|
      invariant Wrote(before, str[..], at, text[..end - at])
    {
      PutChar(str, end, c, text, end - at, before);
      end, size := end + 1, size - 1;
    }
    assert text[..end - at] == text;
  }

  method Put(str: array<char>, at: nat, text: string) returns (end: nat)
    requires at + |text| <= str.Length
    modifies str
    ensures end == at + |text| && Wrote(old(str[..]), str[..], at, text)
  {
    ghost var before := str[..];
    for i := 0 to |text|
      invariant Wrote(before, str[..], at, text[..i])
    {
      PutChar(str, at + i, text[i], text, i, before);
    }
    end := at + |text|;
    assert text[..|text|] == text;
  }

  /** The first n characters of tmp, last one first. */
  method PutReversed(str: array<char>, at: nat, tmp: array<char>, n: nat) returns (end: nat)
    requires n <= tmp.Length && at + n <= str.Length && str != tmp
    modifies str
    ensures end == at + n && Wrote(old(str[..]), str[..], at, Reverse(tmp[..n]))
  {
    var i := n;
    end := at;
    ghost var text, before := Reverse(tmp[..n]), str[..];
    assert forall k :: 0 <= k < n ==> text[k] == tmp[n - 1 - k];
    while i > 0
      invariant end == at + (n - i) && 0 <= i <= n
      invariant Wrote(before, str[..], at, text[..n - i])
    {
      i := i - 1;
      PutChar(str, end, tmp[i], text, end - at, before);
      end := end + 1;
    }
    assert text[..n] == text;
  }

  /** The digit characters, lowest first, into the 20-byte buffer. */
  method TakeDigits(num: s64, isHex: bool, precision: int, f: Flags, tmp: array<char>) returns (i: nat)
    requires tmp.Length == 20
    modifies tmp
    ensures i <= 20 && Reverse(tmp[..i]) == Text(f.uppercase, Shown(num, isHex, precision, f))
  {
    i := 0;
    NoDigits(f.uppercase);
    hide Text, Reverse, DigitChar;
    assert tmp[..0] == [];
    if num == 0 {
      if precision != 0 {
        tmp[0] := '0';
        i := 1;
        assert tmp[..1] == ['0'];
      }
    } else {
      var v: u64 := Magnitude(num, f);
      TwentyDigits(isHex, v);
      i := TakeNonzero(v, isHex, f.uppercase, tmp);
    }
  }

  method TakeNonzero(value: u64, isHex: bool, upper: bool, tmp: array<char>) returns (i: nat)
    requires tmp.Length == 20 && |Digits(isHex, value)| <= 20
    modifies tmp
    ensures i <= 20 && Reverse(tmp[..i]) == Text(upper, Digits(isHex, value))
  {
    NoDigits(upper);
    hide Text, Reverse, DigitChar;
    var v: nat := value;
    i := 0;
    assert tmp[..0] == [];
    while v != 0
      invariant i + |Digits(isHex, v)| == |Digits(isHex, value)|
      invariant Text(upper, Digits(isHex, v)) + Reverse(tmp[..i]) == Text(upper, Digits(isHex, value))
    {
      ghost var was := tmp[..i];
      DigitTaken(isHex, v, upper, was);
      tmp[i] := DigitChar(upper, v % Base(isHex));
      assert tmp[..i + 1] == was + [DigitChar(upper, v % Base(isHex))];
      v := v / Base(isHex);
      i := i + 1;
    }
  }

  lemma NoDigits(upper: bool)
    ensures Text(upper, []) == "" && Reverse<char>([]) == []
    ensures Reverse(['0']) == Text(upper, [0])
  {
  }

  lemma TextAppend(upper: bool, ds: seq<int>, d: int)
    requires forall i :: 0 <= i < |ds| ==> 0 <= ds[i] < 16
    requires 0 <= d < 16
    ensures Text(upper, ds + [d]) == Text(upper, ds) + [DigitChar(upper, d)]
  {
    hide DigitChar;
  }

  lemma ReverseAppend(s: string, c: char)
    ensures Reverse(s + [c]) == [c] + Reverse(s)
  {
  }

  lemma DigitTaken(isHex: bool, v: nat, upper: bool, was: string)
    requires v != 0
    ensures |Digits(isHex, v)| == |Digits(isHex, v / Base(isHex))| + 1
    ensures Text(upper, Digits(isHex, v)) + Reverse(was) ==
      Text(upper, Digits(isHex, v / Base(isHex))) + Reverse(was + [DigitChar(upper, v % Base(isHex))])
  {
    hide DigitChar, Text, Reverse;
    var rest, c := Digits(isHex, v / Base(isHex)), DigitChar(upper, v % Base(isHex));
    TextAppend(upper, rest, v % Base(isHex));
    ReverseAppend(was, c);
    AppendAssoc(Text(upper, rest), [c], Reverse(was));
  }

  /** The printed number fills the field, or overflows it by what its digits need. */
  lemma RenderLength(num: s64, isHex: bool, size: int, precision: int, f: Flags)
    ensures |Render(num, isHex, size, precision, f)| ==
      Max(size, |Sign(num, f)| + |Prefix(num, isHex, f)| + Max(|Shown(num, isHex, precision, f)|, precision))
  {
    hide Shown, Sign, Prefix;
  }

  /** A field width adds blanks outside the number, or zeros between its prefix and its digits,
      and changes nothing else. */
  lemma WidthOnlyPads(num: s64, isHex: bool, size: int, precision: int, f: Flags)
    ensures var body, head := Render(num, isHex, 0, precision, f), Sign(num, f) + Prefix(num, isHex, f);
      var pad := size - |body|;
      && head <= body
      && Render(num, isHex, size, precision, f) ==
           if ZeroPadded(precision, f) then head + Repeat('0', pad) + body[|head|..]
           else if f.left then body + Repeat(' ', pad)
           else Repeat(' ', pad) + body
  {
    hide Shown, Sign, Prefix, Text, Repeat, Render, BodyLength;
    Parts(num, isHex, 0, precision, f);
    Parts(num, isHex, size, precision, f);
    NoRepeat();
    RenderLength(num, isHex, 0, precision, f);
    var body, head := Render(num, isHex, 0, precision, f), Sign(num, f) + Prefix(num, isHex, f);
    assert body == head + body[|head|..];
  }

  lemma NoRepeat()
    ensures forall c, n :: n <= 0 ==> Repeat(c, n) == ""
  {
  }

  /** The printed number as its number proper, with what the width adds. */
  lemma Parts(num: s64, isHex: bool, size: int, precision: int, f: Flags)
    ensures var head := Sign(num, f) + Prefix(num, isHex, f);
      var tail := Repeat('0', precision - |Shown(num, isHex, precision, f)|) +
                  Text(f.uppercase, Shown(num, isHex, precision, f));
      var pad := size - |head + tail|;
      Render(num, isHex, size, precision, f) ==
        if ZeroPadded(precision, f) then head + Repeat('0', pad) + tail
        else if f.left then head + tail + Repeat(' ', pad)
        else Repeat(' ', pad) + (head + tail)
  {
    hide Shown, Sign, Prefix, Text, Repeat, BodyLength;
    var ds := Shown(num, isHex, precision, f);
    var s, p, y, d := Sign(num, f), Prefix(num, isHex, f), Repeat('0', precision - |ds|), Text(f.uppercase, ds);
    var pad := size - BodyLength(num, isHex, precision, f);
    BodyIs(num, isHex, precision, f);
    NoRepeat();
    Gather(Repeat(' ', if ZeroPadded(precision, f) || f.left then 0 else pad), s, p,
      Repeat('0', if ZeroPadded(precision, f) then pad else 0), y, d, Repeat(' ', if f.left then pad else 0));
  }

  lemma BodyIs(num: s64, isHex: bool, precision: int, f: Flags)
    ensures var ds := Shown(num, isHex, precision, f);
      |Sign(num, f) + Prefix(num, isHex, f) + (Repeat('0', precision - |ds|) + Text(f.uppercase, ds))| ==
        BodyLength(num, isHex, precision, f)
  {
    hide Shown, Sign, Prefix;
  }

  lemma Gather(l: string, s: string, p: string, z: string, y: string, d: string, r: string)
    ensures l + s + p + z + (y + d + r) == l + ((s + p) + z + (y + d)) + r
    ensures z == "" ==> (s + p) + z + (y + d) == (s + p) + (y + d)
    ensures forall x: string :: "" + x == x && x + "" == x
  {
  }

  /** Padding on the left, sign, prefix and zero padding. */
  method PutHead(str: array<char>, at: nat, blanks: int, sign: string, prefix: string, zeros: int) returns (end: nat)
    requires at + |Repeat(' ', blanks)| + |sign| + |prefix| + |Repeat('0', zeros)| <= str.Length
    modifies str
    ensures end == at + |Repeat(' ', blanks) + sign + prefix + Repeat('0', zeros)|
    ensures Wrote(old(str[..]), str[..], at, Repeat(' ', blanks) + sign + prefix + Repeat('0', zeros))
  {
    hide Wrote, Repeat;
    ghost var s0 := str[..];
    ghost var a, d := Repeat(' ', blanks), Repeat('0', zeros);
    end := Fill(str, at, ' ', blanks);
    end := PutNext(str, at, end, sign, s0, a);
    end := PutNext(str, at, end, prefix, s0, a + sign);
    ghost var s3 := str[..];
    end := Fill(str, end, '0', zeros);
    WroteMore(s0, s3, str[..], at, a + sign + prefix, d);
  }

  /** Text appended to what has been written since position at. */
  method PutNext(str: array<char>, ghost at: nat, pos: nat, text: string, ghost before: seq<char>, ghost out: string)
    returns (end: nat)
    requires pos == at + |out| && Wrote(before, str[..], at, out) && pos + |text| <= str.Length
    modifies str
    ensures end == at + |out + text| && Wrote(before, str[..], at, out + text)
  {
    hide Wrote;
    ghost var now := str[..];
    end := Put(str, pos, text);
    WroteMore(before, now, str[..], at, out, text);
  }

  /** Leading zeros, digits and padding on the right. */
  method PutTail(str: array<char>, at: nat, zeros: int, tmp: array<char>, i: nat, blanks: int) returns (end: nat)
    requires i <= tmp.Length && str != tmp
    requires at + |Repeat('0', zeros)| + i + |Repeat(' ', blanks)| <= str.Length
    modifies str
    ensures end == at + |Repeat('0', zeros) + Reverse(tmp[..i]) + Repeat(' ', blanks)|
    ensures Wrote(old(str[..]), str[..], at, Repeat('0', zeros) + Reverse(tmp[..i]) + Repeat(' ', blanks))
  {
    hide Wrote, Repeat, Reverse;
    ghost var s0 := str[..];
    end := Fill(str, at, '0', zeros);
    ghost var s1 := str[..];
    end := PutReversed(str, end, tmp, i);
    ghost var s2 := str[..];
    WroteMore(s0, s1, s2, at, Repeat('0', zeros), Reverse(tmp[..i]));
    end := Fill(str, end, ' ', blanks);
    WroteMore(s0, s2, str[..], at, Repeat('0', zeros) + Reverse(tmp[..i]), Repeat(' ', blanks));
  }

  /** The sign character, and the field width it leaves. */
  method TakeSign(num: s64, size: int, f: Flags) returns (sign: string, left: int)
    ensures sign == Sign(num, f) && left == size - |sign|
  {
    sign, left := "", size;
    if f.sign {
      if num < 0 {
        sign, left := "-", left - 1;
      } else if f.plus {
        sign, left := "+", left - 1;
      } else if f.space {
        sign, left := " ", left - 1;
      }
    }
  }

  /** The padding, sign, prefix, digit and padding loops, in order. */
  method ProcessNumber(str: array<char>, at: nat, num: s64, isHex: bool, size: int, precision: int, f: Flags)
    returns (end: nat)
    requires at + |Render(num, isHex, size, precision, f)| <= str.Length
    modifies str
    ensures end == at + |Render(num, isHex, size, precision, f)|
    ensures Wrote(old(str[..]), str[..], at, Render(num, isHex, size, precision, f))
  {
    hide Wrote, Shown, Sign, Repeat;
    var sign, left := TakeSign(num, size, f);
    var tmp := new char[20];
    var i := TakeDigits(num, isHex, precision, f, tmp);
    var hexPrep := f.hexPrep && num != 0;
    var zeropad := f.zeropad && !(f.left || precision != -1);
    var prefix := "";
    if hexPrep && isHex { left, prefix := left - 2, "0x"; }
    var digits := if i > precision then i else precision;
    left := left - digits;
    assert left == size - BodyLength(num, isHex, precision, f);
    hide BodyLength, Prefix, Sign, Text, Reverse;
    ghost var s0 := str[..];
    end := PutHead(str, at, if zeropad || f.left then 0 else left, sign, prefix, if zeropad then left else 0);
    ghost var s1 := str[..];
    end := PutTail(str, end, digits - i, tmp, i, if f.left then left else 0);
    WroteMore(s0, s1, str[..], at, Head(num, isHex, size, precision, f), Tail(num, isHex, size, precision, f));
  }

  /** The digits shown denote the magnitude and have no leading zero; at most 20 are needed. */
  lemma ShownDenotes(num: s64, isHex: bool, precision: int, f: Flags)
    ensures var ds := Shown(num, isHex, precision, f);
      && Number(isHex, ds) == Magnitude(num, f)
      && |ds| <= 20
      && (num != 0 ==> ds != [] && ds[0] != 0)
      && (ds == [] <==> num == 0 && precision == 0)
  {
    DigitsDenote(isHex, Magnitude(num, f));
    TwentyDigits(isHex, Magnitude(num, f));
  }

  // ----- reading a number -----

  /** The value the readers give a character: right for digits and, in hexadecimal, for
      upper-case letters only. */
  function DigitValue(isHex: bool, c: char): int {
    if isHex && c > '9' then c as int - 'A' as int + 10 else c as int - '0' as int
  }

  function Values(isHex: bool, t: string): (ds: seq<int>)
    ensures |ds| == |t|
  {
    seq(|t|, i requires 0 <= i < |t| => DigitValue(isHex, t[i]))
  }

  /** At most n characters, up to the terminator. */
  function Taken(t: string, n: nat): string {
    if n == 0 || t == "" || t[0] == '\0' then "" else [t[0]] + Taken(t[1..], n - 1)
  }

  /** One round of a reader, with the wrap-around of its 32-bit accumulator. */
  lemma ReadOne(isHex: bool, t: string, c: char)
    ensures Wrap(Wrap(Number(isHex, Values(isHex, t))) * Base(isHex) + DigitValue(isHex, c)) ==
      Wrap(Number(isHex, Values(isHex, t + [c])))
  {
    var n := Number(isHex, Values(isHex, t));
    assert Values(isHex, t + [c])[..|t|] == Values(isHex, t);
    var q := n / 0x1_0000_0000;
    assert n == q * 0x1_0000_0000 + Wrap(n);
    WrapAdds(Wrap(n) * Base(isHex) + DigitValue(isHex, c), q * Base(isHex));
  }

  lemma WrapAdds(x: int, k: int)
    ensures Wrap(x + 0x1_0000_0000 * k) == Wrap(x)
  {
  }

  lemma {:induction false} TakenStops(t: string, n: nat, i: nat)
    requires i <= |t| && i <= n && (i == n || i == |t| || t[i] == '\0')
    requires forall k :: 0 <= k < i ==> t[k] != '\0'
    ensures Taken(t, n) == t[..i]
    decreases i
  {
    if i > 0 { TakenStops(t[1..], n - 1, i - 1); }
  }

  method DecAtoi(text: string, digits: nat) returns (res: u32)
    ensures res == Wrap(Number(false, Values(false, Taken(text, digits))))
  {
    res := 0;
    var i := 0;
    while i < digits && i < |text| && text[i] != '\0'
      invariant i <= digits && i <= |text| && forall k :: 0 <= k < i ==> text[k] != '\0'
      invariant res == Wrap(Number(false, Values(false, text[..i])))
    {
      ReadOne(false, text[..i], text[i]);
      assert text[..i + 1] == text[..i] + [text[i]];
      res := Wrap(DigitValue(false, text[i]) + res * 10);
      i := i + 1;
    }
    TakenStops(text, digits, i);
  }

  method HexAtoi(text: string, digits: nat) returns (res: u32)
    ensures res == Wrap(Number(true, Values(true, Taken(text, digits))))
  {
    res := 0;
    var i := 0;
    while i < digits && i < |text| && text[i] != '\0'
      invariant i <= digits && i <= |text| && forall k :: 0 <= k < i ==> text[k] != '\0'
      invariant res == Wrap(Number(true, Values(true, text[..i])))
    {
      ReadOne(true, text[..i], text[i]);
      assert text[..i + 1] == text[..i] + [text[i]];
      res := Wrap(DigitValue(true, text[i]) + res * 16);
      i := i + 1;
    }
    TakenStops(text, digits, i);
  }

  /** Nothing but zeros and digits is printed: no sign, no prefix, no blanks. */
  predicate OnlyDigits(num: s64, isHex: bool, size: int, precision: int, f: Flags) {
    && Sign(num, f) == "" && Prefix(num, isHex, f) == ""
    && (ZeroPadded(precision, f) || size <= BodyLength(num, isHex, precision, f))
  }

  lemma ReadableDigits(isHex: bool, upper: bool, ds: seq<int>)
    requires forall i :: 0 <= i < |ds| ==> 0 <= ds[i] < 16
    requires if isHex then upper else forall i :: 0 <= i < |ds| ==> ds[i] < 10
    ensures Values(isHex, Text(upper, ds)) == ds
  {
  }

  lemma ZeroValues(isHex: bool, n: int, t: string)
    ensures Values(isHex, Repeat('0', n) + t) == seq(|Repeat('0', n)|, _ => 0) + Values(isHex, t)
  {
  }

  lemma PaddedNumber(isHex: bool, n: int, t: string)
    ensures Number(isHex, Values(isHex, Repeat('0', n) + t)) == Number(isHex, Values(isHex, t))
  {
    hide Values, Repeat, Number;
    ZeroValues(isHex, n, t);
    LeadingZeros(isHex, |Repeat('0', n)|, Values(isHex, t));
  }

  predicate NoNul(t: string) {
    forall i :: 0 <= i < |t| ==> t[i] != '\0'
  }

  lemma DigitsAreNoNul(upper: bool, ds: seq<int>, z1: int, z2: int)
    requires forall i :: 0 <= i < |ds| ==> 0 <= ds[i] < 16
    ensures NoNul(Repeat('0', z1) + (Repeat('0', z2) + Text(upper, ds)))
  {
  }

  /** Reading back a printed 32-bit number, in decimal or in upper-case hexadecimal, whatever
      the field width, precision and zero padding. */
  lemma ReadsBack(v: u32, isHex: bool, size: int, precision: int, f: Flags, n: nat)
    requires (f.sign ==> !f.plus && !f.space) && (isHex ==> f.uppercase && (!f.hexPrep || v == 0))
    requires (f.zeropad && !f.left && precision == -1) || size <= Max(|Shown(v, isHex, precision, f)|, precision)
    requires n >= |Render(v, isHex, size, precision, f)|
    ensures Wrap(Number(isHex, Values(isHex, Taken(Render(v, isHex, size, precision, f), n)))) == v
  {
    var ds := Shown(v, isHex, precision, f);
    RenderIsDigits(v, isHex, size, precision, f);
    ShownDenotes(v, isHex, precision, f);
    ReadsDigits(v, isHex, f.uppercase, ds,
      if ZeroPadded(precision, f) then size - BodyLength(v, isHex, precision, f) else 0, precision - |ds|, n);
  }

  lemma ReadsDigits(v: u32, isHex: bool, upper: bool, ds: seq<int>, z1: int, z2: int, n: nat)
    requires forall i :: 0 <= i < |ds| ==> 0 <= ds[i] < 16
    requires if isHex then upper else forall i :: 0 <= i < |ds| ==> ds[i] < 10
    requires Number(isHex, ds) == v
    requires n >= |Repeat('0', z1) + (Repeat('0', z2) + Text(upper, ds))|
    ensures Wrap(Number(isHex, Values(isHex, Taken(Repeat('0', z1) + (Repeat('0', z2) + Text(upper, ds)), n)))) == v
  {
    hide Values, Text, Repeat, Number, Taken, Wrap;
    var text := Repeat('0', z1) + (Repeat('0', z2) + Text(upper, ds));
    DigitsAreNoNul(upper, ds, z1, z2);
    ReadableDigits(isHex, upper, ds);
    PaddedNumber(isHex, z1, Repeat('0', z2) + Text(upper, ds));
    PaddedNumber(isHex, z2, Text(upper, ds));
    TakenStops(text, n, |text|);
    assert text[..|text|] == text;
    WrapSmall(v);
  }

  lemma WrapSmall(v: u32)
    ensures Wrap(v) == v
  {
  }

  lemma RenderIsDigits(v: s64, isHex: bool, size: int, precision: int, f: Flags)
    requires OnlyDigits(v, isHex, size, precision, f)
    ensures var ds := Shown(v, isHex, precision, f);
      var pad := size - BodyLength(v, isHex, precision, f);
      Render(v, isHex, size, precision, f) ==
        Repeat('0', if ZeroPadded(precision, f) then pad else 0) +
          (Repeat('0', precision - |ds|) + Text(f.uppercase, ds))
  {
    hide Text, Shown;
  }

  // ----- lower-case letters -----

  /** 1 for each digit that is printed as a letter. */
  function Letters(ds: seq<int>): (r: seq<int>)
    ensures |r| == |ds|
  {
    seq(|ds|, i requires 0 <= i < |ds| => if ds[i] >= 10 then 1 else 0)
  }

  lemma {:induction false} LowerValue(ds: seq<int>)
    requires forall i :: 0 <= i < |ds| ==> 0 <= ds[i] < 16
    ensures Number(true, Values(true, Text(false, ds))) == Number(true, ds) + 32 * Number(true, Letters(ds))
  {
    if ds != [] {
      var front, last := ds[..|ds| - 1], ds[|ds| - 1];
      LowerValue(front);
      LowerDigit(last);
      FrontOf(ds);
    }
  }

  lemma LowerDigit(d: int)
    requires 0 <= d < 16
    ensures DigitValue(true, DigitChar(false, d)) == d + if d >= 10 then 32 else 0
  {
  }

  lemma FrontOf(ds: seq<int>)
    requires ds != [] && forall i :: 0 <= i < |ds| ==> 0 <= ds[i] < 16
    ensures Values(true, Text(false, ds))[..|ds| - 1] == Values(true, Text(false, ds[..|ds| - 1]))
    ensures Values(true, Text(false, ds))[|ds| - 1] == DigitValue(true, DigitChar(false, ds[|ds| - 1]))
    ensures Letters(ds)[..|ds| - 1] == Letters(ds[..|ds| - 1])
    ensures Letters(ds)[|ds| - 1] == if ds[|ds| - 1] >= 10 then 1 else 0
  {
    hide DigitValue, DigitChar;
  }

  lemma {:induction false} HeadNumber(ds: seq<int>)
    requires ds != []
    ensures Number(true, ds) == ds[0] * Power(true, |ds| - 1) + Number(true, ds[1..])
  {
    if |ds| > 1 {
      var front, last := ds[..|ds| - 1], ds[|ds| - 1];
      HeadNumber(front);
      assert ds[1..][..|ds| - 2] == front[1..];
      assert Number(true, ds[1..]) == Number(true, front[1..]) * 16 + last;
      assert Number(true, ds) == (ds[0] * Power(true, |ds| - 2) + Number(true, front[1..])) * 16 + last;
    }
  }

  lemma {:induction false} FewLetters(bits: seq<int>)
    requires forall i :: 0 <= i < |bits| ==> bits[i] in {0, 1}
    ensures 0 <= 15 * Number(true, bits) < Power(true, |bits|)
    ensures Number(true, bits) == 0 <==> forall i :: 0 <= i < |bits| ==> bits[i] == 0
  {
    if bits != [] { FewLetters(bits[..|bits| - 1]); }
  }

  lemma SmallExcess(v: u32, x: int)
    requires 0 <= 15 * x < 0x1000_0000
    ensures Wrap(v + 32 * x) == v <==> x == 0
  {
  }

  /** A lower-case rendering is misread exactly when one of the seven low digits is a letter:
      what the top digit adds falls out of the 32-bit accumulator. */
  lemma LowerCaseReads(v: u32)
    ensures var ds := Digits(true, v);
      Wrap(Number(true, Values(true, Text(false, ds)))) == v <==> NoLetters(ds, if |ds| == 8 then 1 else 0)
  {
    hide Values, Text, Number, Letters, Wrap, Power, Digits, NoLetters;
    var ds := Digits(true, v);
    var bits := Letters(ds);
    DigitsDenote(true, v);
    HexPowers();
    DigitCount(true, v, 8);
    LowerValue(ds);
    LetterExcess(v, ds, bits);
  }

  lemma HexPowers()
    ensures Power(true, 7) == 0x1000_0000 && Power(true, 8) == 0x1_0000_0000
  {
    assert Power(true, 4) == 0x1_0000;
  }

  lemma LetterExcess(v: u32, ds: seq<int>, bits: seq<int>)
    requires |ds| <= 8 && bits == Letters(ds)
    ensures Wrap(v + 32 * Number(true, bits)) == v <==> NoLetters(ds, if |ds| == 8 then 1 else 0)
  {
    HexPowers();
    hide Power, Number, Wrap;
    if |ds| == 8 {
      HeadNumber(bits);
      assert 32 * Number(true, bits) == 0x2_0000_0000 * bits[0] + 32 * Number(true, bits[1..]) by {
        assert bits[0] == 0 || bits[0] == 1;
      }
      LowSeven(v, bits[1..]);
      WrapAdds(v + 32 * Number(true, bits[1..]), 2 * bits[0]);
      LetterBits(ds, 1);
    } else {
      LowSeven(v, bits);
      LetterBits(ds, 0);
      assert bits[0..] == bits;
    }
  }

  predicate NoLetters(ds: seq<int>, k: nat) {
    forall i :: k <= i < |ds| ==> ds[i] < 10
  }

  lemma LetterBits(ds: seq<int>, k: nat)
    requires k <= |ds|
    ensures (forall i :: 0 <= i < |Letters(ds)[k..]| ==> Letters(ds)[k..][i] == 0) <==> NoLetters(ds, k)
  {
    var bits := Letters(ds)[k..];
    assert forall i :: k <= i < |ds| ==> bits[i - k] == if ds[i] >= 10 then 1 else 0;
  }

  lemma {:induction false} PowerMonotone(m: nat, n: nat)
    requires m <= n
    ensures Power(true, m) <= Power(true, n)
    decreases n
  {
    if m < n { PowerMonotone(m, n - 1); }
  }

  lemma LowSeven(v: u32, bits: seq<int>)
    requires |bits| <= 7 && forall i :: 0 <= i < |bits| ==> bits[i] in {0, 1}
    ensures Wrap(v + 32 * Number(true, bits)) == v <==> forall i :: 0 <= i < |bits| ==> bits[i] == 0
  {
    HexPowers();
    hide Power, Number, Wrap;
    FewLetters(bits);
    PowerMonotone(|bits|, 7);
    SmallExcess(v, Number(true, bits));
  }
}
