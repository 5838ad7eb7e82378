/** The fixed-point options of arm9/source/config.c: numbers with eight decimals, kept as
    integers, printed into and parsed from the configuration file. */
module FixedPoint {
  import opened Machine
  import opened Fmt

  const ONE: int := 100_000_000
  const S64_MIN: int := -0x8000_0000_0000_0000
  const S64_MAX: int := 0x7FFF_FFFF_FFFF_FFFF

  /** The 64-bit two's complement reading of a number. */
  function Signed64(x: int): s64 {
    var w := x % 0x1_0000_0000_0000_0000;
    if w <= S64_MAX then w else w - 0x1_0000_0000_0000_0000
  }

  // ----- printing -----

  /** Divide by ten until the last digit is a zero. */
  function DropLast(frac: nat): (r: nat)
    ensures r <= frac && r % 10 == 0
    ensures r == frac <==> frac % 10 == 0
  {
    if frac % 10 == 0 then frac else DropLast(frac / 10)
  }

  const PLAIN: Flags := Flags(false, true, false, false, false, false, false)
  const ZERO_PADDED: Flags := Flags(true, true, false, false, false, false, false)

  function IntText(n: s64): string {
    Render(n, false, -1, -1, PLAIN)
  }

  function EightDigits(frac: nat): string
    requires frac < ONE
  {
    Render(frac, false, 8, -1, ZERO_PADDED)
  }

  function StripZeros(t: string): (r: string)
    ensures r <= t && (r == "" || r[|r| - 1] != '0')
  {
    if t == "" || t[|t| - 1] != '0' then t else StripZeros(t[..|t| - 1])
  }

  function Whole(v: s64): (w: nat)
    ensures w <= 92_233_720_368
  {
    var x: int := v;
    (if x >= 0 then x else -x) / ONE
  }

  function Fraction(v: s64): (f: nat)
    ensures f < ONE
  {
    var x: int := v;
    DropLast((if x >= 0 then x else -x) % ONE)
  }

  function SignedWhole(v: s64): s64 {
    var w: int := Whole(v);
    if v >= 0 then w else -w
  }

  function Print(v: s64): string {
    IntText(SignedWhole(v)) + if Fraction(v) == 0 then "" else "." + StripZeros(EightDigits(Fraction(v)))
  }

  // ----- parsing -----

  predicate IsDigit(c: char) {
    '0' <= c <= '9'
  }

  predicate AllDigits(t: string) {
    forall i :: 0 <= i < |t| ==> IsDigit(t[i])
  }

  function Decimal(t: string): int {
    Number(false, Values(false, t))
  }

  /** An optional sign, accepted only before at least one more character, and digits. */
  function ParseInt(t: string): Option<s64> {
    var skip := |t| >= 2 && (t[0] == '+' || t[0] == '-');
    var digits := if skip then t[1..] else t;
    if !AllDigits(digits) then None
    else Some(Signed64(if skip && t[0] == '-' then -Decimal(digits) else Decimal(digits)))
  }

  /** At most eight decimals; what follows them is not looked at. */
  function ParseFraction(t: string): Option<int> {
    var n := if |t| < 8 then |t| else 8;
    if AllDigits(t[..n]) then Some(Decimal(t[..n]) * Power(false, 8 - n)) else None
  }

  function PointOf(t: string): (i: nat)
    ensures i <= |t| && (forall k :: 0 <= k < i ==> t[k] != '.') && (i < |t| ==> t[i] == '.')
  {
    if t == "" || t[0] == '.' then 0 else 1 + PointOf(t[1..])
  }

  /** An unsigned number under a sign that was read before it. */
  function ParseUnsigned(t: string, negative: bool): Option<s64> {
    var point := PointOf(t);
    if t == "" || (point == 0 && |t| == 1) then None
    else
      var whole := if point == 0 then Some(0) else ParseInt(t[..point]);
      if whole.None? then None
      else
        var scaled := (if negative then -whole.value else whole.value) * ONE;
        if !(S64_MIN <= scaled <= S64_MAX) then None
        else
          var frac := if point + 1 < |t| then ParseFraction(t[point + 1..]) else Some(0);
          if frac.None? then None
          else Some(Signed64(if negative then -(scaled + frac.value) else scaled + frac.value))
  }

  function Parse(t: string, minval: s64, maxval: s64): Option<s64> {
    if t == "" then None
    else
      var r := if t[0] == '+' || t[0] == '-' then ParseUnsigned(t[1..], t[0] == '-') else ParseUnsigned(t, false);
      if r.Some? && minval <= r.value <= maxval then r else None
  }

  // ----- what is printed -----

  lemma DigitTextReads(ds: seq<int>)
    requires forall i :: 0 <= i < |ds| ==> 0 <= ds[i] < 10
    ensures AllDigits(Text(false, ds)) && Decimal(Text(false, ds)) == Number(false, ds)
  {
    hide DigitChar, DigitValue, Number;
    forall i | 0 <= i < |ds| ensures IsDigit(Text(false, ds)[i]) { DecimalDigit(ds[i]); }
    ReadableDigits(false, false, ds);
  }

  lemma DecimalDigit(d: int)
    requires 0 <= d < 10
    ensures IsDigit(DigitChar(false, d))
  {
  }

  lemma ShownIsDecimal(n: s64, precision: int, f: Flags)
    ensures forall i :: 0 <= i < |Shown(n, false, precision, f)| ==> 0 <= Shown(n, false, precision, f)[i] < 10
  {
  }

  lemma PlainText(n: s64)
    requires n >= 0
    ensures IntText(n) == Text(false, Shown(n, false, -1, PLAIN))
  {
    hide Text, Shown, Render, Head, Tail;
    RenderIsDigits(n, false, -1, -1, PLAIN);
    var ds := Shown(n, false, -1, PLAIN);
    assert Repeat('0', 0) + (Repeat('0', -1 - |ds|) + Text(false, ds)) == Text(false, ds);
  }

  lemma UnsignedText(n: s64)
    requires n >= 0
    ensures var t := IntText(n); t != "" && AllDigits(t) && Decimal(t) == n
  {
    PlainText(n);
    ShownIsDecimal(n, -1, PLAIN);
    ShownDenotes(n, false, -1, PLAIN);
    DigitTextReads(Shown(n, false, -1, PLAIN));
    assert Magnitude(n, PLAIN) == n;
    hide Text, Shown, Decimal, IntText, Magnitude, AllDigits;
  }

  lemma NegativeText(n: s64)
    requires S64_MIN < n < 0
    ensures var m: int := n; IntText(n) == "-" + IntText(-m)
  {
    var m: int := n;
    assert Magnitude(n, PLAIN) == Magnitude(-m, PLAIN);
    assert Shown(n, false, -1, PLAIN) == Shown(-m, false, -1, PLAIN);
    PlainText(-m);
  }

  lemma PaddedText(frac: nat)
    requires frac < ONE
    ensures var ds := Shown(frac, false, -1, ZERO_PADDED);
      |ds| <= 8 && EightDigits(frac) == Repeat('0', 8 - |ds|) + Text(false, ds)
  {
    RenderIsDigits(frac, false, 8, -1, ZERO_PADDED);
    assert Power(false, 8) == ONE;
    DigitCount(false, frac, 8);
    assert |Shown(frac, false, -1, ZERO_PADDED)| <= 8;
    hide Text, Shown, Render;
    var ds := Shown(frac, false, -1, ZERO_PADDED);
    assert Repeat('0', -1 - |ds|) + Text(false, ds) == Text(false, ds);
  }

  lemma ZerosAreDigits(n: int, t: string)
    requires AllDigits(t)
    ensures AllDigits(Repeat('0', n) + t)
  {
  }

  lemma EightDigitText(frac: nat)
    requires frac < ONE
    ensures var t := EightDigits(frac); |t| == 8 && AllDigits(t) && Decimal(t) == frac
  {
    var ds := Shown(frac, false, -1, ZERO_PADDED);
    PaddedText(frac);
    ShownIsDecimal(frac, -1, ZERO_PADDED);
    ShownDenotes(frac, false, -1, ZERO_PADDED);
    assert Magnitude(frac, ZERO_PADDED) == frac;
    hide Text, Shown, AllDigits, EightDigits, Magnitude, Values, Number;
    DigitTextReads(ds);
    PaddedNumber(false, 8 - |ds|, Text(false, ds));
    ZerosAreDigits(8 - |ds|, Text(false, ds));
  }

  lemma DecimalAppend(t: string, c: char)
    ensures Decimal(t + [c]) == 10 * Decimal(t) + DigitValue(false, c)
  {
    assert Values(false, t + [c])[..|t|] == Values(false, t);
  }

  lemma {:induction false} StripKeepsFraction(t: string)
    requires |t| <= 8 && AllDigits(t)
    ensures AllDigits(StripZeros(t)) && ParseFraction(StripZeros(t)) == Some(Decimal(t) * Power(false, 8 - |t|))
    ensures Decimal(t) != 0 ==> StripZeros(t) != ""
  {
    if t == "" || t[|t| - 1] != '0' {
      assert t[..|t|] == t;
    } else {
      var front := t[..|t| - 1];
      StripKeepsFraction(front);
      DecimalAppend(front, '0');
      assert t == front + ['0'];
      ShiftDecimal(Decimal(front), 8 - |t|);
    }
  }

  lemma ShiftDecimal(d: int, n: nat)
    ensures d * Power(false, n + 1) == (10 * d) * Power(false, n)
  {
  }

  lemma FractionReads(frac: nat)
    requires 0 < frac < ONE
    ensures var t := StripZeros(EightDigits(frac)); t != "" && ParseFraction(t) == Some(frac)
  {
    EightDigitText(frac);
    StripKeepsFraction(EightDigits(frac));
    assert Power(false, 0) == 1;
  }

  // ----- reading back -----

  lemma NoPoint(a: string)
    requires AllDigits(a)
    ensures PointOf(a) == |a|
    ensures forall b :: PointOf(a + "." + b) == |a|
  {
    forall b ensures PointOf(a + "." + b) == |a| {
      var t := a + "." + b;
      assert t[|a|] == '.';
      assert forall k :: 0 <= k < |a| ==> t[k] == a[k] && IsDigit(a[k]);
    }
  }

  lemma WrapSmall64(x: int)
    requires S64_MIN <= x <= S64_MAX
    ensures Signed64(x) == x
  {
  }

  lemma DigitsParse(a: string)
    requires a != "" && AllDigits(a) && 0 <= Decimal(a) <= S64_MAX
    ensures ParseInt(a) == Some(Decimal(a))
  {
    assert IsDigit(a[0]);
    WrapSmall64(Decimal(a));
  }

  /** Digits with or without a sign; anything else is an error. */
  lemma SignedDigits(d: string, c: char)
    requires d != "" && 0 <= Decimal(d) <= S64_MAX
    ensures ParseInt("-" + d) == if AllDigits(d) then Some(-Decimal(d)) else None
    ensures ParseInt("+" + d) == if AllDigits(d) then Some(Decimal(d)) else None
    ensures c !in "+-" && !('0' <= c <= '9') ==> ParseInt([c] + d) == None
  {
    hide Decimal;
    assert ("-" + d)[1..] == d && ("+" + d)[1..] == d && ([c] + d)[1..] == d;
    WrapSmall64(Decimal(d));
    WrapSmall64(-Decimal(d));
    assert !('0' <= c <= '9') ==> !AllDigits([c] + d) by { assert ([c] + d)[0] == c; }
  }

  lemma {:induction false} AllDigitsAtLeastZero(t: string)
    requires AllDigits(t)
    ensures Decimal(t) >= 0
  {
    if t != "" {
      var front, c := t[..|t| - 1], t[|t| - 1];
      AllDigitsAtLeastZero(front);
      DecimalAppend(front, c);
      assert t == front + [c];
    }
  }

  /** What decimals stand for, in units of 10^-8. */
  function FractionOf(b: string): int
    requires |b| <= 8
  {
    Decimal(b) * Power(false, 8 - |b|)
  }

  /** A whole part of digits, or none, a point and at most eight decimals. A minus sign is applied
      to the whole part and then to the sum, so that the whole part keeps its sign. */
  lemma WithPoint(a: string, b: string, negative: bool)
    requires AllDigits(a) && AllDigits(b) && 0 < |b| <= 8 && Decimal(a) <= 92_233_720_367
    ensures var w, f := Decimal(a) * 100_000_000, FractionOf(b);
      ParseUnsigned(a + "." + b, negative) == Some(if negative then w - f else w + f)
  {
    var t, f := a + "." + b, FractionOf(b);
    FractionBound(b);
    FractionIs(b);
    WholeIs(a, b);
    AddParts(a, b, Decimal(a), f, negative);
  }

  lemma AddParts(a: string, b: string, w: nat, f: nat, negative: bool)
    requires b != "" && w <= 92_233_720_367 && f < ONE
    requires PointOf(a + "." + b) == |a| && ParseFraction(b) == Some(f)
    requires if a == "" then w == 0 else ParseInt(a) == Some(w)
    ensures ParseUnsigned(a + "." + b, negative) == Some(if negative then w * ONE - f else w * ONE + f)
  {
    hide ParseInt, ParseFraction, Signed64, PointOf;
    var t := a + "." + b;
    assert t[..|a|] == a && t[|a| + 1..] == b;
    WrapSmall64(w * ONE + f);
    WrapSmall64(w * ONE - f);
  }

  lemma FractionIs(b: string)
    requires AllDigits(b) && |b| <= 8
    ensures ParseFraction(b) == Some(FractionOf(b))
  {
    hide Decimal, Power;
    assert b[..|b|] == b;
  }

  /** Where the point is, and what stands before and after it. */
  lemma WholeIs(a: string, b: string)
    requires AllDigits(a) && Decimal(a) <= S64_MAX
    ensures var t := a + "." + b;
      && t != "" && PointOf(t) == |a| && t[..|a|] == a && t[|a| + 1..] == b
      && 0 <= Decimal(a) && (if a == "" then Decimal(a) == 0 else ParseInt(a) == Some(Decimal(a)))
  {
    AllDigitsAtLeastZero(a);
    NoPoint(a);
    assert Decimal("") == 0;
    if a != "" { DigitsParse(a); }
  }

  lemma {:induction false} FractionBound(b: string)
    requires AllDigits(b) && |b| <= 8
    ensures 0 <= Decimal(b) < Power(false, |b|)
    ensures 0 <= FractionOf(b) < ONE
  {
    DecimalBound(b);
    PowersOfTen();
    hide Decimal, Power;
  }

  lemma {:induction false} DecimalBound(b: string)
    requires AllDigits(b)
    ensures 0 <= Decimal(b) < Power(false, |b|)
  {
    if b != "" {
      var front, c := b[..|b| - 1], b[|b| - 1];
      DecimalBound(front);
      DecimalAppend(front, c);
      assert b == front + [c];
    }
  }

  lemma PowersOfTen()
    ensures Power(false, 0) == 1 && Power(false, 1) == 10 && Power(false, 2) == 100 && Power(false, 3) == 1000
    ensures Power(false, 4) == 10_000 && Power(false, 5) == 100_000 && Power(false, 6) == 1_000_000
    ensures Power(false, 7) == 10_000_000 && Power(false, 8) == 100_000_000
  {
    assert Power(false, 2) == 100;
    assert Power(false, 4) == 10_000;
    assert Power(false, 6) == 1_000_000;
  }

  /** The same as an option, with any sign: a plus sign changes nothing. */
  lemma DecimalTexts(a: string, b: string)
    requires AllDigits(a) && AllDigits(b) && 0 < |b| <= 8 && Decimal(a) <= 92_233_720_367
    ensures var w, f := Decimal(a) * 100_000_000, FractionOf(b);
      && Parse(a + "." + b, S64_MIN, S64_MAX) == Some(w + f)
      && Parse("+" + (a + "." + b), S64_MIN, S64_MAX) == Some(w + f)
      && Parse("-" + (a + "." + b), S64_MIN, S64_MAX) == Some(w - f)
  {
    var t := a + "." + b;
    WithPoint(a, b, false);
    WithPoint(a, b, true);
    assert t[0] != '+' && t[0] != '-' by { assert a != "" ==> IsDigit(a[0]) && t[0] == a[0]; }
    hide ParseUnsigned, Decimal, FractionOf, AllDigits;
    assert ("+" + t)[1..] == t && ("-" + t)[1..] == t;
  }

  /** The decimal text of a whole part and a fraction, read under a sign. */
  lemma ParseParts(a: string, w: nat, frac: nat, negative: bool)
    requires a != "" && AllDigits(a) && Decimal(a) == w <= 92_233_720_368 && frac < ONE && w * ONE + frac <= S64_MAX
    ensures ParseUnsigned(a + if frac == 0 then "" else "." + StripZeros(EightDigits(frac)), negative) ==
      Some(if negative then w * ONE - frac else w * ONE + frac)
  {
    hide Decimal, StripZeros, EightDigits, ParseInt, ParseFraction, Signed64, PointOf;
    NoPoint(a);
    DigitsParse(a);
    if frac == 0 {
      assert a + "" == a && a[..|a|] == a;
    } else {
      var b := StripZeros(EightDigits(frac));
      FractionReads(frac);
      assert a + ("." + b) == a + "." + b;
      var t := a + "." + b;
      assert t[..|a|] == a && t[|a| + 1..] == b;
    }
    WrapSmall64(w * ONE + frac);
    WrapSmall64(w * ONE - frac);
  }

  /** What a printed value reads back as: the sign of a negative value is lost, and so are the
      decimals that the printer drops. */
  lemma Reread(v: s64)
    requires v > S64_MIN
    ensures var w, f := Whole(v), Fraction(v);
      Parse(Print(v), S64_MIN, S64_MAX) == Some(if v >= 0 then w * ONE + f else if w == 0 then f else w * ONE - f)
  {
    hide ParseUnsigned, IntText, StripZeros, EightDigits, Decimal;
    var x: int := v;
    var w, f := Whole(v), Fraction(v);
    assert w * ONE + f <= (if x >= 0 then x else -x);
    UnsignedText(w);
    var a := IntText(w);
    assert a[0] != '+' && a[0] != '-' by { assert IsDigit(a[0]); }
    ParseParts(a, w, f, false);
    ParseParts(a, w, f, true);
    if v < 0 && w > 0 {
      NegativeText(-w);
      var b := if f == 0 then "" else "." + StripZeros(EightDigits(f));
      assert Print(v) == "-" + (a + b);
      assert ("-" + (a + b))[1..] == a + b;
    }
  }

  /** A value survives being saved and loaded if and only if it is in range, not negative, and
      its eighth decimal is zero. */
  lemma FixedPointRoundTrip(v: s64, minval: s64, maxval: s64)
    requires v > S64_MIN
    ensures Parse(Print(v), minval, maxval) == Some(v) <==> minval <= v <= maxval && v >= 0 && v % 10 == 0
  {
    hide Print, Parse, Whole, Fraction;
    Reread(v);
    ParseInRange(Print(v), minval, maxval);
    RereadIsSame(v);
  }

  lemma ParseInRange(t: string, minval: s64, maxval: s64)
    ensures var r := Parse(t, S64_MIN, S64_MAX);
      Parse(t, minval, maxval) == if r.Some? && minval <= r.value <= maxval then r else None
  {
    hide ParseUnsigned;
  }

  lemma RereadIsSame(v: s64)
    ensures var w, f := Whole(v), Fraction(v);
      (if v >= 0 then w * ONE + f else if w == 0 then f else w * ONE - f) == v <==> v >= 0 && v % 10 == 0
  {
    var x: int := v;
    var m := if x >= 0 then x else -x;
    hide DropLast;
    Decimals(m);
    assert DropLast(m % ONE) == m % ONE <==> m % ONE % 10 == 0;
  }

  lemma Decimals(m: nat)
    ensures m == (m / ONE) * ONE + m % ONE && m % ONE % 10 == m % 10
  {
  }

  lemma NoDecimalsLeft()
    ensures DropLast(123) == 0 && DropLast(0) == 0
  {
    assert DropLast(12) == DropLast(1);
  }

  /** Two values that come back changed: one without its decimals, the other without its sign. */
  lemma ChangedValues()
    ensures Parse(Print(123), S64_MIN, S64_MAX) == Some(0)
    ensures Parse(Print(-100_000_000), S64_MIN, S64_MAX) == Some(100_000_000)
  {
    hide Parse, Print, DropLast;
    NoDecimalsLeft();
    Reread(123);
    Reread(-100_000_000);
  }

  // ----- the routines -----

  method EncodedFloatToString(val: s64) returns (out: string)
    requires val > S64_MIN
    ensures out == Print(val)
  {
    hide IntText, EightDigits, StripZeros, Decimal;
    var sign: int := if val >= 0 then 1 else -1;
    var v: int := val;
    var intPart, fracPart := (sign * v) / ONE, (sign * v) % ONE;
    while fracPart % 10 != 0
      invariant 0 <= fracPart < ONE && DropLast(fracPart) == Fraction(val)
      decreases fracPart
    {
      fracPart := fracPart / 10;
    }
    out := IntText(sign * intPart);
    if fracPart != 0 {
      EightDigitText(fracPart);
      var tail := RemoveTrailingZeros(EightDigits(fracPart));
      out := out + ("." + tail);
    }
  }

  method RemoveTrailingZeros(text: string) returns (r: string)
    requires text != "" && Decimal(text) != 0
    ensures r == StripZeros(text)
  {
    hide StripZeros, Decimal;
    var n2 := |text| - 1;
    assert text[..n2 + 1] == text;
    while text[n2] == '0'
      invariant 0 <= n2 < |text| && StripZeros(text[..n2 + 1]) == StripZeros(text)
      invariant Decimal(text[..n2 + 1]) != 0
      decreases n2
    {
      StripOne(text[..n2 + 1]);
      assert text[..n2 + 1][..n2] == text[..n2];
      n2 := n2 - 1;
    }
    StripDone(text[..n2 + 1]);
    r := text[..n2 + 1];
  }

  lemma StripOne(t: string)
    requires t != "" && t[|t| - 1] == '0' && Decimal(t) != 0
    ensures StripZeros(t) == StripZeros(t[..|t| - 1])
    ensures |t| > 1 && Decimal(t[..|t| - 1]) != 0
  {
    DecimalAppend(t[..|t| - 1], '0');
    assert t == t[..|t| - 1] + ['0'];
  }

  lemma StripDone(t: string)
    requires t != "" && t[|t| - 1] != '0'
    ensures StripZeros(t) == t
  {
  }

  lemma WrapStep(a: string, c: char)
    ensures Signed64(10 * Signed64(Decimal(a)) + DigitValue(false, c)) == Signed64(Decimal(a + [c]))
  {
    var d := Decimal(a);
    DecimalAppend(a, c);
    var q := WrapQuotient(d);
    WrapShift(10 * Signed64(d) + DigitValue(false, c), 10 * q);
  }

  function WrapQuotient(x: int): (q: int)
    ensures x == Signed64(x) + 0x1_0000_0000_0000_0000 * q
  {
    (x - Signed64(x)) / 0x1_0000_0000_0000_0000
  }

  lemma WrapShift(x: int, k: int)
    ensures Signed64(x + 0x1_0000_0000_0000_0000 * k) == Signed64(x)
  {
  }

  lemma WrapNegated(x: int)
    ensures var w: int := Signed64(x); Signed64(-w) == Signed64(-x)
  {
    WrapShift(-x, WrapQuotient(x));
  }

  /** Digits with an optional sign, in 64-bit arithmetic. */
  method ParseDecInt(val: string) returns (r: Option<s64>)
    ensures r == ParseInt(val)
  {
    hide Decimal, Signed64;
    var res: int := 0;
    var i := 0;
    var negative := false;
    if |val| >= 2 {
      if val[0] == '+' {
        i := 1;
      } else if val[0] == '-' {
        negative, i := true, 1;
      }
    }
    var digits := val[i..];
    assert val[0..] == val;
    var k := 0;
    NothingRead();
    while k < |digits|
      invariant k <= |digits| && AllDigits(digits[..k]) && res == Signed64(Decimal(digits[..k]))
    {
      if !IsDigit(digits[k]) { return None; }
      WrapStep(digits[..k], digits[k]);
      assert digits[..k + 1] == digits[..k] + [digits[k]];
      res := Signed64(10 * res + DigitValue(false, digits[k]));
      k := k + 1;
    }
    assert digits[..k] == digits;
    WrapNegated(Decimal(digits));
    r := Some(if negative then Signed64(-res) else res);
  }

  lemma NothingRead()
    ensures Signed64(Decimal("")) == 0
  {
  }

  /** The loop over the decimals, with the weight of the next one in mul. */
  method ParseDecimals(text: string, start: int) returns (ok: bool, res: int)
    ensures ok == ParseFraction(text).Some?
    ensures ok ==> res == start + ParseFraction(text).value
  {
    hide Decimal;
    res := start;
    var mul := ONE / 10;
    var i := 0;
    assert Power(false, 7) == mul && Power(false, 0) == 1;
    NothingYet();
    while i < |text| && mul > 0
      invariant 0 <= i <= |text| && i <= 8
      invariant mul == if i < 8 then Power(false, 7 - i) else 0
      invariant AllDigits(text[..i]) && res == start + Decimal(text[..i]) * Power(false, 8 - i)
    {
      if !IsDigit(text[i]) {
        assert text[..if |text| < 8 then |text| else 8][i] == text[i];
        return false, res;
      }
      DecimalAppend(text[..i], text[i]);
      assert text[..i + 1] == text[..i] + [text[i]];
      NextDecimal(Decimal(text[..i]), DigitValue(false, text[i]), 7 - i);
      res := res + DigitValue(false, text[i]) * mul;
      mul := mul / 10;
      i := i + 1;
    }
    ok := true;
  }

  lemma NothingYet()
    ensures Decimal("") == 0
  {
  }

  lemma NextDecimal(d: int, c: int, n: nat)
    ensures d * Power(false, n + 1) + c * Power(false, n) == (10 * d + c) * Power(false, n)
    ensures Power(false, n) / 10 == if n == 0 then 0 else Power(false, n - 1)
  {
  }

  method ParseDecFloat(val: string, minval: s64, maxval: s64) returns (r: Option<s64>)
    ensures r == Parse(val, minval, maxval)
  {
    hide ParseUnsigned;
    if val == "" { return None; }
    var sign := 1;
    var start := 0;
    if val[0] == '+' {
      start := 1;
    } else if val[0] == '-' {
      sign, start := -1, 1;
    }
    assert val[0..] == val;
    var res := ParseMagnitude(val[start..], sign);
    r := if res.Some? && minval <= res.value <= maxval then res else None;
  }

  /** The whole part, its scaling with an overflow check, and the decimals. */
  method ParseMagnitude(val: string, sign: int) returns (r: Option<s64>)
    requires sign == 1 || sign == -1
    ensures r == ParseUnsigned(val, sign == -1)
  {
    hide ParseInt, ParseFraction, Signed64;
    if val == "" { return None; }
    var point := PointOf(val);
    var intPart: int := 0;
    if point == 0 {
      if |val| == 1 { return None; }
    } else {
      var whole := ParseDecInt(val[..point]);
      if whole == None { return None; }
      intPart := whole.value;
    }
    var intPartAbs := if sign == -1 then -intPart else intPart;
    var res := intPartAbs * ONE;
    if !(S64_MIN <= res <= S64_MAX) { return None; }
    if point + 1 < |val| {
      var ok;
      ok, res := ParseDecimals(val[point + 1..], res);
      if !ok { return None; }
    }
    r := Some(Signed64(sign * res));
  }
}
