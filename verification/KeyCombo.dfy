/** The key-combination option of arm9/source/config.c: key names joined by '+'. A 32-bit
    combination is the set of its bits. */
module KeyCombo {
  import opened Machine

  type Combo = c: set<nat> | forall i :: i in c ==> i < 32

  const KEY_NAMES: seq<string> := [
    "A", "B", "Select", "Start", "Right", "Left", "Up", "Down", "R", "L", "X", "Y",
    "?", "?",
    "ZL", "ZR",
    "?", "?", "?", "?",
    "Touch",
    "?", "?", "?",
    "CStick Right", "CStick Left", "CStick Up", "CStick Down",
    "CPad Right", "CPad Left", "CPad Up", "CPad Down"]

  function KeyName(i: nat): string
    requires i < 32
  {
    KEY_NAMES[i]
  }

  /** The bits that have a name. */
  predicate Named(i: nat) {
    i < 12 || i == 14 || i == 15 || i == 20 || 24 <= i < 32
  }

  function Lower(c: char): char {
    if 'A' <= c <= 'Z' then (c as int + 32) as char else c
  }

  /** Equality of names without regard to case. */
  predicate SameName(a: string, b: string) {
    |a| == |b| && forall i :: 0 <= i < |a| ==> Lower(a[i]) == Lower(b[i])
  }

  function Cut(token: string): string {
    if |token| > 16 then token[..16] else token
  }

  function KeyOf(token: string): Combo {
    set i: nat | i < 32 && SameName(KeyName(i), Cut(token))
  }

  predicate IsKey(token: string) {
    Cut(token) != "?" && KeyOf(token) != {}
  }

  // ----- the table -----

  /** Length, first and last character of each name, in lower case. */
  function Signature(i: nat): (int, char, char)
    requires Named(i)
  {
    match i
    case 0 => (1, 'a', 'a')
    case 1 => (1, 'b', 'b')
    case 2 => (6, 's', 't')
    case 3 => (5, 's', 't')
    case 4 => (5, 'r', 't')
    case 5 => (4, 'l', 't')
    case 6 => (2, 'u', 'p')
    case 7 => (4, 'd', 'n')
    case 8 => (1, 'r', 'r')
    case 9 => (1, 'l', 'l')
    case 10 => (1, 'x', 'x')
    case 11 => (1, 'y', 'y')
    case 14 => (2, 'z', 'l')
    case 15 => (2, 'z', 'r')
    case 20 => (5, 't', 'h')
    case 24 => (12, 'c', 't')
    case 25 => (11, 'c', 't')
    case 26 => (9, 'c', 'p')
    case 27 => (11, 'c', 'n')
    case 28 => (10, 'c', 't')
    case 29 => (9, 'c', 't')
    case 30 => (7, 'c', 'p')
    case _ => (9, 'c', 'n')
  }

  lemma NameHasSignature(i: nat)
    requires Named(i)
    ensures var s := KeyName(i); s != "" && (|s|, Lower(s[0]), Lower(s[|s| - 1])) == Signature(i)
  {
  }

  lemma UnnamedIsQuestionMark(i: nat)
    requires i < 32
    ensures KeyName(i) == "?" <==> !Named(i)
  {
    if Named(i) { NameHasSignature(i); }
  }

  lemma NoPlusInNames(i: nat)
    requires i < 32
    ensures '+' !in KeyName(i) && |KeyName(i)| <= 12
  {
  }

  /** No two key names are the same. */
  lemma NamesDiffer(i: nat, j: nat)
    requires Named(i) && Named(j) && SameName(KeyName(i), KeyName(j))
    ensures i == j
  {
    hide KeyName;
    NameHasSignature(i);
    NameHasSignature(j);
  }

  lemma SameNameTrans(a: string, b: string, c: string)
    requires SameName(a, c) && SameName(b, c)
    ensures SameName(a, b)
  {
  }

  lemma QuestionMarkOnly(token: string)
    ensures SameName("?", token) <==> token == "?"
  {
  }

  lemma NotQuestionMark(name: string, token: string)
    requires SameName(name, token) && name != "?"
    ensures token != "?"
  {
    if |name| == 1 { assert name == [name[0]]; }
  }

  /** A token that spells a key name, in any case, stands for that one bit. */
  lemma KeyOfName(i: nat, token: string)
    requires Named(i) && SameName(KeyName(i), token)
    ensures Cut(token) == token && IsKey(token) && KeyOf(token) == {i}
  {
    NoPlusInNames(i);
    UnnamedIsQuestionMark(i);
    QuestionMarkOnly(token);
    NotQuestionMark(KeyName(i), token);
    hide Lower;
    forall j: nat | j < 32 && SameName(KeyName(j), token) ensures j == i {
      UnnamedIsQuestionMark(j);
      SameNameTrans(KeyName(i), KeyName(j), token);
      if Named(j) {
        NamesDiffer(i, j);
      }
    }
    assert Cut(token) == token;
    assert KeyOf(token) == {i};
    assert i in KeyOf(token);
  }

  // ----- tokens -----

  function IndexOf(s: string, c: char): (i: nat)
    ensures i <= |s|
    ensures forall k :: 0 <= k < i ==> s[k] != c
    ensures i < |s| ==> s[i] == c
  {
    if s == "" || s[0] == c then 0 else 1 + IndexOf(s[1..], c)
  }

  /** The pieces between plus signs; always at least one. */
  function Split(s: string): (ts: seq<string>)
    ensures ts != []
    decreases |s|
  {
    var i := IndexOf(s, '+');
    if i == |s| then [s] else [s[..i]] + Split(s[i + 1..])
  }

  function Join(ts: seq<string>): string
    requires ts != []
  {
    if |ts| == 1 then ts[0] else ts[0] + "+" + Join(ts[1..])
  }

  lemma {:induction false} SplitJoin(ts: seq<string>)
    requires ts != [] && forall t :: t in ts ==> '+' !in t
    ensures Split(Join(ts)) == ts
  {
    var s, t := Join(ts), ts[0];
    assert forall k :: 0 <= k < |t| ==> s[k] == t[k] && t[k] in t;
    if |ts| == 1 {
      assert IndexOf(s, '+') == |s|;
    } else {
      assert s[|t|] == '+' && s[..|t|] == t;
      assert IndexOf(s, '+') == |t|;
      assert s[|t| + 1..] == Join(ts[1..]);
      SplitJoin(ts[1..]);
    }
  }

  // ----- parsing -----

  function Fold(ts: seq<string>, acc: Combo): Option<Combo> {
    if ts == [] then Some(acc)
    else if !IsKey(ts[0]) then None
    else Fold(ts[1..], acc + KeyOf(ts[0]))
  }

  function Parse(val: string): Option<Combo> {
    Fold(Split(val), {})
  }

  /** All the bits that some token stands for. */
  function Bits(ts: seq<string>): Combo {
    set i: nat | i < 32 && InSome(ts, i)
  }

  predicate InSome(ts: seq<string>, i: nat) {
    exists k :: 0 <= k < |ts| && i in KeyOf(ts[k])
  }

  lemma {:induction false} FoldIsUnion(ts: seq<string>, acc: Combo)
    ensures Fold(ts, acc) == if forall t :: t in ts ==> IsKey(t) then Some(acc + Bits(ts)) else None
  {
    hide IsKey, KeyOf;
    if ts == [] {
      assert acc + Bits(ts) == acc;
    } else {
      FoldIsUnion(ts[1..], acc + KeyOf(ts[0]));
      BitsStep(ts);
      assert acc + KeyOf(ts[0]) + Bits(ts[1..]) == acc + Bits(ts);
      assert forall t :: t in ts <==> t == ts[0] || t in ts[1..];
    }
  }

  lemma BitsStep(ts: seq<string>)
    requires ts != []
    ensures Bits(ts) == KeyOf(ts[0]) + Bits(ts[1..])
  {
    hide KeyOf;
    forall i: nat | i < 32 ensures InSome(ts, i) <==> i in KeyOf(ts[0]) || InSome(ts[1..], i) {
      if InSome(ts, i) && i !in KeyOf(ts[0]) {
        var k :| 0 <= k < |ts| && i in KeyOf(ts[k]);
        assert ts[k] == ts[1..][k - 1];
      }
      if InSome(ts[1..], i) {
        var k :| 0 <= k < |ts[1..]| && i in KeyOf(ts[1..][k]);
        assert i in KeyOf(ts[k + 1]);
      }
    }
  }

  /** The option accepts exactly the plus-separated lists of key names, and then yields the
      union of their bits, so neither order nor repetition matters; an empty piece, as after a
      trailing plus sign, is an error. */
  lemma ParseMeaning(val: string)
    ensures var ts := Split(val);
      Parse(val) == if forall t :: t in ts ==> IsKey(t) then Some(Bits(ts)) else None
  {
    FoldIsUnion(Split(val), {});
    assert {} + Bits(Split(val)) == Bits(Split(val));
  }

  /** Any list of key names, in any order and any case, parses to the union of their bits. */
  lemma JoinedKeysParse(ts: seq<string>, keys: seq<nat>)
    requires ts != [] && |keys| == |ts|
    requires forall k :: 0 <= k < |ts| ==> Named(keys[k]) && SameName(KeyName(keys[k]), ts[k])
    ensures Parse(Join(ts)) == Some(set k | 0 <= k < |keys| :: keys[k])
  {
    hide KeyName, Named, SameName, Fold, Split, Join, IsKey, KeyOf;
    forall k | 0 <= k < |ts| ensures '+' !in ts[k] && IsKey(ts[k]) && KeyOf(ts[k]) == {keys[k]} {
      KeyOfName(keys[k], ts[k]);
      NoPlusInToken(keys[k], ts[k]);
    }
    SplitJoin(ts);
    ParseMeaning(Join(ts));
    assert Bits(ts) == set k | 0 <= k < |keys| :: keys[k];
  }

  lemma NoPlusInToken(i: nat, token: string)
    requires Named(i) && SameName(KeyName(i), token)
    ensures '+' !in token
  {
    NoPlusInNames(i);
    hide KeyName;
    forall k | 0 <= k < |token| ensures token[k] != '+' {
      assert Lower(token[k]) == Lower(KeyName(i)[k]) && KeyName(i)[k] != '+';
    }
  }

  // ----- printing -----

  /** The bits of a combination below n, highest first. */
  function KeysBelow(c: Combo, n: nat): (keys: seq<nat>)
    requires n <= 32
    ensures forall k :: 0 <= k < |keys| ==> keys[k] in c && keys[k] < n
    ensures forall i :: i in c && i < n ==> i in keys
  {
    if n == 0 then [] else (if n - 1 in c then [n - 1] else []) + KeysBelow(c, n - 1)
  }

  function NamesOf(keys: seq<nat>): (ts: seq<string>)
    requires forall k :: 0 <= k < |keys| ==> keys[k] < 32
    ensures |ts| == |keys|
  {
    seq(|keys|, k requires 0 <= k < |keys| => KeyName(keys[k]))
  }

  function Print(c: Combo): string {
    var ts := NamesOf(KeysBelow(c, 32));
    if ts == [] then "" else Join(ts)
  }

  lemma EmptyIsRejected()
    ensures Parse("") == None
  {
    ParseMeaning("");
    assert Split("") == [""];
    assert "" in Split("");
    EmptyIsNoKey();
  }

  lemma EmptyIsNoKey()
    ensures !IsKey("")
  {
    forall i: nat | i < 32 ensures !SameName(KeyName(i), "") {
      UnnamedIsQuestionMark(i);
      if Named(i) { NameHasSignature(i); }
    }
    assert KeyOf("") == {};
  }

  lemma UnnamedIsRejected(keys: seq<nat>, i: nat)
    requires keys != [] && forall k :: 0 <= k < |keys| ==> keys[k] < 32
    requires i in keys && !Named(i)
    ensures Parse(Join(NamesOf(keys))) == None
  {
    var ts := NamesOf(keys);
    forall k | 0 <= k < |ts| ensures '+' !in ts[k] { NoPlusInNames(keys[k]); }
    hide KeyName, Named, Fold, Split, Join, KeyOf;
    SplitJoin(ts);
    ParseMeaning(Join(ts));
    UnnamedIsQuestionMark(i);
    var k :| 0 <= k < |keys| && keys[k] == i;
    assert ts[k] in ts && !IsKey(ts[k]);
  }

  /** A saved combination reads back as itself if and only if it is not empty and every bit of
      it has a name; the others are not read back at all. */
  lemma ComboRoundTrip(c: Combo)
    ensures Parse(Print(c)) == if c != {} && (forall i :: i in c ==> Named(i)) then Some(c) else None
  {
    var keys := KeysBelow(c, 32);
    hide Named, KeyName, Parse, Join, SameName, KeysBelow;
    if c == {} {
      EmptyIsRejected();
    } else {
      var some :| some in c;
      assert some in keys;
      if i :| i in c && !Named(i) {
        UnnamedIsRejected(keys, i);
      } else {
        SameNames(keys);
        JoinedKeysParse(NamesOf(keys), keys);
        assert c == set k | 0 <= k < |keys| :: keys[k];
      }
    }
  }

  lemma SameNames(keys: seq<nat>)
    requires forall k :: 0 <= k < |keys| ==> keys[k] < 32
    ensures forall k :: 0 <= k < |keys| ==> SameName(KeyName(keys[k]), NamesOf(keys)[k])
  {
    hide KeyName, Lower;
  }

  // ----- the routines -----

  /** What one round of the parser does with the text that is left. */
  lemma NextToken(rest: string, acc: Combo)
    ensures var n := IndexOf(rest, '+');
      Fold(Split(rest), acc) ==
        if !IsKey(rest[..n]) then None
        else if n == |rest| then Some(acc + KeyOf(rest[..n]))
        else Fold(Split(rest[n + 1..]), acc + KeyOf(rest[..n]))
    ensures IsKey(rest[..IndexOf(rest, '+')]) ==> rest != ""
  {
    hide IsKey, KeyOf, IndexOf;
    var n := IndexOf(rest, '+');
    EmptyIsNoKey();
    if n == |rest| {
      assert rest[..n] == rest;
      assert Split(rest) == [rest];
      assert Fold([], acc + KeyOf(rest)) == Some(acc + KeyOf(rest));
    } else {
      assert Split(rest)[1..] == Split(rest[n + 1..]);
    }
  }

  /** Token by token; the loop ends at the last token or on a trailing plus sign. */
  method ParseKeyCombo(val: string) returns (r: Option<Combo>)
    ensures r == Parse(val)
  {
    hide KeyName, KeyOf, Cut, Split, Fold, IndexOf;
    var startpos := 0;
    var keyCombo: Combo := {};
    var more := true;
    assert val[0..] == val;
    while more
      invariant startpos <= |val|
      invariant more ==> Fold(Split(val[startpos..]), keyCombo) == Parse(val)
      invariant !more ==> Parse(val) == if startpos == |val| then None else Some(keyCombo)
      decreases |val| - startpos, more
    {
      var rest := val[startpos..];
      var n := IndexOf(rest, '+');
      NextToken(rest, keyCombo);
      if Cut(rest[..n]) == "?" { return None; }
      var found := KeyOf(rest[..n]);
      if found == {} { return None; }
      keyCombo := keyCombo + found;
      if n < |rest| {
        startpos := startpos + n + 1;
        assert rest[n + 1..] == val[startpos..];
        if startpos == |val| { EmptyIsRejectedFrom(keyCombo); }
      }
      more := n < |rest| && startpos < |val|;
    }
    r := if startpos == |val| then None else Some(keyCombo);
  }

  lemma EmptyIsRejectedFrom(acc: Combo)
    ensures Fold(Split(""), acc) == None
  {
    NextToken("", acc);
    EmptyIsNoKey();
  }

  /** Each piece followed by a plus sign. */
  function Trail(ts: seq<string>): string {
    if ts == [] then "" else ts[0] + "+" + Trail(ts[1..])
  }

  lemma {:induction false} TrailJoins(ts: seq<string>)
    requires ts != []
    ensures Trail(ts) == Join(ts) + "+"
  {
    if |ts| == 1 {
      assert Trail(ts[1..]) == "";
    } else {
      TrailJoins(ts[1..]);
    }
  }

  lemma {:induction false} TrailAppend(ts: seq<string>, us: seq<string>)
    ensures Trail(ts + us) == Trail(ts) + Trail(us)
  {
    if ts == [] {
      assert ts + us == us;
    } else {
      assert (ts + us)[1..] == ts[1..] + us;
      TrailAppend(ts[1..], us);
    }
  }

  lemma PrintIsTrail(c: Combo)
    ensures var t := Trail(NamesOf(KeysBelow(c, 32))); Print(c) == if t == "" then "" else t[..|t| - 1]
  {
    hide KeyName, KeysBelow, NamesOf;
    var ts := NamesOf(KeysBelow(c, 32));
    if ts != [] {
      TrailJoins(ts);
      assert (Join(ts) + "+")[..|Join(ts)|] == Join(ts);
    }
  }

  method MenuComboToString(combo: Combo) returns (out: string)
    ensures out == Print(combo)
  {
    hide KeyName, KeysBelow, NamesOf, Trail, Print;
    out := "";
    NoTrail();
    ghost var done: seq<string> := [];
    var i := 31;
    while i >= 0
      invariant -1 <= i < 32
      invariant done + NamesOf(KeysBelow(combo, i + 1)) == NamesOf(KeysBelow(combo, 32))
      invariant out == Trail(done)
    {
      KeyStep(combo, i);
      if i in combo {
        TrailAppend(done, [KeyName(i)]);
        OneTrail(KeyName(i));
        out := out + KeyName(i) + "+";
        AppendAssoc(done, [KeyName(i)], NamesOf(KeysBelow(combo, i)));
        done := done + [KeyName(i)];
      }
      i := i - 1;
    }
    NoKeys(combo);
    assert done + [] == done;
    PrintIsTrail(combo);
    if out != "" { out := out[..|out| - 1]; }
  }

  lemma NoTrail()
    ensures Trail([]) == ""
  {
  }

  lemma NoKeys(c: Combo)
    ensures NamesOf(KeysBelow(c, 0)) == []
  {
  }

  lemma OneTrail(t: string)
    ensures Trail([t]) == t + "+"
  {
    assert [t][1..] == [];
  }

  lemma KeyStep(c: Combo, i: nat)
    requires i < 32
    ensures NamesOf(KeysBelow(c, i + 1)) == (if i in c then [KeyName(i)] else []) + NamesOf(KeysBelow(c, i))
  {
    hide KeyName;
  }
}
