/** Pattern search in memory (arm9/source/memory.c): the Boyer-Moore-Horspool algorithm
    refines the search that tries every position. */
module MemSearch {
  import opened Machine

  ghost predicate MatchAt(hay: seq<u8>, pat: seq<u8>, j: nat) {
    j + |pat| <= |hay| && hay[j..j + |pat|] == pat
  }

  /** The first match at or after a position, trying each in turn. */
  function Naive(hay: seq<u8>, pat: seq<u8>, from: nat): Option<nat>
    decreases |hay| - from
  {
    if from + |pat| > |hay| then None
    else if hay[from..from + |pat|] == pat then Some(from)
    else Naive(hay, pat, from + 1)
  }

  /** Naive finds the leftmost match, and fails exactly when there is none. */
  lemma {:induction false} NaiveIsLeftmost(hay: seq<u8>, pat: seq<u8>, from: nat)
    ensures match Naive(hay, pat, from)
            case None => forall k :: from <= k ==> !MatchAt(hay, pat, k)
            case Some(j) => from <= j && MatchAt(hay, pat, j) && forall k :: from <= k < j ==> !MatchAt(hay, pat, k)
    decreases |hay| - from
  {
    if from + |pat| <= |hay| && !MatchAt(hay, pat, from) {
      NaiveIsLeftmost(hay, pat, from + 1);
    }
  }

  lemma {:induction false} NaiveSkips(hay: seq<u8>, pat: seq<u8>, from: nat, end: nat)
    requires from <= end && forall k :: from <= k < end ==> !MatchAt(hay, pat, k)
    ensures Naive(hay, pat, from) == Naive(hay, pat, end)
    decreases end - from
  {
    if from < end {
      assert !MatchAt(hay, pat, from);
      NaiveSkips(hay, pat, from + 1, end);
      if from + |pat| > |hay| {
        assert end + |pat| > |hay|;
      }
    }
  }

  /** How far the pattern may move when c stands under its last byte: never past an
      occurrence of c before that byte. */
  ghost predicate SafeShift(pat: seq<u8>, c: u8, shift: nat, known: nat) {
    1 <= shift <= |pat| && forall i :: |pat| - 1 - shift < i < known && 0 <= i < |pat| ==> pat[i] != c
  }

  /** Moving by a safe shift skips no match. */
  lemma ShiftSkipsNoMatch(hay: seq<u8>, pat: seq<u8>, j: nat, shift: nat)
    requires pat != [] && j + |pat| <= |hay| && !MatchAt(hay, pat, j)
    requires SafeShift(pat, hay[j + |pat| - 1], shift, |pat| - 1)
    ensures forall k :: j <= k < j + shift ==> !MatchAt(hay, pat, k)
  {
    forall k | j < k < j + shift ensures !MatchAt(hay, pat, k) {
      var i := |pat| - 1 - (k - j);
      assert pat[i] != hay[j + |pat| - 1];
      assert k + |pat| <= |hay| ==> hay[k..k + |pat|][i] == hay[j + |pat| - 1];
    }
  }

  method ShiftTable(pat: seq<u8>) returns (table: array<nat>)
    requires pat != []
    ensures fresh(table) && table.Length == 0x100
    ensures forall c: u8 :: SafeShift(pat, c, table[c], |pat| - 1)
  {
    table := new nat[0x100];
    for i := 0 to 0x100
      invariant forall c :: 0 <= c < i ==> table[c] == |pat|
    {
      table[i] := |pat|;
    }
    for i := 0 to |pat| - 1
      invariant forall c: u8 :: SafeShift(pat, c, table[c], i)
    {
      table[pat[i]] := |pat| - i - 1;
    }
  }

  method MemSearch(hay: seq<u8>, pat: seq<u8>) returns (r: Option<nat>)
    requires 1 <= |pat| <= |hay|
    ensures r == Naive(hay, pat, 0)
  {
    var table := ShiftTable(pat);
    var j := 0;
    while j <= |hay| - |pat|
      invariant Naive(hay, pat, j) == Naive(hay, pat, 0)
      invariant forall c: u8 :: SafeShift(pat, c, table[c], |pat| - 1)
      decreases |hay| - j
    {
      var c := hay[j + |pat| - 1];
      if pat[|pat| - 1] == c && pat[..|pat| - 1] == hay[j..j + |pat| - 1] {
        assert hay[j..j + |pat|] == hay[j..j + |pat| - 1] + [c] == pat[..|pat| - 1] + [c] == pat;
        return Some(j);
      }
      assert hay[j..j + |pat|][..|pat| - 1] == hay[j..j + |pat| - 1];
      assert hay[j..j + |pat|][|pat| - 1] == c;
      ShiftSkipsNoMatch(hay, pat, j, table[c]);
      NaiveSkips(hay, pat, j, j + table[c]);
      j := j + table[c];
    }
    return None;
  }
}
