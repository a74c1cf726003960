/** Searching a pattern in memory with the Boyer-Moore-Horspool algorithm. */
module Memsearch {
  import opened FatLayout

  /** The pattern occurs at place j. */
  predicate OccursAt(text: seq<byte>, pat: seq<byte>, j: nat) {
    j + |pat| <= |text| && text[j..j + |pat|] == pat
  }

  /** s is how far the pattern may be moved when the text byte under its end is c, as far as its first n bytes tell. */
  ghost predicate ShiftFor(pat: seq<byte>, n: nat, c: byte, s: nat)
    requires n <= |pat|
  {
    && 1 <= s <= |pat|
    && (forall i | |pat| - s <= i < n :: pat[i] != c)
    && (s < |pat| ==> |pat| - 1 - s < n && pat[|pat| - 1 - s] == c)
  }

  /** Moving by the shift of the byte under the end of the pattern skips no occurrence. */
  lemma NoneSkipped(text: seq<byte>, pat: seq<byte>, j: nat, s: nat, k: nat)
    requires |pat| >= 1 && j + |pat| <= |text| && ShiftFor(pat, |pat| - 1, text[j + |pat| - 1], s)
    requires j < k < j + s
    ensures !OccursAt(text, pat, k)
  {
    var i := j + |pat| - 1 - k;
    if k + |pat| <= |text| {
      assert text[k..k + |pat|][i] == text[j + |pat| - 1] != pat[i];
    }
  }

  /** The table of shifts, one for each byte. */
  method Shifts(pat: seq<byte>) returns (table: array<nat>)
    requires |pat| >= 1
    ensures fresh(table) && table.Length == 256 && forall c: byte :: ShiftFor(pat, |pat| - 1, c, table[c])
  {
    table := new nat[256](i => |pat|);
    assert forall c: byte :: ShiftFor(pat, 0, c, table[c]);
    var i := 0;
    while i < |pat| - 1
      invariant 0 <= i <= |pat| - 1
      invariant forall c: byte :: ShiftFor(pat, i, c, table[c])
    {
      ghost var before := table[..];
      table[pat[i]] := |pat| - i - 1;
      forall c: byte
        ensures ShiftFor(pat, i + 1, c, table[c])
      {
        assert ShiftFor(pat, i, c, before[c]);
      }
      i := i + 1;
    }
  }

  /** memcmp of the first n bytes of the pattern with the text at j. */
  method SamePrefix(text: seq<byte>, pat: seq<byte>, j: nat, n: nat) returns (same: bool)
    requires n <= |pat| && j + n <= |text|
    ensures same <==> text[j..j + n] == pat[..n]
  {
    var i := 0;
    while i < n
      invariant 0 <= i <= n && text[j..j + i] == pat[..i]
    {
      if text[j + i] != pat[i] {
        assert text[j..j + n][i] != pat[..n][i];
        return false;
      }
      assert text[j..j + i + 1] == text[j..j + i] + [text[j + i]] && pat[..i + 1] == pat[..i] + [pat[i]];
      i := i + 1;
    }
    return true;
  }

  /** The pattern occurs at j if and only if its last byte and the ones before agree with the text. */
  lemma OccursParts(text: seq<byte>, pat: seq<byte>, j: nat)
    requires |pat| >= 1 && j + |pat| <= |text|
    ensures OccursAt(text, pat, j) <==>
      pat[|pat| - 1] == text[j + |pat| - 1] && text[j..j + |pat| - 1] == pat[..|pat| - 1]
  {
    assert text[j..j + |pat|] == text[j..j + |pat| - 1] + [text[j + |pat| - 1]];
    assert pat == pat[..|pat| - 1] + [pat[|pat| - 1]];
    if OccursAt(text, pat, j) {
      assert text[j..j + |pat|][|pat| - 1] == pat[|pat| - 1];
      assert text[j..j + |pat|][..|pat| - 1] == text[j..j + |pat| - 1];
    }
  }

  /** After a failure at j the search goes on behind the shift. */
  lemma SearchOn(text: seq<byte>, pat: seq<byte>, j: nat, s: nat)
    requires |pat| >= 1 && j + |pat| <= |text| && ShiftFor(pat, |pat| - 1, text[j + |pat| - 1], s)
    requires (forall k: nat | k < j :: !OccursAt(text, pat, k)) && !OccursAt(text, pat, j)
    ensures 1 <= s <= |pat| && forall k: nat | k < j + s :: !OccursAt(text, pat, k)
  {
    hide OccursAt;
    forall k: nat | j < k < j + s
      ensures !OccursAt(text, pat, k)
    {
      NoneSkipped(text, pat, j, s, k);
    }
  }

  lemma TooLate(text: seq<byte>, pat: seq<byte>, k: nat)
    requires k + |pat| > |text|
    ensures !OccursAt(text, pat, k)
  {
  }

  datatype Found = At(pos: nat) | Nowhere

  /** memsearch: the first occurrence of the pattern, or nowhere exactly when there is none. */
  method MemSearch(text: seq<byte>, pat: seq<byte>) returns (r: Found)
    requires 1 <= |pat| <= |text|
    ensures r.At? ==> OccursAt(text, pat, r.pos) && forall k: nat | k < r.pos :: !OccursAt(text, pat, k)
    ensures r.Nowhere? <==> forall k: nat :: !OccursAt(text, pat, k)
  {
    hide OccursAt, ShiftFor;
    var table := Shifts(pat);
    var j := 0;
    while j <= |text| - |pat|
      invariant 0 <= j <= |text| && forall k: nat | k < j :: !OccursAt(text, pat, k)
      invariant table.Length == 256 && forall c: byte :: ShiftFor(pat, |pat| - 1, c, table[c])
      decreases |text| - j
    {
      var c := text[j + |pat| - 1];
      OccursParts(text, pat, j);
      if pat[|pat| - 1] == c {
        var same := SamePrefix(text, pat, j, |pat| - 1);
        if same {
          return At(j);
        }
      }
      assert ShiftFor(pat, |pat| - 1, c, table[c]);
      SearchOn(text, pat, j, table[c]);
      j := j + table[c];
    }
    forall k: nat
      ensures !OccursAt(text, pat, k)
    {
      if k >= j {
        TooLate(text, pat, k);
      }
    }
    return Nowhere;
  }
}
