/** `memsearch`: Boyer-Moore-Horspool search in a memory area. */
module Horspool {
  import opened Machine

  /** The pattern occurs in the area at offset j. */
  ghost predicate OccursAt(area: seq<byte>, pattern: seq<byte>, j: nat) {
    j + |pattern| <= |area| && area[j..j + |pattern|] == pattern
  }

  /** Where the table ends up: the distance from the end of the pattern to the last occurrence of c in it
      before its last byte, or the whole length when there is none. */
  ghost predicate IsShift(pattern: seq<byte>, upto: nat, c: byte, shift: nat)
    requires upto < |pattern|
  {
    && 1 <= shift <= |pattern|
    && (forall i :: 0 <= i < upto && pattern[i] == c ==> i <= |pattern| - 1 - shift)
    && (shift < |pattern| ==> |pattern| - 1 - shift < upto && pattern[|pattern| - 1 - shift] == c)
  }

  /** No match is skipped: within a shift of window j the pattern does not occur. */
  lemma NoMatchSkipped(area: seq<byte>, pattern: seq<byte>, j: nat, shift: nat, k: nat)
    requires 0 < |pattern| && j + |pattern| <= |area|
    requires IsShift(pattern, |pattern| - 1, area[j + |pattern| - 1], shift)
    requires j < k < j + shift
    ensures !OccursAt(area, pattern, k)
  {
    OccursBytes(area, pattern, k);
  }

  lemma OccursBytes(area: seq<byte>, pattern: seq<byte>, k: nat)
    ensures OccursAt(area, pattern, k) ==> forall i :: k <= i < k + |pattern| ==> area[i] == pattern[i - k]
  {
    if OccursAt(area, pattern, k) {
      var w := area[k..k + |pattern|];
      assert forall i :: k <= i < k + |pattern| ==> area[i] == w[i - k];
    }
  }

  method BuildTable(pattern: seq<byte>) returns (table: array<nat>)
    requires 0 < |pattern|
    ensures fresh(table) && table.Length == 256
    ensures forall c: byte :: IsShift(pattern, |pattern| - 1, c, table[c])
  {
    table := new nat[256];
    for i := 0 to 256
      invariant forall c :: 0 <= c < i ==> table[c] == |pattern|
    {
      table[i] := |pattern|;
    }
    for i := 0 to |pattern| - 1
      invariant forall c: byte :: IsShift(pattern, i, c, table[c])
    {
      table[pattern[i]] := |pattern| - i - 1;
    }
  }

  /** The leftmost occurrence, or None (the null pointer) exactly when there is none. The source's callers
      pass a pattern that is neither empty nor longer than the area. */
  method MemSearch(area: seq<byte>, pattern: seq<byte>) returns (found: bool, pos: nat)
    requires 1 <= |pattern| <= |area|
    ensures found ==> OccursAt(area, pattern, pos) && forall k :: 0 <= k < pos ==> !OccursAt(area, pattern, k)
    ensures !found ==> forall k: nat :: !OccursAt(area, pattern, k)
  {
    var n, m := |area|, |pattern|;
    var table := BuildTable(pattern);
    var j := 0;
    while j <= n - m
      invariant forall k :: 0 <= k < j ==> !OccursAt(area, pattern, k)
      invariant forall c: byte :: IsShift(pattern, m - 1, c, table[c])
      decreases n - m + 1 - j
    {
      var c := area[j + m - 1];
      if pattern[m - 1] == c && pattern[..m - 1] == area[j..j + m - 1] {
        assert area[j..j + m] == area[j..j + m - 1] + [c] == pattern;
        return true, j;
      }
      assert !OccursAt(area, pattern, j) by {
        if OccursAt(area, pattern, j) { MatchesEnd(area, pattern, j); }
      }
      var shift := table[c];
      forall k | j < k < j + shift
        ensures !OccursAt(area, pattern, k)
      {
        NoMatchSkipped(area, pattern, j, shift, k);
      }
      j := j + shift;
    }
    return false, 0;
  }

  lemma MatchesEnd(area: seq<byte>, pattern: seq<byte>, j: nat)
    requires 0 < |pattern| && OccursAt(area, pattern, j)
    ensures pattern[|pattern| - 1] == area[j + |pattern| - 1]
    ensures pattern[..|pattern| - 1] == area[j..j + |pattern| - 1]
  {
    var w := area[j..j + |pattern|];
    assert w[|pattern| - 1] == area[j + |pattern| - 1];
    assert w[..|pattern| - 1] == area[j..j + |pattern| - 1];
  }
}
