/** The two string operations the detector relies on: lower-casing and substring search. */
module Text {

  predicate IsUpper(c: char) {
    'A' <= c <= 'Z'
  }

  /** ASCII lower-casing of a single character; every other character is left alone. */
  function Lower(c: char): char {
    if IsUpper(c) then (c as int - 'A' as int + 'a' as int) as char else c
  }

  /** `s.lower()`, character by character; the result holds no upper-case letter. */
  function LowerStr(s: string): (r: string)
    ensures |r| == |s|
    ensures forall i :: 0 <= i < |r| ==> !IsUpper(r[i])
  {
    seq(|s|, i requires 0 <= i < |s| => Lower(s[i]))
  }

  /** Lower-casing twice is lower-casing once. */
  lemma LowerStrIdempotent(s: string)
    ensures LowerStr(LowerStr(s)) == LowerStr(s)
  {
    var once := LowerStr(s);
    assert forall i :: 0 <= i < |once| ==> LowerStr(once)[i] == once[i];
  }

  /** An empty string lower-cases to the empty string and nothing else does (`if k` on a lowered keyword). */
  lemma LowerStrEmpty(s: string)
    ensures LowerStr(s) == [] <==> s == []
  {
    assert |LowerStr(s)| == |s|;
  }

  predicate StartsWith(s: string, k: string) {
    |k| <= |s| && s[..|k|] == k
  }

  /** Python's `k in s` on strings: `k` occurs somewhere in `s` as a contiguous block. */
  predicate Contains(s: string, k: string)
    decreases |s|
  {
    StartsWith(s, k) || (s != [] && Contains(s[1..], k))
  }

  /** `k` occurs in `s` starting at position `i`. */
  predicate OccursAt(s: string, k: string, i: int) {
    0 <= i && i + |k| <= |s| && s[i..i + |k|] == k
  }

  /** Contains agrees with the positional definition of a substring occurrence. */
  lemma {:induction false} ContainsIffOccurs(s: string, k: string)
    ensures Contains(s, k) <==> exists i :: OccursAt(s, k, i)
  {
    if s == [] {
      if Contains(s, k) {
        assert OccursAt(s, k, 0);
      }
    } else {
      ContainsIffOccurs(s[1..], k);
      if Contains(s, k) {
        if StartsWith(s, k) {
          assert OccursAt(s, k, 0);
        } else {
          var j :| OccursAt(s[1..], k, j);
          assert s[j + 1..j + 1 + |k|] == s[1..][j..j + |k|];
          assert OccursAt(s, k, j + 1);
        }
      }
      if i :| OccursAt(s, k, i) {
        if i == 0 {
          assert StartsWith(s, k);
        } else {
          assert s[1..][i - 1..i - 1 + |k|] == s[i..i + |k|];
          assert OccursAt(s[1..], k, i - 1);
        }
      }
    }
  }

  /** A string holding a character that `s` lacks does not occur in `s`. */
  lemma {:induction false} AbsentCharacterPreventsMatch(s: string, k: string, c: char)
    requires c in k && c !in s
    ensures !Contains(s, k)
  {
    if s != [] {
      AbsentCharacterPreventsMatch(s[1..], k, c);
    }
  }

  /** Only the empty string occurs in the empty string, which is why a non-empty keyword never matches "". */
  lemma ContainsInEmpty(k: string)
    ensures Contains("", k) <==> k == ""
  {
  }
}
