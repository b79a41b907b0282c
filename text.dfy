/**
 * The two string builtins the keyword lookup relies on: `str.lower()` and the
 * substring test `needle in haystack`. Case folding is modelled on ASCII: the
 * letters 'A'..'Z' map to 'a'..'z' and every other character is kept.
 */
module Text {

  predicate IsUpper(c: char) {
    'A' <= c <= 'Z'
  }

  /** `c.lower()` for one character. */
  function LowerChar(c: char): (r: char)
    ensures !IsUpper(r)
    ensures !IsUpper(c) ==> r == c
    ensures IsUpper(c) ==> r as int == c as int + 32
  {
    if IsUpper(c) then (c as int + 32) as char else c
  }

  /** `s.lower()`: every character folded, length and order kept. */
  function Lower(s: string): (r: string)
    ensures |r| == |s|
    ensures forall i :: 0 <= i < |r| ==> !IsUpper(r[i])
  {
    seq(|s|, i requires 0 <= i < |s| => LowerChar(s[i]))
  }

  /** Lowering an already lowered string changes nothing. */
  lemma LowerIdempotent(s: string)
    ensures Lower(Lower(s)) == Lower(s)
  {
  }

  /** Lowering commutes with taking a slice. */
  lemma LowerSlice(s: string, i: nat, j: nat)
    requires i <= j <= |s|
    ensures Lower(s[i..j]) == Lower(s)[i..j]
  {
  }

  predicate IsPrefix(p: string, s: string) {
    |p| <= |s| && s[..|p|] == p
  }

  /** The substring test `k in s`: `k` is a prefix of some suffix of `s`. */
  predicate IsSubstring(k: string, s: string)
    ensures IsSubstring(k, s) ==> |k| <= |s|
    ensures IsPrefix(k, s) ==> IsSubstring(k, s)
    decreases |s|
  {
    IsPrefix(k, s) || (|s| > 0 && IsSubstring(k, s[1..]))
  }

  /** `k` occurs in `s` starting at position `i`. */
  predicate OccursAt(k: string, s: string, i: nat) {
    i + |k| <= |s| && s[i..i + |k|] == k
  }

  /** The recursive substring test agrees with "occurs at some position". */
  lemma {:induction false} SubstringIffOccurs(k: string, s: string)
    ensures IsSubstring(k, s) <==> exists i: nat :: i <= |s| && OccursAt(k, s, i)
    decreases |s|
  {
    if IsPrefix(k, s) {
      assert OccursAt(k, s, 0);
    } else if |s| == 0 {
      forall i: nat | i <= |s| ensures !OccursAt(k, s, i) {
        assert i == 0;
      }
    } else {
      SubstringIffOccurs(k, s[1..]);
      if IsSubstring(k, s[1..]) {
        var i: nat :| i <= |s[1..]| && OccursAt(k, s[1..], i);
        assert s[1..][i..i + |k|] == s[i + 1..i + 1 + |k|];
        assert OccursAt(k, s, i + 1);
      } else {
        forall i: nat | i <= |s| && OccursAt(k, s, i) ensures false {
          if i > 0 {
            assert s[1..][i - 1..i - 1 + |k|] == s[i..i + |k|];
            assert OccursAt(k, s[1..], i - 1);
          }
        }
      }
    }
  }

  /** The empty string is a substring of every string. */
  lemma EmptyIsSubstring(s: string)
    ensures IsSubstring("", s)
  {
  }

  /** If `k` occurs in `s`, then its lowered form occurs in the lowered `s`. */
  lemma SubstringSurvivesLower(k: string, s: string)
    requires IsSubstring(k, s)
    ensures IsSubstring(Lower(k), Lower(s))
  {
    SubstringIffOccurs(k, s);
    var i: nat :| i <= |s| && OccursAt(k, s, i);
    LowerSlice(s, i, i + |k|);
    assert OccursAt(Lower(k), Lower(s), i);
    SubstringIffOccurs(Lower(k), Lower(s));
  }

  /** A string that contains a character `s` lacks is not a substring of `s`. */
  lemma {:induction false} MissingCharBlocksSubstring(k: string, s: string, c: char)
    requires c in k && c !in s
    ensures !IsSubstring(k, s)
    decreases |s|
  {
    if |s| > 0 {
      MissingCharBlocksSubstring(k, s[1..], c);
    }
  }
}
