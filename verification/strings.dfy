/** The three string operations the launcher uses: `str.lower`, `str.endswith`
    and the substring test `sub in s`. Strings are sequences of characters. */
module Strings {

  /** Lower-cases one character; only the ASCII letters A-Z change. */
  function LowerChar(c: char): char {
    if 'A' <= c <= 'Z' then (c as int - 'A' as int + 'a' as int) as char else c
  }

  /** `s.lower()`, restricted to ASCII case mapping: each upper-case ASCII
      letter becomes its lower-case partner, every other character is kept,
      and no upper-case ASCII letter is left. */
  function Lower(s: string): (r: string)
    ensures |r| == |s|
    ensures forall k :: 0 <= k < |s| ==>
      if 'A' <= s[k] <= 'Z' then r[k] as int == s[k] as int + 32 else r[k] == s[k]
    ensures forall k :: 0 <= k < |r| ==> !('A' <= r[k] <= 'Z')
  {
    seq(|s|, k requires 0 <= k < |s| => LowerChar(s[k]))
  }

  /** `s.endswith(suffix)`: the last `|suffix|` characters of `s` are those of
      `suffix`; every string ends with the empty suffix. */
  predicate EndsWith(s: string, suffix: string): (r: bool)
    ensures r <==> |suffix| <= |s| && forall k :: 0 <= k < |suffix| ==> s[|s| - |suffix| + k] == suffix[k]
    ensures suffix == [] ==> r
  {
    |suffix| <= |s| && s[|s| - |suffix|..] == suffix
  }

  /** `sub` occurs in `s` starting at index `i`. */
  ghost predicate OccursAt(s: string, sub: string, i: int) {
    0 <= i && i + |sub| <= |s| && s[i..i + |sub|] == sub
  }

  /** Python's `sub in s`: scans the start positions of `s` from the left. */
  function Contains(s: string, sub: string): (r: bool)
    ensures r <==> exists i :: OccursAt(s, sub, i)
    decreases |s|
  {
    if |sub| > |s| then
      assert forall i :: !OccursAt(s, sub, i);
      false
    else if s[..|sub|] == sub then
      assert OccursAt(s, sub, 0);
      true
    else
      var rest := Contains(s[1..], sub);
      assert forall i :: OccursAt(s[1..], sub, i) <==> OccursAt(s, sub, i + 1) by {
        forall i ensures OccursAt(s[1..], sub, i) <==> OccursAt(s, sub, i + 1) {
          if 0 <= i && i + |sub| <= |s| - 1 {
            assert s[1..][i..i + |sub|] == s[i + 1..i + 1 + |sub|];
          }
        }
      }
      assert rest ==> exists i :: OccursAt(s, sub, i) by {
        if rest {
          var i :| OccursAt(s[1..], sub, i);
          assert OccursAt(s, sub, i + 1);
        }
      }
      assert (exists i :: OccursAt(s, sub, i)) ==> rest by {
        if exists i :: OccursAt(s, sub, i) {
          var i :| OccursAt(s, sub, i);
          assert i != 0;
          assert OccursAt(s[1..], sub, i - 1);
        }
      }
      rest
  }

  /** Lower-casing distributes over concatenation. */
  lemma LowerAppend(a: string, b: string)
    ensures Lower(a + b) == Lower(a) + Lower(b)
  {
    assert forall k :: 0 <= k < |a + b| ==> Lower(a + b)[k] == (Lower(a) + Lower(b))[k];
  }

  /** A string that is a suffix of a lower-cased string is already lower case. */
  lemma SuffixOfLowerIsLower(s: string, suffix: string)
    requires EndsWith(Lower(s), suffix)
    ensures Lower(suffix) == suffix
  {
    var off := |s| - |suffix|;
    forall k | 0 <= k < |suffix| ensures Lower(suffix)[k] == suffix[k] {
      assert suffix[k] == Lower(s)[off + k] == LowerChar(s[off + k]);
    }
  }

  /** A string holding an upper-case ASCII letter is changed by `Lower`. */
  lemma LowerChangesUpperCase(s: string, k: int)
    requires 0 <= k < |s| && 'A' <= s[k] <= 'Z'
    ensures Lower(s) != s
  {
    assert Lower(s)[k] != s[k];
  }

  /** A string without upper-case ASCII letters is its own lower-case form. */
  lemma LowerOfLowerCase(s: string)
    requires forall k :: 0 <= k < |s| ==> !('A' <= s[k] <= 'Z')
    ensures Lower(s) == s
  {
  }

  /** Appending a lower-case suffix makes the lower-cased result end with it. */
  lemma LowerEndsWithLowerSuffix(a: string, b: string)
    requires Lower(b) == b
    ensures EndsWith(Lower(a + b), b)
  {
    LowerAppend(a, b);
    EndsWithAppend(Lower(a), b);
  }

  /** Appending `b` makes any string end with `b`. */
  lemma EndsWithAppend(a: string, b: string)
    ensures EndsWith(a + b, b)
  {
    assert (a + b)[|a + b| - |b|..] == b;
  }
}
