/** Character and substring operations that the wrangling code relies on:
    ASCII lower-casing (pandas `.str.lower()` on the headers), plain substring
    search (Python's `in` on strings) and case-insensitive substring search
    (`.str.contains(pattern, flags=re.IGNORECASE)` with a literal pattern). */
module Text {

  predicate IsUpper(c: char) {
    'A' <= c <= 'Z'
  }

  function LowerChar(c: char): (d: char)
    ensures !IsUpper(d)
  {
    if IsUpper(c) then (c as int + 32) as char else c
  }

  /** Lower-cases every ASCII letter and leaves every other character alone. */
  function Lower(s: string): (r: string)
    ensures |r| == |s|
    ensures forall i :: 0 <= i < |s| ==> r[i] == LowerChar(s[i])
  {
    if s == [] then [] else [LowerChar(s[0])] + Lower(s[1..])
  }

  predicate IsLower(s: string) {
    forall i :: 0 <= i < |s| ==> !IsUpper(s[i])
  }

  predicate StartsWith(s: string, p: string) {
    |p| <= |s| && s[..|p|] == p
  }

  /** `p` occurs in `s` starting at position `i`. */
  predicate OccursAt(s: string, p: string, i: int) {
    0 <= i && i + |p| <= |s| && s[i..i + |p|] == p
  }

  /** Python's `p in s`: a left-to-right scan of the starting positions. */
  predicate Contains(s: string, p: string)
    decreases |s|
  {
    StartsWith(s, p) || (|s| > 0 && Contains(s[1..], p))
  }

  /** `re.search(p, s, re.IGNORECASE)` for a pattern without metacharacters. */
  predicate ContainsIgnoreCase(s: string, p: string) {
    Contains(Lower(s), Lower(p))
  }

  /** A position where `p` occurs is enough for the scan to succeed. */
  lemma {:induction false} ContainsAt(s: string, p: string, i: int)
    requires OccursAt(s, p, i)
    ensures Contains(s, p)
    decreases i
  {
    if i == 0 {
      assert s[..|p|] == s[0..|p|];
    } else {
      assert s[1..][i - 1..i - 1 + |p|] == s[i..i + |p|];
      ContainsAt(s[1..], p, i - 1);
    }
  }

  /** A successful scan stops at a position where `p` occurs. */
  lemma {:induction false} ContainsWitness(s: string, p: string) returns (i: int)
    requires Contains(s, p)
    ensures OccursAt(s, p, i)
    decreases |s|
  {
    if StartsWith(s, p) {
      i := 0;
      assert s[0..|p|] == s[..|p|];
    } else {
      var j := ContainsWitness(s[1..], p);
      assert s[j + 1..j + 1 + |p|] == s[1..][j..j + |p|];
      i := j + 1;
    }
  }

  /** The scan finds `p` exactly when `p` occurs at some position of `s`. */
  lemma ContainsIffOccurs(s: string, p: string)
    ensures Contains(s, p) <==> exists i :: OccursAt(s, p, i)
  {
    if Contains(s, p) {
      var i := ContainsWitness(s, p);
    }
    forall i | OccursAt(s, p, i) ensures Contains(s, p) {
      ContainsAt(s, p, i);
    }
  }

  /** Text that is shorter than a pattern never contains it. */
  lemma {:induction false} ShortNeverContains(s: string, p: string)
    requires |s| < |p|
    ensures !Contains(s, p)
    decreases |s|
  {
    if |s| > 0 {
      ShortNeverContains(s[1..], p);
    }
  }

  /** A pattern holding a character that the text lacks never occurs in it. */
  lemma {:induction false} AbsentCharNeverContains(s: string, p: string, k: int)
    requires 0 <= k < |p|
    requires forall i :: 0 <= i < |s| ==> s[i] != p[k]
    ensures !Contains(s, p)
    decreases |s|
  {
    if |p| <= |s| {
      assert s[..|p|][k] != p[k];
    }
    if |s| > 0 {
      AbsentCharNeverContains(s[1..], p, k);
    }
  }

  /** Matching ignores case on both sides. */
  lemma ContainsIgnoreCaseOfLower(s: string, p: string)
    ensures ContainsIgnoreCase(s, p) == ContainsIgnoreCase(Lower(s), p)
    ensures ContainsIgnoreCase(s, p) == ContainsIgnoreCase(s, Lower(p))
  {
    LowerIdempotent(s);
    LowerIdempotent(p);
  }

  /** Text without capitals is left alone by lower-casing. */
  lemma LowerOfLower(s: string)
    requires IsLower(s)
    ensures Lower(s) == s
  {
  }

  lemma LowerIdempotent(s: string)
    ensures Lower(Lower(s)) == Lower(s)
  {
  }
}
