/** Removal of unwanted characters at the ends of a string, as Python's
    `lstrip`, `rstrip` and `strip` do. */
module Trim {

  /** Drops the leading characters that belong to `chars`, as Python's `lstrip`. */
  function StripStart(s: string, chars: set<char>): (r: string)
    ensures |r| <= |s| && r == s[|s| - |r|..]
    ensures forall i :: 0 <= i < |s| - |r| ==> s[i] in chars
    ensures r == [] || r[0] !in chars
    decreases |s|
  {
    if s != [] && s[0] in chars then
      var r := StripStart(s[1..], chars);
      assert forall i :: 1 <= i < |s| - |r| ==> s[i] == s[1..][i - 1];
      r
    else s
  }

  /** Drops the trailing characters that belong to `chars`, as Python's `rstrip`. */
  function StripEnd(s: string, chars: set<char>): (r: string)
    ensures |r| <= |s| && r == s[..|r|]
    ensures forall i :: |r| <= i < |s| ==> s[i] in chars
    ensures r == [] || r[|r| - 1] !in chars
  {
    if s != [] && s[|s| - 1] in chars then StripEnd(s[..|s| - 1], chars) else s
  }

  /** Python's `strip`: both ends, leaving the inner characters untouched. */
  function Strip(s: string, chars: set<char>): (r: string)
    ensures var a := |s| - |StripStart(s, chars)|;
            && a + |r| <= |s| && r == s[a..a + |r|]
            && (forall i :: 0 <= i < a ==> s[i] in chars)
            && (forall i :: a + |r| <= i < |s| ==> s[i] in chars)
    ensures r == [] || (r[0] !in chars && r[|r| - 1] !in chars)
  {
    var t := StripStart(s, chars);
    var a := |s| - |t|;
    var r := StripEnd(t, chars);
    StripFacts(s, chars, t, a, r);
    r
  }

  lemma StripFacts(s: string, chars: set<char>, t: string, a: int, r: string)
    requires |t| <= |s| && t == s[|s| - |t|..] && a == |s| - |t|
    requires |r| <= |t| && r == t[..|r|]
    requires forall i :: |r| <= i < |t| ==> t[i] in chars
    ensures a + |r| <= |s| && r == s[a..a + |r|]
    ensures forall i :: a + |r| <= i < |s| ==> s[i] in chars
  {
    forall i | a + |r| <= i < |s| ensures s[i] in chars {
      assert s[i] == t[i - a];
    }
  }
}
