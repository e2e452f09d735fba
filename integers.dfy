/** Conversion of a cell's text to a 64-bit integer, as `astype(int)` does for
    an object column of strings: each string goes through Python's `int()`
    and must then fit in an `int64`. */
module Integers {
  import opened Errors
  import Trim

  const MinInt64: int := -0x8000_0000_0000_0000
  const MaxInt64: int := 0x7FFF_FFFF_FFFF_FFFF

  predicate InInt64(n: int) {
    MinInt64 <= n <= MaxInt64
  }

  predicate IsDigit(c: char) {
    '0' <= c <= '9'
  }

  /** The characters `int()` ignores at both ends: the ASCII whitespace
      `\t \n \v \f \r` and space, and the non-ASCII characters that
      `str.isspace` accepts (which `int()` first turns into spaces). The ASCII
      separators U+001C to U+001F pass `str.isspace` but are not stripped. */
  const Whitespace: set<char> := {
    '\t', '\n', '\U{0B}', '\U{0C}', '\r', ' ',
    '\U{85}', '\U{A0}', '\U{1680}', '\U{2000}', '\U{2001}', '\U{2002}', '\U{2003}',
    '\U{2004}', '\U{2005}', '\U{2006}', '\U{2007}', '\U{2008}', '\U{2009}', '\U{200A}',
    '\U{2028}', '\U{2029}', '\U{202F}', '\U{205F}', '\U{3000}'
  }

  predicate IsSpace(c: char) {
    c in Whitespace
  }

  /** A decimal numeral as `int()` reads it: ASCII digits, where a single `_`
      may separate two digits. */
  predicate IsNumeral(t: string) {
    && |t| > 0
    && IsDigit(t[0])
    && IsDigit(t[|t| - 1])
    && (forall i :: 0 <= i < |t| ==> IsDigit(t[i]) || t[i] == '_')
    && (forall i :: 0 <= i < |t| - 1 ==> IsDigit(t[i]) || IsDigit(t[i + 1]))
  }

  function DigitValue(c: char): nat
    requires IsDigit(c)
  {
    c as int - '0' as int
  }

  /** The value of a numeral, with separators skipped. */
  function NumeralValue(t: string): nat
    requires forall i :: 0 <= i < |t| ==> IsDigit(t[i]) || t[i] == '_'
  {
    if t == [] then 0
    else
      var last := t[|t| - 1];
      if IsDigit(last) then NumeralValue(t[..|t| - 1]) * 10 + DigitValue(last)
      else NumeralValue(t[..|t| - 1])
  }

  /** The numeral after an optional sign. */
  function Unsigned(t: string): string {
    if |t| > 0 && (t[0] == '-' || t[0] == '+') then t[1..] else t
  }

  /** Python's `int(s)` on a string followed by the conversion to `int64`;
      `None` where either raises. */
  function ParseInt(s: string): (r: Option<int>)
    ensures r.Some? ==> InInt64(r.value)
  {
    var t := Trim.Strip(s, Whitespace);
    var body := Unsigned(t);
    if !IsNumeral(body) then None
    else
      var n: int := if |t| > 0 && t[0] == '-' then -(NumeralValue(body) as int) else NumeralValue(body);
      if InInt64(n) then Some(n) else None
  }

  function DigitChar(d: nat): (c: char)
    requires d < 10
    ensures IsDigit(c) && DigitValue(c) == d
  {
    ('0' as int + d) as char
  }

  /** Python's `str(n)` for a non-negative integer. */
  function ShowNat(n: nat): (t: string)
    ensures IsNumeral(t)
    ensures forall i :: 0 <= i < |t| ==> IsDigit(t[i])
    ensures NumeralValue(t) == n
  {
    if n < 10 then [DigitChar(n)]
    else
      var t := ShowNat(n / 10) + [DigitChar(n % 10)];
      assert t[..|t| - 1] == ShowNat(n / 10);
      t
  }

  /** Python's `str(n)`. */
  function Show(n: int): string {
    if n < 0 then "-" + ShowNat(-n) else ShowNat(n)
  }

  /** `int(str(n))` gives back `n` for every `int64` value. */
  lemma ParseShow(n: int)
    requires InInt64(n)
    ensures ParseInt(Show(n)) == Some(n)
  {
    var m: nat := if n < 0 then -n else n;
    ShowParts(n, m);
    ParseSigned(Show(n), n < 0, m);
  }

  /** `int()` of a string without surrounding space whose optional `-` is
      followed by a numeral. */
  lemma ParseSigned(s: string, negative: bool, m: nat)
    requires |s| > 0 && !IsSpace(s[0]) && !IsSpace(s[|s| - 1])
    requires s[0] == '-' <==> negative
    requires IsNumeral(Unsigned(s)) && NumeralValue(Unsigned(s)) == m
    requires InInt64(if negative then -(m as int) else m as int)
    ensures ParseInt(s) == Some(if negative then -(m as int) else m as int)
  {
    StripNoSpace(s);
  }

  /** `str(n)` has no surrounding space, and after its sign comes the
      numeral of `n`'s magnitude. */
  lemma ShowParts(n: int, m: nat)
    requires m == if n < 0 then -n else n
    ensures |Show(n)| > 0 && !IsSpace(Show(n)[0]) && !IsSpace(Show(n)[|Show(n)| - 1])
    ensures Show(n)[0] == '-' <==> n < 0
    ensures IsNumeral(Unsigned(Show(n))) && NumeralValue(Unsigned(Show(n))) == m
  {
    NoSpaceInShow(n);
    var t := ShowNat(m);
    assert IsDigit(t[0]);
    if n < 0 {
      assert Show(n)[1..] == t;
    }
  }

  /** The two flag strings that the encoders write convert to 0 and 1. */
  lemma ParseFlags()
    ensures ParseInt("0") == Some(0) && ParseInt("1") == Some(1)
  {
    ParseShow(0);
    ParseShow(1);
    assert Show(0) == "0" && Show(1) == "1";
  }

  lemma NoSpaceInShow(n: int)
    ensures |Show(n)| > 0
    ensures !IsSpace(Show(n)[0]) && !IsSpace(Show(n)[|Show(n)| - 1])
  {
    var t := ShowNat(if n < 0 then -n else n);
    assert IsDigit(t[0]) && IsDigit(t[|t| - 1]);
    DigitNotSpace(t[0]);
    DigitNotSpace(t[|t| - 1]);
  }

  lemma DigitNotSpace(c: char)
    requires IsDigit(c)
    ensures !IsSpace(c)
  {
  }

  lemma StripNoSpace(s: string)
    requires |s| > 0 && !IsSpace(s[0]) && !IsSpace(s[|s| - 1])
    ensures Trim.Strip(s, Whitespace) == s
  {
    assert Trim.StripStart(s, Whitespace) == s;
    assert Trim.StripEnd(s, Whitespace) == s;
  }

  /** A character that `strip` does not drop survives into its result. */
  lemma StripKeeps(s: string, k: int) returns (j: int)
    requires 0 <= k < |s| && !IsSpace(s[k])
    ensures 0 <= j < |Trim.Strip(s, Whitespace)| && Trim.Strip(s, Whitespace)[j] == s[k]
  {
    var t := Trim.Strip(s, Whitespace);
    var a := |s| - |Trim.StripStart(s, Whitespace)|;
    assert a <= k < a + |t|;
    j := k - a;
  }

  /** A character that is neither a space, a sign, a digit nor a separator
      makes the conversion fail. */
  lemma ParseRejectsStrayChar(s: string, k: int)
    requires 0 <= k < |s|
    requires !IsSpace(s[k]) && !IsDigit(s[k]) && s[k] != '+' && s[k] != '-' && s[k] != '_'
    ensures ParseInt(s).None?
  {
    var t := Trim.Strip(s, Whitespace);
    var j := StripKeeps(s, k);
    var body := Unsigned(t);
    if body != t {
      assert body[j - 1] == s[k];
    } else {
      assert body[j] == s[k];
    }
    assert !IsNumeral(body);
  }

  /** An information separator is not whitespace to `int()`, so `"\x1c1"`
      does not convert. */
  lemma ParseRejectsSeparator()
    ensures ParseInt("\U{1C}1").None?
  {
    ParseRejectsStrayChar("\U{1C}1", 0);
  }
}
