/** Column-name clean-up and the choice of columns to read as dates, done
    when the raw table is loaded. */
module Headers {
  import opened Text
  import opened Trim

  /** Python's `str.replace` for a single character. */
  function ReplaceChar(s: string, from: char, to: char): (r: string)
    ensures |r| == |s|
    ensures forall i :: 0 <= i < |s| ==> r[i] == if s[i] == from then to else s[i]
  {
    if s == [] then [] else [if s[0] == from then to else s[0]] + ReplaceChar(s[1..], from, to)
  }

  /** The three renaming passes in order: lower-case, strip `?` from both
      ends, then spaces to underscores. */
  function NormalizeHeader(h: string): (r: string)
    ensures IsLower(r)
    ensures forall i :: 0 <= i < |r| ==> r[i] != ' '
    ensures r == [] || (r[0] != '?' && r[|r| - 1] != '?')
    ensures |r| <= |h|
  {
    var lowered := Lower(h);
    var stripped := Strip(lowered, {'?'});
    StripKeepsLower(lowered);
    ReplaceKeepsLower(stripped);
    ReplaceChar(stripped, ' ', '_')
  }

  lemma StripKeepsLower(s: string)
    requires IsLower(s)
    ensures IsLower(Strip(s, {'?'}))
  {
    var r := Strip(s, {'?'});
    var a := |s| - |StripStart(s, {'?'})|;
    assert forall i :: 0 <= i < |r| ==> r[i] == s[a + i];
  }

  lemma ReplaceKeepsLower(s: string)
    requires IsLower(s)
    ensures IsLower(ReplaceChar(s, ' ', '_'))
  {
  }

  /** A header that is already clean is left as it is. */
  lemma NormalizeClean(h: string)
    requires IsLower(h)
    requires forall i :: 0 <= i < |h| ==> h[i] != ' '
    requires h == [] || (h[0] != '?' && h[|h| - 1] != '?')
    ensures NormalizeHeader(h) == h
  {
    LowerOfLower(h);
    assert StripStart(h, {'?'}) == h;
    assert StripEnd(h, {'?'}) == h;
    ReplaceAbsent(h);
  }

  lemma ReplaceAbsent(s: string)
    requires forall i :: 0 <= i < |s| ==> s[i] != ' '
    ensures ReplaceChar(s, ' ', '_') == s
  {
  }

  /** Renaming twice changes nothing more than renaming once. */
  lemma NormalizeIdempotent(h: string)
    ensures NormalizeHeader(NormalizeHeader(h)) == NormalizeHeader(h)
  {
    NormalizeClean(NormalizeHeader(h));
  }

  lemma {:induction false} StripStartReplace(s: string)
    ensures StripStart(ReplaceChar(s, ' ', '_'), {'?'})
            == ReplaceChar(StripStart(s, {'?'}), ' ', '_')
    decreases |s|
  {
    var r := ReplaceChar(s, ' ', '_');
    if s == [] {
    } else if s[0] == '?' {
      assert r[0] == '?';
      assert r[1..] == ReplaceChar(s[1..], ' ', '_');
      calc {
        StripStart(r, {'?'});
        StripStart(r[1..], {'?'});
        { StripStartReplace(s[1..]); }
        ReplaceChar(StripStart(s[1..], {'?'}), ' ', '_');
        ReplaceChar(StripStart(s, {'?'}), ' ', '_');
      }
    } else {
      assert r[0] != '?';
      assert StripStart(r, {'?'}) == r;
      assert StripStart(s, {'?'}) == s;
    }
  }

  lemma {:induction false} StripEndReplace(s: string)
    ensures StripEnd(ReplaceChar(s, ' ', '_'), {'?'})
            == ReplaceChar(StripEnd(s, {'?'}), ' ', '_')
    decreases |s|
  {
    var r := ReplaceChar(s, ' ', '_');
    if s == [] {
    } else if s[|s| - 1] == '?' {
      var n := |s| - 1;
      assert r[n] == '?';
      assert r[..n] == ReplaceChar(s[..n], ' ', '_');
      calc {
        StripEnd(r, {'?'});
        StripEnd(r[..n], {'?'});
        { StripEndReplace(s[..n]); }
        ReplaceChar(StripEnd(s[..n], {'?'}), ' ', '_');
        ReplaceChar(StripEnd(s, {'?'}), ' ', '_');
      }
    } else {
      assert r[|r| - 1] != '?';
      assert StripEnd(r, {'?'}) == r;
      assert StripEnd(s, {'?'}) == s;
    }
  }

  /** Stripping `?` before or after replacing spaces gives the same name,
      so the order of the last two passes does not affect the result. */
  lemma StripReplaceCommute(s: string)
    ensures Strip(ReplaceChar(s, ' ', '_'), {'?'})
            == ReplaceChar(Strip(s, {'?'}), ' ', '_')
  {
    StripStartReplace(s);
    StripEndReplace(StripStart(s, {'?'}));
  }

  /** The loop test that sends a column to `pd.to_datetime`. */
  predicate IsTemporal(column: string) {
    Contains(column, "date") || Contains(column, "time")
  }

  /** The columns passed to `pd.to_datetime`, in call order: the `date` test
      and the `time` test are separate, so a name with both is passed twice. */
  function Coercions(columns: seq<string>): seq<string> {
    if columns == [] then []
    else
      var c := columns[|columns| - 1];
      Coercions(columns[..|columns| - 1])
      + (if Contains(c, "date") then [c] else [])
      + (if Contains(c, "time") then [c] else [])
  }

  /** Exactly the temporal columns are coerced. */
  lemma {:induction false} CoercionsAreTemporal(columns: seq<string>)
    ensures forall c :: c in Coercions(columns) <==> c in columns && IsTemporal(c)
    decreases |columns|
  {
    if columns != [] {
      var init := columns[..|columns| - 1];
      CoercionsAreTemporal(init);
      assert columns == init + [columns[|columns| - 1]];
    }
  }

  /** `import_clean_data` after the file has been read: the header row is
      renamed pass by pass, then each column is tested for coercion. */
  method ImportCleanData(raw: seq<string>) returns (columns: seq<string>, coerced: seq<string>)
    ensures |columns| == |raw|
    ensures forall i :: 0 <= i < |raw| ==> columns[i] == NormalizeHeader(raw[i])
    ensures coerced == Coercions(columns)
    ensures forall c :: c in coerced <==> c in columns && IsTemporal(c)
  {
    columns := seq(|raw|, i requires 0 <= i < |raw| => Lower(raw[i]));
    columns := seq(|columns|, i requires 0 <= i < |columns| => Strip(columns[i], {'?'}));
    columns := seq(|columns|, i requires 0 <= i < |columns| => ReplaceChar(columns[i], ' ', '_'));
    coerced := CoercedColumns(columns);
    CoercionsAreTemporal(columns);
  }

  /** The loop of `import_clean_data` over the renamed columns. */
  method CoercedColumns(columns: seq<string>) returns (coerced: seq<string>)
    ensures coerced == Coercions(columns)
  {
    coerced := [];
    for i := 0 to |columns|
      invariant coerced == Coercions(columns[..i])
    {
      var column := columns[i];
      assert columns[..i + 1][..i] == columns[..i];
      if Contains(column, "date") {
        coerced := coerced + [column];
      }
      if Contains(column, "time") {
        coerced := coerced + [column];
      }
    }
    assert columns[..|columns|] == columns;
  }
}
