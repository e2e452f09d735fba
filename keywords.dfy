/** `encode_policies_str`: a free-text policy summary becomes one 0/1 integer
    column per policy category, set when the summary mentions one of the
    category's keywords. */
module Keywords {
  import opened Errors
  import opened Text
  import opened Integers
  import opened Frames

  /** One entry of the keyword table: the dummy column it creates and the
      keywords that set it. */
  datatype Category = Category(name: string, keywords: seq<string>)

  /** `POLICIES_KEYWORDS`, in the table's own order. */
  const PoliciesKeywords: seq<Category> := [
    Category("no_volunteers", ["volunteer"]),
    Category("limiting_movement", ["transfer", "travel", "tour"]),
    Category("screening", ["screening", "temperature"]),
    Category("healthcare_support", ["co-pay"])
  ]

  /** The text mentions at least one of the keywords, ignoring case. */
  predicate AnyKeyword(s: string, keywords: seq<string>)
    decreases |keywords|
  {
    |keywords| > 0 && (ContainsIgnoreCase(s, keywords[0]) || AnyKeyword(s, keywords[1..]))
  }

  /** The dummy column after the keyword overwrites: "1" where the summary
      text of the row mentions one of the keywords, the previous cell
      elsewhere. */
  function Flagged(text: seq<Cell>, col: seq<Cell>, keywords: seq<string>): (r: seq<Cell>)
    ensures |r| == |col|
  {
    seq(|col|, r requires 0 <= r < |col| =>
      if r < |text| && text[r].Str? && AnyKeyword(text[r].s, keywords) then Str("1") else col[r])
  }

  /** The finished dummy column: 1 where the row's summary text mentions one
      of the keywords, 0 elsewhere. */
  function Dummy(text: seq<Cell>, keywords: seq<string>): (r: seq<Cell>)
    ensures |r| == |text|
    ensures forall i :: 0 <= i < |r| ==> r[i] == Int(0) || r[i] == Int(1)
  {
    seq(|text|, r requires 0 <= r < |text| =>
      Int(if text[r].Str? && AnyKeyword(text[r].s, keywords) then 1 else 0))
  }

  /** The inner loop over one category's keywords from position `j` on: each
      keyword's matches in the summary column overwrite the dummy with "1". */
  function KeywordsFrom(f: Frame, feature: string, name: string, keywords: seq<string>, j: nat): (r: (Frame, Outcome))
    requires feature in f.data && name in f.data
    ensures r.0.data.Keys == f.data.Keys && r.0.rows == f.rows
    decreases |keywords| - j
  {
    if j >= |keywords| then (f, Done)
    else
      match Matches(f.data[feature], keywords[j])
      case None => (f, Failed(NotString(feature)))
      case Some(mask) =>
        KeywordsFrom(f.With(name, Overwrite(f.data[name], mask, Str("1"))), feature, name, keywords, j + 1)
  }

  /** One category: the dummy starts as "0" in every row, the keywords flag
      it, and it is converted to int. */
  function CategoryStep(f: Frame, feature: string, c: Category): (r: (Frame, Outcome))
    requires feature in f.data
    ensures feature in r.0.data && r.0.rows == f.rows
    ensures r.0.data.Keys == f.data.Keys + {c.name}
  {
    var started := f.With(c.name, Constant(f.rows, Str("0")));
    var (g, o) := KeywordsFrom(started, feature, c.name, c.keywords, 0);
    if o.Failed? then (g, o)
    else
      match ParseColumn(g.data[c.name])
      case None => (g, Failed(NotInteger(c.name)))
      case Some(ints) => (g.With(c.name, ints), Done)
  }

  /** The outer loop over the categories from position `i` on; it stops at
      the first failure. */
  function Categories(f: Frame, feature: string, cats: seq<Category>, i: nat): (Frame, Outcome)
    requires feature in f.data
    decreases |cats| - i
  {
    if i >= |cats| then (f, Done)
    else
      var (g, o) := CategoryStep(f, feature, cats[i]);
      if o.Failed? then (g, o) else Categories(g, feature, cats, i + 1)
  }

  /** The whole encoder over a list of categories: missing summaries become
      "0" in the summary column itself, then the categories run in order. */
  function Encode(f: Frame, feature: string, cats: seq<Category>): (Frame, Outcome) {
    if feature !in f.data then (f, Failed(KeyError(feature)))
    else Categories(f.With(feature, FillMissing(f.data[feature], "0")), feature, cats, 0)
  }

  /** `encode_policies_str(df, feature, new_dummies)`. The categories are
      always those of `PoliciesKeywords`: the loop reads the module constant,
      so the third argument has no effect. */
  method EncodePoliciesStr(t: Table, feature: string, newDummies: seq<Category>) returns (o: Outcome)
    requires t.Valid()
    modifies t
    ensures t.Valid()
    ensures (t.Copy(), o) == Encode(old(t.Copy()), feature, PoliciesKeywords)
  {
    o := EncodeWith(t, feature, PoliciesKeywords);
  }

  /** The body of `encode_policies_str` over a given list of categories. */
  method EncodeWith(t: Table, feature: string, cats: seq<Category>) returns (o: Outcome)
    requires t.Valid()
    modifies t
    ensures t.Valid()
    ensures (t.Copy(), o) == Encode(old(t.Copy()), feature, cats)
  {
    if feature !in t.data {
      return Failed(KeyError(feature));
    }
    t.SetColumn(feature, FillMissing(t.data[feature], "0"));
    var i := 0;
    while i < |cats|
      invariant 0 <= i <= |cats|
      invariant t.Valid() && feature in t.data
      invariant Encode(old(t.Copy()), feature, cats) == Categories(t.Copy(), feature, cats, i)
    {
      o := EncodeCategory(t, feature, cats[i]);
      if o.Failed? {
        return;
      }
      i := i + 1;
    }
    return Done;
  }

  /** One pass of the outer loop of `encode_policies_str`. */
  method EncodeCategory(t: Table, feature: string, c: Category) returns (o: Outcome)
    requires t.Valid() && feature in t.data
    modifies t
    ensures t.Valid()
    ensures (t.Copy(), o) == CategoryStep(old(t.Copy()), feature, c)
  {
    t.SetColumn(c.name, Constant(t.rows, Str("0")));
    o := FlagKeywords(t, feature, c.name, c.keywords);
    if o.Failed? {
      return;
    }
    var ints := ParseColumn(t.data[c.name]);
    if ints.None? {
      return Failed(NotInteger(c.name));
    }
    t.SetColumn(c.name, ints.value);
    return Done;
  }

  /** The inner loop of `encode_policies_str`, over one category's keywords. */
  method FlagKeywords(t: Table, feature: string, name: string, keywords: seq<string>) returns (o: Outcome)
    requires t.Valid() && feature in t.data && name in t.data
    modifies t
    ensures t.Valid()
    ensures (t.Copy(), o) == KeywordsFrom(old(t.Copy()), feature, name, keywords, 0)
  {
    for j := 0 to |keywords|
      invariant t.Valid() && feature in t.data && name in t.data
      invariant KeywordsFrom(old(t.Copy()), feature, name, keywords, 0)
                == KeywordsFrom(t.Copy(), feature, name, keywords, j)
    {
      var mask := Matches(t.data[feature], keywords[j]);
      if mask.None? {
        return Failed(NotString(feature));
      }
      t.SetColumn(name, Overwrite(t.data[name], mask.value, Str("1")));
    }
    return Done;
  }

  /** The summary mentions one of the keywords exactly when it mentions some
      keyword of the list: several matches give the same flag as one. */
  lemma {:induction false} AnyKeywordIff(s: string, keywords: seq<string>)
    ensures AnyKeyword(s, keywords) <==> exists k :: 0 <= k < |keywords| && ContainsIgnoreCase(s, keywords[k])
    decreases |keywords|
  {
    if |keywords| > 0 {
      var rest := keywords[1..];
      AnyKeywordIff(s, rest);
      if AnyKeyword(s, rest) {
        var k :| 0 <= k < |rest| && ContainsIgnoreCase(s, rest[k]);
        assert ContainsIgnoreCase(s, keywords[k + 1]);
      }
      if exists k :: 0 <= k < |keywords| && ContainsIgnoreCase(s, keywords[k]) {
        var k :| 0 <= k < |keywords| && ContainsIgnoreCase(s, keywords[k]);
        if k > 0 {
          assert rest[k - 1] == keywords[k];
        }
      }
    }
  }

  /** One keyword's overwrite followed by the overwrites of the later
      keywords is the overwrite for all of them. */
  lemma FlaggedStep(text: seq<Cell>, col: seq<Cell>, keywords: seq<string>, j: nat)
    requires AllText(text) && j < |keywords|
    ensures Flagged(text, Overwrite(col, Matches(text, keywords[j]).value, Str("1")), keywords[j + 1..])
            == Flagged(text, col, keywords[j..])
  {
    var mask := Matches(text, keywords[j]).value;
    var a := Flagged(text, Overwrite(col, mask, Str("1")), keywords[j + 1..]);
    var b := Flagged(text, col, keywords[j..]);
    assert keywords[j..][1..] == keywords[j + 1..];
    forall r | 0 <= r < |col| ensures a[r] == b[r] {
      if r < |text| {
        assert mask[r] == ContainsIgnoreCase(text[r].s, keywords[j]);
      }
    }
  }

  /** With no keywords the dummy is left as it was. */
  lemma FlaggedNone(text: seq<Cell>, col: seq<Cell>)
    ensures Flagged(text, col, []) == col
  {
  }

  /** When the summary column is all text, the keyword loop succeeds and
      leaves the dummy flagged for the remaining keywords. */
  lemma {:induction false} KeywordsFromDone(f: Frame, feature: string, name: string, keywords: seq<string>, j: nat)
    requires feature in f.data && name in f.data && name in f.columns && name != feature
    requires j <= |keywords|
    requires AllText(f.data[feature]) || j == |keywords|
    ensures KeywordsFrom(f, feature, name, keywords, j)
            == (f.With(name, Flagged(f.data[feature], f.data[name], keywords[j..])), Done)
    decreases |keywords| - j
  {
    var text := f.data[feature];
    if j < |keywords| {
      var mask := Matches(text, keywords[j]).value;
      var over := Overwrite(f.data[name], mask, Str("1"));
      var g := f.With(name, over);
      KeywordsFromDone(g, feature, name, keywords, j + 1);
      FlaggedStep(text, f.data[name], keywords, j);
      WithTwice(f, name, over, Flagged(text, over, keywords[j + 1..]));
    } else {
      assert keywords[j..] == [];
      FlaggedNone(text, f.data[name]);
      WithSame(f, name);
    }
  }

  /** The flagged "0"/"1" column converts to the dummy. */
  lemma ParseDummy(text: seq<Cell>, keywords: seq<string>)
    ensures ParseColumn(Flagged(text, Constant(|text|, Str("0")), keywords)) == Some(Dummy(text, keywords))
  {
    var flagged := Flagged(text, Constant(|text|, Str("0")), keywords);
    forall r | 0 <= r < |text|
      ensures CellInt(flagged[r]) == Some(if text[r].Str? && AnyKeyword(text[r].s, keywords) then 1 else 0)
    {
      FlagCell(text[r].Str? && AnyKeyword(text[r].s, keywords));
    }
    assert |flagged| == |text|;
    assert forall r :: 0 <= r < |flagged| ==> CellInt(flagged[r]).Some?;
    var ints := ParseColumn(flagged).value;
    assert |ints| == |Dummy(text, keywords)|;
    assert forall r :: 0 <= r < |text| ==> ints[r] == Dummy(text, keywords)[r];
    assert ints == Dummy(text, keywords);
  }

  lemma FlagCell(b: bool)
    ensures CellInt(if b then Str("1") else Str("0")) == Some(if b then 1 else 0)
  {
    ParseFlags();
  }

  /** A category can be computed when the summary column is all text, or
      when it has no keywords to search for. */
  predicate Searchable(text: seq<Cell>, c: Category) {
    AllText(text) || |c.keywords| == 0
  }

  /** One category succeeds exactly when it is searchable, and then its
      dummy column holds `Dummy`; otherwise the text match fails on the
      summary column. */
  lemma CategoryStepMeaning(f: Frame, feature: string, c: Category)
    requires f.WellFormed() && feature in f.data && c.name != feature
    ensures CategoryStep(f, feature, c).1 == Done <==> Searchable(f.data[feature], c)
    ensures Searchable(f.data[feature], c) ==>
              CategoryStep(f, feature, c).0 == f.With(c.name, Dummy(f.data[feature], c.keywords))
    ensures !Searchable(f.data[feature], c) ==> CategoryStep(f, feature, c).1 == Failed(NotString(feature))
  {
    var text := f.data[feature];
    var zeros := Constant(f.rows, Str("0"));
    var started := f.With(c.name, zeros);
    assert started.data[feature] == text && |text| == f.rows;
    if Searchable(text, c) {
      KeywordsFromDone(started, feature, c.name, c.keywords, 0);
      assert c.keywords[0..] == c.keywords;
      var flagged := Flagged(text, zeros, c.keywords);
      ParseDummy(text, c.keywords);
      WithTwice(f, c.name, zeros, flagged);
      WithTwice(f, c.name, flagged, Dummy(text, c.keywords));
    }
  }

  /** No category from `i` on writes the summary column, and no two of them
      write the same dummy column. */
  ghost predicate NamesApart(feature: string, cats: seq<Category>, i: nat) {
    forall j, k :: i <= j < |cats| && i <= k < |cats| ==>
      cats[j].name != feature && (j != k ==> cats[j].name != cats[k].name)
  }

  ghost predicate AllSearchable(text: seq<Cell>, cats: seq<Category>, i: nat) {
    forall k :: i <= k < |cats| ==> Searchable(text, cats[k])
  }

  /** A searchable category adds its dummy and the loop goes on. */
  lemma CategoriesAdvance(f: Frame, feature: string, cats: seq<Category>, i: nat)
    requires f.WellFormed() && feature in f.data && i < |cats| && cats[i].name != feature
    requires Searchable(f.data[feature], cats[i])
    ensures Categories(f, feature, cats, i)
            == Categories(f.With(cats[i].name, Dummy(f.data[feature], cats[i].keywords)), feature, cats, i + 1)
  {
    CategoryStepMeaning(f, feature, cats[i]);
  }

  /** A category that is not searchable stops the loop on the summary column. */
  lemma CategoriesStops(f: Frame, feature: string, cats: seq<Category>, i: nat)
    requires f.WellFormed() && feature in f.data && i < |cats| && cats[i].name != feature
    requires !Searchable(f.data[feature], cats[i])
    ensures Categories(f, feature, cats, i).1 == Failed(NotString(feature))
  {
    CategoryStepMeaning(f, feature, cats[i]);
  }

  /** The loop over the categories from `i` on succeeds exactly when each of
      them is searchable; otherwise it fails on the summary column. */
  lemma {:induction false} CategoriesSucceed(f: Frame, feature: string, cats: seq<Category>, i: nat)
    requires f.WellFormed() && feature in f.data && i <= |cats|
    requires NamesApart(feature, cats, i)
    ensures Categories(f, feature, cats, i).1 == Done <==> AllSearchable(f.data[feature], cats, i)
    ensures Categories(f, feature, cats, i).1 != Done ==> Categories(f, feature, cats, i).1 == Failed(NotString(feature))
    decreases |cats| - i, 1
  {
    if i < |cats| {
      if Searchable(f.data[feature], cats[i]) {
        CategoriesSucceedFrom(f, feature, cats, i);
      } else {
        CategoriesStops(f, feature, cats, i);
      }
    }
  }

  lemma {:induction false} CategoriesSucceedFrom(f: Frame, feature: string, cats: seq<Category>, i: nat)
    requires f.WellFormed() && feature in f.data && i < |cats|
    requires NamesApart(feature, cats, i)
    requires Searchable(f.data[feature], cats[i])
    ensures Categories(f, feature, cats, i).1 == Done <==> AllSearchable(f.data[feature], cats, i)
    ensures Categories(f, feature, cats, i).1 != Done ==> Categories(f, feature, cats, i).1 == Failed(NotString(feature))
    decreases |cats| - i, 0
  {
    var text := f.data[feature];
    var h := f.With(cats[i].name, Dummy(text, cats[i].keywords));
    CategoriesAdvance(f, feature, cats, i);
    assert h.data[feature] == text;
    CategoriesSucceed(h, feature, cats, i + 1);
  }

  /** What a successful loop from category `i` on leaves in `g`, starting
      from `f`: each dummy holds `Dummy` of the summary column, the row count
      is unchanged, the existing columns keep their place and every other
      column, the summary among them, is left alone. */
  ghost predicate CategoriesDone(f: Frame, g: Frame, feature: string, cats: seq<Category>, i: nat) {
    && feature in f.data
    && g.WellFormed() && g.rows == f.rows && f.columns <= g.columns
    && (forall k :: i <= k < |cats| ==>
          cats[k].name in g.data && g.data[cats[k].name] == Dummy(f.data[feature], cats[k].keywords))
    && (forall c :: c in f.data && (forall k :: i <= k < |cats| ==> cats[k].name != c) ==>
          c in g.data && g.data[c] == f.data[c])
  }

  lemma {:induction false} CategoriesResult(f: Frame, feature: string, cats: seq<Category>, i: nat)
    requires f.WellFormed() && feature in f.data && i <= |cats|
    requires NamesApart(feature, cats, i)
    requires AllSearchable(f.data[feature], cats, i)
    ensures CategoriesDone(f, Categories(f, feature, cats, i).0, feature, cats, i)
    decreases |cats| - i, 1
  {
    if i < |cats| {
      CategoriesResultFrom(f, feature, cats, i);
    }
  }

  lemma {:induction false} CategoriesResultFrom(f: Frame, feature: string, cats: seq<Category>, i: nat)
    requires f.WellFormed() && feature in f.data && i < |cats|
    requires NamesApart(feature, cats, i)
    requires AllSearchable(f.data[feature], cats, i)
    ensures CategoriesDone(f, Categories(f, feature, cats, i).0, feature, cats, i)
    decreases |cats| - i, 0
  {
    assert Searchable(f.data[feature], cats[i]);
    var text := f.data[feature];
    var h := f.With(cats[i].name, Dummy(text, cats[i].keywords));
    CategoriesAdvance(f, feature, cats, i);
    assert h.data[feature] == text;
    CategoriesResult(h, feature, cats, i + 1);
    CategoriesDoneStep(f, h, Categories(h, feature, cats, i + 1).0, feature, cats, i);
  }

  lemma CategoriesDoneStep(f: Frame, h: Frame, g: Frame, feature: string, cats: seq<Category>, i: nat)
    requires f.WellFormed() && feature in f.data && i < |cats|
    requires NamesApart(feature, cats, i)
    requires h == f.With(cats[i].name, Dummy(f.data[feature], cats[i].keywords))
    requires CategoriesDone(h, g, feature, cats, i + 1)
    ensures CategoriesDone(f, g, feature, cats, i)
  {
    assert f.columns <= h.columns;
    DummiesStep(f, h, g, feature, cats, i);
    OthersStep(f, h, g, feature, cats, i);
  }

  lemma DummiesStep(f: Frame, h: Frame, g: Frame, feature: string, cats: seq<Category>, i: nat)
    requires feature in f.data && i < |cats|
    requires NamesApart(feature, cats, i)
    requires h == f.With(cats[i].name, Dummy(f.data[feature], cats[i].keywords))
    requires CategoriesDone(h, g, feature, cats, i + 1)
    ensures forall k :: i <= k < |cats| ==>
              cats[k].name in g.data && g.data[cats[k].name] == Dummy(f.data[feature], cats[k].keywords)
  {
    assert h.data[feature] == f.data[feature];
    assert cats[i].name in h.data;
    assert forall k :: i < k < |cats| ==> cats[k].name != cats[i].name;
  }

  lemma OthersStep(f: Frame, h: Frame, g: Frame, feature: string, cats: seq<Category>, i: nat)
    requires feature in f.data && i < |cats|
    requires h == f.With(cats[i].name, Dummy(f.data[feature], cats[i].keywords))
    requires CategoriesDone(h, g, feature, cats, i + 1)
    ensures forall c :: c in f.data && (forall k :: i <= k < |cats| ==> cats[k].name != c) ==>
              c in g.data && g.data[c] == f.data[c]
  {
    forall c | c in f.data && (forall k :: i <= k < |cats| ==> cats[k].name != c)
      ensures c in g.data && g.data[c] == f.data[c]
    {
      assert cats[i].name != c;
    }
  }

  /** Filling missing summaries with "0" leaves a column that is all text
      exactly when no cell was numeric. */
  lemma FilledIsText(text: seq<Cell>)
    ensures AllText(FillMissing(text, "0")) <==> forall r :: 0 <= r < |text| ==> !text[r].Int?
  {
    var filled := FillMissing(text, "0");
    if AllText(filled) {
      forall r | 0 <= r < |text| ensures !text[r].Int? {
        assert filled[r].Str?;
      }
    } else {
      var r :| 0 <= r < |filled| && !filled[r].Str?;
      assert text[r].Int?;
    }
  }

  /** The whole encoder: a missing summary column is a key error; otherwise
      it succeeds exactly when every category is searchable once missing
      summaries read "0", and then the summary column holds the filled text
      and every dummy is computed from it. */
  lemma EncodeMeaning(f: Frame, feature: string, cats: seq<Category>)
    requires f.WellFormed()
    requires NamesApart(feature, cats, 0)
    ensures feature !in f.data ==> Encode(f, feature, cats) == (f, Failed(KeyError(feature)))
    ensures Encode(f, feature, cats).1 == Done <==>
              feature in f.data && AllSearchable(FillMissing(f.data[feature], "0"), cats, 0)
    ensures Encode(f, feature, cats).1 == Done ==>
              feature in f.data &&
              var filled := f.With(feature, FillMissing(f.data[feature], "0"));
              CategoriesDone(filled, Encode(f, feature, cats).0, feature, cats, 0)
  {
    if feature in f.data {
      var filled := f.With(feature, FillMissing(f.data[feature], "0"));
      CategoriesSucceed(filled, feature, cats, 0);
      if AllSearchable(filled.data[feature], cats, 0) {
        CategoriesResult(filled, feature, cats, 0);
      }
    }
  }

  /** The filler "0" mentions no keyword of two or more characters. */
  lemma {:induction false} FillerMatchesNothing(keywords: seq<string>)
    requires forall k :: 0 <= k < |keywords| ==> |keywords[k]| >= 2
    ensures !AnyKeyword("0", keywords)
    decreases |keywords|
  {
    if |keywords| > 0 {
      ShortNeverContains(Lower("0"), Lower(keywords[0]));
      FillerMatchesNothing(keywords[1..]);
    }
  }

  /** When the filler matches no keyword, a dummy computed from the filled
      summaries is the one computed from the original cells, missing ones
      counting as 0. */
  lemma DummyOfFilled(text: seq<Cell>, keywords: seq<string>)
    requires !AnyKeyword("0", keywords)
    ensures Dummy(FillMissing(text, "0"), keywords) == Dummy(text, keywords)
  {
    var filled := FillMissing(text, "0");
    assert forall r :: 0 <= r < |text| ==> Dummy(filled, keywords)[r] == Dummy(text, keywords)[r];
  }

  /** The table in `POLICIES_KEYWORDS`: distinct dummy names, each with at
      least one keyword, every keyword at least two characters long. */
  lemma PoliciesShape(feature: string)
    requires forall k :: 0 <= k < |PoliciesKeywords| ==> PoliciesKeywords[k].name != feature
    ensures NamesApart(feature, PoliciesKeywords, 0)
    ensures forall k :: 0 <= k < |PoliciesKeywords| ==> |PoliciesKeywords[k].keywords| > 0
    ensures forall k, j :: 0 <= k < |PoliciesKeywords| && 0 <= j < |PoliciesKeywords[k].keywords| ==>
              |PoliciesKeywords[k].keywords[j]| >= 2
  {
    PoliciesApart(feature);
    PoliciesKeywordLengths();
  }

  lemma PoliciesApart(feature: string)
    requires forall k :: 0 <= k < |PoliciesKeywords| ==> PoliciesKeywords[k].name != feature
    ensures NamesApart(feature, PoliciesKeywords, 0)
  {
  }

  lemma PoliciesKeywordLengths()
    ensures forall k, j :: 0 <= k < |PoliciesKeywords| && 0 <= j < |PoliciesKeywords[k].keywords| ==>
              |PoliciesKeywords[k].keywords[j]| >= 2
  {
  }

  /** Every category of `POLICIES_KEYWORDS` has keywords, so all of them can
      be computed exactly when the summary column is all text. */
  lemma PoliciesSearchable(text: seq<Cell>)
    ensures AllSearchable(text, PoliciesKeywords, 0) <==> AllText(text)
  {
    assert Searchable(text, PoliciesKeywords[0]) <==> AllText(text);
  }

  /** `encode_policies_str` on a table whose summary column is not itself one
      of the dummy names succeeds exactly when the summary column exists and
      holds no numeric cell. A failure is a key error on a missing summary
      column or a failed text match on it. */
  lemma EncodePoliciesSucceeds(f: Frame, feature: string)
    requires f.WellFormed()
    requires forall k :: 0 <= k < |PoliciesKeywords| ==> PoliciesKeywords[k].name != feature
    ensures Encode(f, feature, PoliciesKeywords).1 == Done <==>
              feature in f.data && forall r :: 0 <= r < |f.data[feature]| ==> !f.data[feature][r].Int?
    ensures Encode(f, feature, PoliciesKeywords).1 != Done ==>
              Encode(f, feature, PoliciesKeywords).1 in {Failed(KeyError(feature)), Failed(NotString(feature))}
  {
    PoliciesApart(feature);
    EncodeMeaning(f, feature, PoliciesKeywords);
    if feature in f.data {
      var filledText := FillMissing(f.data[feature], "0");
      CategoriesSucceed(f.With(feature, filledText), feature, PoliciesKeywords, 0);
      FilledIsText(f.data[feature]);
      PoliciesSearchable(filledText);
    }
  }

  /** After a successful `encode_policies_str` the summary column holds the
      filled text, each dummy is 1 exactly where the original summary text
      mentions one of its keywords (0 for a missing summary), and every
      other column is left alone. */
  lemma EncodePoliciesResult(f: Frame, feature: string)
    requires f.WellFormed()
    requires forall k :: 0 <= k < |PoliciesKeywords| ==> PoliciesKeywords[k].name != feature
    requires Encode(f, feature, PoliciesKeywords).1 == Done
    ensures feature in f.data
    ensures var g := Encode(f, feature, PoliciesKeywords).0;
            && g.WellFormed() && g.rows == f.rows && f.columns <= g.columns
            && feature in g.data && g.data[feature] == FillMissing(f.data[feature], "0")
            && (forall k :: 0 <= k < |PoliciesKeywords| ==>
                  PoliciesKeywords[k].name in g.data
                  && g.data[PoliciesKeywords[k].name] == Dummy(f.data[feature], PoliciesKeywords[k].keywords))
            && (forall c :: (c in f.data && c != feature
                  && forall k :: 0 <= k < |PoliciesKeywords| ==> PoliciesKeywords[k].name != c) ==>
                  c in g.data && g.data[c] == f.data[c])
  {
    PoliciesApart(feature);
    PoliciesFillerInert();
    EncodeResult(f, feature, PoliciesKeywords);
  }

  /** No policy keyword matches the filler. */
  lemma PoliciesFillerInert()
    ensures forall k :: 0 <= k < |PoliciesKeywords| ==> !AnyKeyword("0", PoliciesKeywords[k].keywords)
  {
    PoliciesKeywordLengths();
    forall k | 0 <= k < |PoliciesKeywords|
      ensures !AnyKeyword("0", PoliciesKeywords[k].keywords)
    {
      FillerMatchesNothing(PoliciesKeywords[k].keywords);
    }
  }

  /** After a successful run over categories that the filler cannot match,
      the summary column holds the filled text, every dummy is computed from
      the original summaries, and every other column is unchanged. */
  lemma EncodeResult(f: Frame, feature: string, cats: seq<Category>)
    requires f.WellFormed() && NamesApart(feature, cats, 0)
    requires forall k :: 0 <= k < |cats| ==> !AnyKeyword("0", cats[k].keywords)
    requires Encode(f, feature, cats).1 == Done
    ensures feature in f.data
    ensures var g := Encode(f, feature, cats).0;
            && g.WellFormed() && g.rows == f.rows && f.columns <= g.columns
            && feature in g.data && g.data[feature] == FillMissing(f.data[feature], "0")
            && (forall k :: 0 <= k < |cats| ==>
                  cats[k].name in g.data && g.data[cats[k].name] == Dummy(f.data[feature], cats[k].keywords))
            && (forall c :: (c in f.data && c != feature
                  && forall k :: 0 <= k < |cats| ==> cats[k].name != c) ==>
                  c in g.data && g.data[c] == f.data[c])
  {
    EncodeMeaning(f, feature, cats);
    forall k | 0 <= k < |cats|
      ensures Dummy(FillMissing(f.data[feature], "0"), cats[k].keywords) == Dummy(f.data[feature], cats[k].keywords)
    {
      DummyOfFilled(f.data[feature], cats[k].keywords);
    }
  }

  /** No policy keyword matches the filler, so missing summaries count as 0. */
  lemma PoliciesDummiesOfFilled(text: seq<Cell>)
    ensures forall k :: 0 <= k < |PoliciesKeywords| ==>
              Dummy(FillMissing(text, "0"), PoliciesKeywords[k].keywords) == Dummy(text, PoliciesKeywords[k].keywords)
  {
    PoliciesKeywordLengths();
    forall k | 0 <= k < |PoliciesKeywords|
      ensures Dummy(FillMissing(text, "0"), PoliciesKeywords[k].keywords) == Dummy(text, PoliciesKeywords[k].keywords)
    {
      FillerMatchesNothing(PoliciesKeywords[k].keywords);
      DummyOfFilled(text, PoliciesKeywords[k].keywords);
    }
  }

  /** The names of the categories from `i` on. */
  function Names(cats: seq<Category>, i: nat): set<string> {
    set k | i <= k < |cats| :: cats[k].name
  }

  /** The loop over the categories adds no column but theirs. */
  lemma {:induction false} CategoriesColumns(f: Frame, feature: string, cats: seq<Category>, i: nat)
    requires feature in f.data
    ensures Categories(f, feature, cats, i).0.data.Keys <= f.data.Keys + Names(cats, i)
    decreases |cats| - i
  {
    if i < |cats| {
      var g := CategoryStep(f, feature, cats[i]).0;
      CategoriesStep(f, feature, cats, i);
      NamesSplit(cats, i);
      if CategoryStep(f, feature, cats[i]).1.Done? {
        CategoriesColumns(g, feature, cats, i + 1);
      }
    }
  }

  /** Category `i` is tried, and when it succeeds the loop goes on from
      `i + 1` on the changed table. */
  lemma CategoriesStep(f: Frame, feature: string, cats: seq<Category>, i: nat)
    requires feature in f.data && i < |cats|
    ensures CategoryStep(f, feature, cats[i]).1.Done? ==>
              Categories(f, feature, cats, i) == Categories(CategoryStep(f, feature, cats[i]).0, feature, cats, i + 1)
    ensures !CategoryStep(f, feature, cats[i]).1.Done? ==>
              Categories(f, feature, cats, i) == CategoryStep(f, feature, cats[i])
  {
  }

  lemma NamesSplit(cats: seq<Category>, i: nat)
    requires i < |cats|
    ensures Names(cats, i) == {cats[i].name} + Names(cats, i + 1)
  {
    forall x | x in Names(cats, i) ensures x in {cats[i].name} + Names(cats, i + 1) {
      var k :| i <= k < |cats| && cats[k].name == x;
      if k > i {
        assert x in Names(cats, i + 1);
      }
    }
  }

  /** A category that `POLICIES_KEYWORDS` does not list. */
  const Masks: Category := Category("masks", ["mask"])

  /** `encode_policies_str` as written never creates a column for a category
      it is given in `new_dummies` but that `POLICIES_KEYWORDS` lacks. */
  lemma IgnoresNewDummies(f: Frame, feature: string)
    requires "masks" !in f.data
    ensures "masks" !in Encode(f, feature, PoliciesKeywords).0.data
  {
    if feature in f.data {
      var filled := f.With(feature, FillMissing(f.data[feature], "0"));
      CategoriesColumns(filled, feature, PoliciesKeywords, 0);
      MasksNotAPolicy();
    }
  }

  lemma MasksNotAPolicy()
    ensures "masks" !in Names(PoliciesKeywords, 0)
  {
    assert forall k :: 0 <= k < |PoliciesKeywords| ==> |PoliciesKeywords[k].name| != |"masks"|;
  }

  /** The encoder driven by the list it is given does create that column. */
  lemma UsesGivenDummies(f: Frame, feature: string)
    requires Encode(f, feature, [Masks]).1 == Done
    ensures "masks" in Encode(f, feature, [Masks]).0.data
  {
    var filled := f.With(feature, FillMissing(f.data[feature], "0"));
    var g := CategoryStep(filled, feature, Masks).0;
    assert Categories(filled, feature, [Masks], 0) == Categories(g, feature, [Masks], 1);
  }
}
