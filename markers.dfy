/** `transform_easy_cols`: columns that mark "yes" with an X become 0/1
    integer columns under new names. */
module Markers {
  import opened Errors
  import opened Text
  import opened Integers
  import opened Frames

  /** The marker for a policy that is still under consideration. */
  const Exploring: string := "exploring"
  /** The marker for "yes". */
  const Mark: string := "X"

  /** The in-place steps on the new column of one pair, in source order:
      fill missing with "0", set "exploring" rows to "0", then set rows whose
      (updated) text contains an x to "1", then convert to int. On a failure
      the column is returned as the raising line leaves it. */
  function EasyColumn(cells: seq<Cell>, newName: string): (r: (seq<Cell>, Outcome))
    ensures |r.0| == |cells|
    ensures r.1.Failed? ==> r.1.error == NotString(newName) || r.1.error == NotInteger(newName)
  {
    var filled := FillMissing(cells, "0");
    match Matches(filled, Exploring)
    case None => (filled, Failed(NotString(newName)))
    case Some(exploring) =>
      var cleared := Overwrite(filled, exploring, Str("0"));
      match Matches(cleared, Mark)
      case None => (cleared, Failed(NotString(newName)))
      case Some(marked) =>
        var flagged := Overwrite(cleared, marked, Str("1"));
        match ParseColumn(flagged)
        case None => (flagged, Failed(NotInteger(newName)))
        case Some(ints) => (ints, Done)
  }

  /** One (feature, new name) pair: the source column is copied under the new
      name and the copy goes through `EasyColumn`; every intermediate state of
      the copy replaces the previous one, so the table differs from the
      original in the new column alone. */
  function EasyStep(f: Frame, feature: string, newName: string): (r: (Frame, Outcome))
    ensures r.0.rows == f.rows && f.columns <= r.0.columns
    ensures r.0.data.Keys <= f.data.Keys + {newName}
    ensures forall c :: c in f.data && c != newName ==> c in r.0.data && r.0.data[c] == f.data[c]
  {
    if feature !in f.data then (f, Failed(KeyError(feature)))
    else
      var (cells, o) := EasyColumn(f.data[feature], newName);
      (f.With(newName, cells), o)
  }

  /** The loop over the pairs from position `i` on; it stops at the first
      failure. */
  function EasyCols(f: Frame, features: seq<string>, newCols: seq<string>, i: nat): (Frame, Outcome)
    decreases |features| - i
  {
    if i >= |features| then (f, Done)
    else if i >= |newCols| then (f, Failed(IndexError(i)))
    else
      var (g, o) := EasyStep(f, features[i], newCols[i]);
      if o.Failed? then (g, o) else EasyCols(g, features, newCols, i + 1)
  }

  /** `transform_easy_cols(df, features, new_cols)`. */
  method TransformEasyCols(t: Table, features: seq<string>, newCols: seq<string>) returns (o: Outcome)
    requires t.Valid()
    modifies t
    ensures t.Valid()
    ensures (t.Copy(), o) == EasyCols(old(t.Copy()), features, newCols, 0)
  {
    var idx := 0;
    while idx < |features|
      invariant 0 <= idx <= |features|
      invariant t.Valid()
      invariant EasyCols(old(t.Copy()), features, newCols, 0) == EasyCols(t.Copy(), features, newCols, idx)
    {
      if idx >= |newCols| {
        return Failed(IndexError(idx));
      }
      o := TransformPair(t, features[idx], newCols[idx]);
      if o.Failed? {
        return;
      }
      idx := idx + 1;
    }
    return Done;
  }

  /** The body of the loop in `transform_easy_cols` for one pair. */
  method TransformPair(t: Table, feature: string, newName: string) returns (o: Outcome)
    requires t.Valid()
    modifies t
    ensures t.Valid()
    ensures (t.Copy(), o) == EasyStep(old(t.Copy()), feature, newName)
  {
    if feature !in t.data {
      return Failed(KeyError(feature));
    }
    ghost var f := t.Copy();
    t.SetColumn(newName, t.data[feature]);
    t.SetColumn(newName, FillMissing(t.data[newName], "0"));
    WithTwice(f, newName, f.data[feature], t.data[newName]);
    var exploring := Matches(t.data[newName], Exploring);
    if exploring.None? {
      return Failed(NotString(newName));
    }
    ghost var filled := t.data[newName];
    t.SetColumn(newName, Overwrite(t.data[newName], exploring.value, Str("0")));
    WithTwice(f, newName, filled, t.data[newName]);
    var marked := Matches(t.data[newName], Mark);
    if marked.None? {
      return Failed(NotString(newName));
    }
    ghost var cleared := t.data[newName];
    t.SetColumn(newName, Overwrite(t.data[newName], marked.value, Str("1")));
    WithTwice(f, newName, cleared, t.data[newName]);
    var ints := ParseColumn(t.data[newName]);
    if ints.None? {
      return Failed(NotInteger(newName));
    }
    ghost var flagged := t.data[newName];
    t.SetColumn(newName, ints.value);
    WithTwice(f, newName, flagged, t.data[newName]);
    return Done;
  }

  /** What one marker cell becomes, read cell by cell: missing is 0, text
      mentioning "exploring" is 0, other text with an x in it is 1, anything
      else must read as an integer; a numeric cell breaks the text match. */
  function MarkerValue(c: Cell): (r: Option<int>)
    ensures r.Some? ==> InInt64(r.value)
  {
    match c
    case Missing => Some(0)
    case Int(_) => None
    case Str(s) =>
      if ContainsIgnoreCase(s, Exploring) then Some(0)
      else if ContainsIgnoreCase(s, Mark) then Some(1)
      else ParseInt(s)
  }

  predicate AllMarkers(cells: seq<Cell>) {
    forall r :: 0 <= r < |cells| ==> MarkerValue(cells[r]).Some?
  }

  /** The column of integers that the cell-by-cell reading gives. */
  function MarkerInts(cells: seq<Cell>): seq<Cell>
    requires AllMarkers(cells)
  {
    seq(|cells|, r requires 0 <= r < |cells| && AllMarkers(cells) => Int(MarkerValue(cells[r]).value))
  }

  /** A single digit mentions neither marker. */
  lemma DigitNoMarker(d: char)
    requires IsDigit(d)
    ensures !ContainsIgnoreCase([d], Exploring) && !ContainsIgnoreCase([d], Mark)
  {
    ShortNeverContains(Lower([d]), Lower(Exploring));
    AbsentCharNeverContains(Lower([d]), Lower(Mark), 0);
  }

  /** The flag strings that a run writes read back as 0 and 1. */
  lemma MarkerFlags()
    ensures MarkerValue(Str("0")) == Some(0) && MarkerValue(Str("1")) == Some(1)
  {
    DigitNoMarker('0');
    DigitNoMarker('1');
    ParseFlags();
  }

  /** A column that already holds only the flags `"0"` and `"1"` goes
      through the steps and comes out as the same flags as integers. */
  lemma FlagsReadBack(cells: seq<Cell>, newName: string)
    requires forall r :: 0 <= r < |cells| ==> cells[r] == Str("0") || cells[r] == Str("1")
    ensures EasyColumn(cells, newName).1 == Done
    ensures forall r :: 0 <= r < |cells| ==>
              EasyColumn(cells, newName).0[r] == Int(if cells[r] == Str("1") then 1 else 0)
  {
    MarkerFlags();
    assert AllMarkers(cells);
    EasyColumnMeaning(cells, newName);
  }

  /** A numeral other than 0 or 1 without a marker is kept as its own value. */
  lemma NumeralKept()
    ensures MarkerValue(Str("2")) == Some(2)
  {
    DigitNoMarker('2');
    ParseShow(2);
    assert Show(2) == "2";
  }

  /** So the column `["2"]` becomes `[2]`, not a 0/1 indicator. */
  lemma NumeralColumnKept(newName: string)
    ensures EasyColumn([Str("2")], newName) == ([Int(2)], Done)
  {
    var cells := [Str("2")];
    NumeralKept();
    assert AllMarkers(cells);
    assert MarkerInts(cells) == [Int(2)];
    EasyColumnMeaning(cells, newName);
  }

  predicate IsFlag(c: Cell) {
    c == Int(0) || c == Int(1)
  }

  /** Every cell is the integer 0 or 1. */
  predicate Binary(cells: seq<Cell>) {
    forall r :: 0 <= r < |cells| ==> IsFlag(cells[r])
  }

  /** A text cell that mentions neither marker reads as 0 or 1; any other
      cell passes. */
  predicate LeftoverIsFlag(c: Cell) {
    c.Str? && !ContainsIgnoreCase(c.s, Exploring) && !ContainsIgnoreCase(c.s, Mark) ==>
      ParseInt(c.s) == Some(0) || ParseInt(c.s) == Some(1)
  }

  predicate LeftoversAreFlags(cells: seq<Cell>) {
    forall r :: 0 <= r < |cells| ==> LeftoverIsFlag(cells[r])
  }

  /** One cell reads as 0 or 1 exactly when it is missing, mentions a
      marker, or is the text of 0 or 1. */
  lemma CellIsFlag(c: Cell)
    requires MarkerValue(c).Some?
    ensures IsFlag(Int(MarkerValue(c).value)) <==> LeftoverIsFlag(c)
  {
  }

  /** The reading of a column is a 0/1 indicator exactly when every cell
      without a marker is missing or reads as 0 or 1. */
  lemma MarkerIntsBinary(cells: seq<Cell>)
    requires AllMarkers(cells)
    ensures Binary(MarkerInts(cells)) <==> LeftoversAreFlags(cells)
  {
    var ints := MarkerInts(cells);
    forall r | 0 <= r < |cells| ensures IsFlag(ints[r]) <==> LeftoverIsFlag(cells[r]) {
      CellIsFlag(cells[r]);
    }
  }

  /** A successful pair creates a 0/1 column exactly when every source cell
      without a marker is missing or reads as 0 or 1. */
  lemma EasyStepBinary(f: Frame, feature: string, newName: string)
    requires EasyStep(f, feature, newName).1 == Done
    ensures feature in f.data && newName in EasyStep(f, feature, newName).0.data
    ensures Binary(EasyStep(f, feature, newName).0.data[newName]) <==> LeftoversAreFlags(f.data[feature])
  {
    EasyStepMeaning(f, feature, newName);
    MarkerIntsBinary(f.data[feature]);
  }

  /** The filler matches neither marker. */
  lemma FillerIsInert()
    ensures !ContainsIgnoreCase("0", Exploring) && !ContainsIgnoreCase("0", Mark)
  {
    ShortNeverContains(Lower("0"), Lower(Exploring));
    AbsentCharNeverContains(Lower("0"), Lower(Mark), 0);
  }

  /** Following one cell through the column-wide steps of `EasyStep`. */
  lemma StagedCell(c: Cell)
    requires !c.Int?
    ensures var filled := if c.Missing? then Str("0") else c;
            var cleared := if ContainsIgnoreCase(filled.s, Exploring) then Str("0") else filled;
            var flagged := if ContainsIgnoreCase(cleared.s, Mark) then Str("1") else cleared;
            CellInt(flagged) == MarkerValue(c)
  {
    FillerIsInert();
    ParseFlags();
  }

  /** Before the conversion to int: when no cell is numeric, the text the
      column holds converts cell by cell as `MarkerValue` says. */
  lemma FlaggedCells(cells: seq<Cell>, newName: string) returns (flagged: seq<Cell>)
    requires forall r :: 0 <= r < |cells| ==> !cells[r].Int?
    ensures EasyColumn(cells, newName).1 == Done <==> ParseColumn(flagged).Some?
    ensures EasyColumn(cells, newName).1 == Done ==> EasyColumn(cells, newName).0 == ParseColumn(flagged).value
    ensures |flagged| == |cells|
    ensures forall r :: 0 <= r < |cells| ==> CellInt(flagged[r]) == MarkerValue(cells[r])
  {
    var filled := FillMissing(cells, "0");
    assert AllText(filled);
    var exploring := Matches(filled, Exploring).value;
    var cleared := Overwrite(filled, exploring, Str("0"));
    assert AllText(cleared);
    var marked := Matches(cleared, Mark).value;
    flagged := Overwrite(cleared, marked, Str("1"));
    forall r | 0 <= r < |cells| ensures CellInt(flagged[r]) == MarkerValue(cells[r]) {
      assert filled[r] == if cells[r].Missing? then Str("0") else cells[r];
      assert exploring[r] == ContainsIgnoreCase(filled[r].s, Exploring);
      assert cleared[r] == if exploring[r] then Str("0") else filled[r];
      assert marked[r] == ContainsIgnoreCase(cleared[r].s, Mark);
      assert flagged[r] == if marked[r] then Str("1") else cleared[r];
      StagedCell(cells[r]);
    }
  }

  /** The column-wide steps agree with the cell-by-cell reading: they
      succeed exactly when every cell reads as a marker, and then the column
      holds those readings. */
  lemma EasyColumnMeaning(cells: seq<Cell>, newName: string)
    ensures EasyColumn(cells, newName).1 == Done <==> AllMarkers(cells)
    ensures EasyColumn(cells, newName).1 == Done ==> AllMarkers(cells) && EasyColumn(cells, newName).0 == MarkerInts(cells)
  {
    var filled := FillMissing(cells, "0");
    if AllText(filled) {
      forall r | 0 <= r < |cells| ensures !cells[r].Int? {
        assert filled[r].Str?;
      }
      var flagged := FlaggedCells(cells, newName);
      if AllMarkers(cells) {
        var ints := ParseColumn(flagged).value;
        assert |ints| == |MarkerInts(cells)|;
        assert forall r :: 0 <= r < |cells| ==> ints[r] == MarkerInts(cells)[r];
      } else {
        var r :| 0 <= r < |cells| && MarkerValue(cells[r]).None?;
        assert CellInt(flagged[r]).None?;
      }
    } else {
      var r :| 0 <= r < |filled| && !filled[r].Str?;
      assert MarkerValue(cells[r]).None?;
    }
  }

  /** One pair succeeds exactly when the source column exists and every cell
      of it reads as a marker; the only column it then changes is the new
      one, which holds the cell-by-cell reading. */
  lemma EasyStepMeaning(f: Frame, feature: string, newName: string)
    ensures EasyStep(f, feature, newName).1 == Done
            <==> feature in f.data && AllMarkers(f.data[feature])
    ensures EasyStep(f, feature, newName).1 == Done
            ==> feature in f.data && AllMarkers(f.data[feature])
                && EasyStep(f, feature, newName).0 == f.With(newName, MarkerInts(f.data[feature]))
  {
    if feature in f.data {
      EasyColumnMeaning(f.data[feature], newName);
    }
  }

  /** The pairs from `i` on do not interfere with each other: no new name is
      written twice or read as a source column. */
  ghost predicate Independent(features: seq<string>, newCols: seq<string>, i: nat) {
    forall j, k :: i <= j < |features| && j < |newCols| && i <= k < |features| ==>
      newCols[j] != features[k] && (k < |newCols| && j != k ==> newCols[j] != newCols[k])
  }

  /** Pair `i` is tried, and when it succeeds the loop goes on from `i + 1`
      on the table with the new column added. */
  lemma EasyColsStep(f: Frame, features: seq<string>, newCols: seq<string>, i: nat)
    requires i < |features| && i < |newCols|
    ensures EasyStep(f, features[i], newCols[i]).1 == Done ==>
              EasyCols(f, features, newCols, i) == EasyCols(EasyStep(f, features[i], newCols[i]).0, features, newCols, i + 1)
    ensures EasyStep(f, features[i], newCols[i]).1 != Done ==>
              EasyCols(f, features, newCols, i) == EasyStep(f, features[i], newCols[i])
  {
  }

  /** Pair `k` has a new name, an existing source column, and cells that all
      read as markers. */
  ghost predicate PairReady(f: Frame, features: seq<string>, newCols: seq<string>, k: int) {
    0 <= k < |features| && k < |newCols| && features[k] in f.data && AllMarkers(f.data[features[k]])
  }

  /** Every pair from `i` on is ready. */
  ghost predicate PairsReady(f: Frame, features: seq<string>, newCols: seq<string>, i: nat) {
    forall k :: i <= k < |features| ==> PairReady(f, features, newCols, k)
  }

  /** Adding pair `i`'s new column leaves the readiness of the later pairs as it was. */
  lemma PairsReadyAfterStep(f: Frame, h: Frame, features: seq<string>, newCols: seq<string>, i: nat)
    requires i < |features| && i < |newCols|
    requires Independent(features, newCols, i)
    requires newCols[i] in h.data && h.data == f.data[newCols[i] := h.data[newCols[i]]]
    ensures Independent(features, newCols, i + 1)
    ensures forall k :: i < k < |features| ==> (features[k] in h.data <==> features[k] in f.data)
    ensures forall k :: i < k < |features| && features[k] in f.data ==> h.data[features[k]] == f.data[features[k]]
    ensures PairsReady(f, features, newCols, i) <==>
              PairReady(f, features, newCols, i) && PairsReady(h, features, newCols, i + 1)
  {
    assert forall k :: i < k < |features| ==> features[k] != newCols[i];
    assert forall k :: i < k < |features| ==> (PairReady(f, features, newCols, k) <==> PairReady(h, features, newCols, k));
  }

  /** A ready pair succeeds and the loop goes on with its new column added. */
  lemma EasyColsAdvance(f: Frame, features: seq<string>, newCols: seq<string>, i: nat)
    requires PairReady(f, features, newCols, i)
    ensures EasyCols(f, features, newCols, i)
            == EasyCols(f.With(newCols[i], MarkerInts(f.data[features[i]])), features, newCols, i + 1)
  {
    EasyStepMeaning(f, features[i], newCols[i]);
    EasyColsStep(f, features, newCols, i);
  }

  /** A pair that is not ready stops the loop with a failure. */
  lemma EasyColsStops(f: Frame, features: seq<string>, newCols: seq<string>, i: nat)
    requires i < |features| && !PairReady(f, features, newCols, i)
    ensures EasyCols(f, features, newCols, i).1 != Done
  {
    if i < |newCols| {
      EasyStepMeaning(f, features[i], newCols[i]);
      EasyColsStep(f, features, newCols, i);
    }
  }

  /** The loop from pair `i` on succeeds exactly when there is a new name for
      every source column, each source column exists and each of its cells
      reads as a marker. */
  lemma {:induction false} EasyColsSucceeds(f: Frame, features: seq<string>, newCols: seq<string>, i: nat)
    requires i <= |features|
    requires Independent(features, newCols, i)
    ensures EasyCols(f, features, newCols, i).1 == Done <==> PairsReady(f, features, newCols, i)
    decreases |features| - i, 1
  {
    if i < |features| {
      if PairReady(f, features, newCols, i) {
        EasyColsSucceedsFrom(f, features, newCols, i);
      } else {
        EasyColsStops(f, features, newCols, i);
      }
    }
  }

  /** The step of `EasyColsSucceeds` past a ready pair. */
  lemma {:induction false} EasyColsSucceedsFrom(f: Frame, features: seq<string>, newCols: seq<string>, i: nat)
    requires PairReady(f, features, newCols, i)
    requires Independent(features, newCols, i)
    ensures EasyCols(f, features, newCols, i).1 == Done <==> PairsReady(f, features, newCols, i)
    decreases |features| - i, 0
  {
    var h := f.With(newCols[i], MarkerInts(f.data[features[i]]));
    EasyColsAdvance(f, features, newCols, i);
    PairsReadyAfterStep(f, h, features, newCols, i);
    EasyColsSucceeds(h, features, newCols, i + 1);
  }

  /** The column order after `df[newCols[k]] = ...` for `k` from `i` up to
      `n`: a name not yet present is appended at the end. */
  function Appended(columns: seq<string>, newCols: seq<string>, i: nat, n: nat): seq<string>
    decreases n - i
  {
    if i >= n || i >= |newCols| then columns
    else Appended(if newCols[i] in columns then columns else columns + [newCols[i]], newCols, i + 1, n)
  }

  /** The new names of the pairs from `i` up to `n`. */
  ghost function NewNames(newCols: seq<string>, i: nat, n: nat): set<string> {
    set k | i <= k < n && k < |newCols| :: newCols[k]
  }

  /** What a successful loop from pair `i` on leaves in `g`, starting from
      `f`: each new column holds the cell-by-cell reading of its own source
      column, the row count is unchanged, the columns are those of `f`
      followed by the new names not already present, in pair order, and
      every column of `f` that is not a new name is left alone. */
  ghost predicate EasyColsDone(f: Frame, g: Frame, features: seq<string>, newCols: seq<string>, i: nat) {
    && g.WellFormed() && g.rows == f.rows && f.columns <= g.columns
    && g.columns == Appended(f.columns, newCols, i, |features|)
    && g.data.Keys == f.data.Keys + NewNames(newCols, i, |features|)
    && (forall k :: i <= k < |features| ==>
          && PairReady(f, features, newCols, k)
          && newCols[k] in g.data && g.data[newCols[k]] == MarkerInts(f.data[features[k]]))
    && (forall c :: c in f.data && (forall k :: i <= k < |features| && k < |newCols| ==> newCols[k] != c) ==>
          c in g.data && g.data[c] == f.data[c])
  }

  /** After a successful loop from pair `i` on, the table is as
      `EasyColsDone` describes. */
  lemma {:induction false} EasyColsResult(f: Frame, features: seq<string>, newCols: seq<string>, i: nat)
    requires f.WellFormed() && i <= |features|
    requires Independent(features, newCols, i)
    requires PairsReady(f, features, newCols, i)
    ensures EasyColsDone(f, EasyCols(f, features, newCols, i).0, features, newCols, i)
    decreases |features| - i, 1
  {
    if i < |features| {
      EasyColsResultFrom(f, features, newCols, i);
    } else {
      assert NewNames(newCols, i, |features|) == {};
    }
  }

  /** The step of `EasyColsResult` past pair `i`. */
  lemma {:induction false} EasyColsResultFrom(f: Frame, features: seq<string>, newCols: seq<string>, i: nat)
    requires f.WellFormed() && i < |features|
    requires Independent(features, newCols, i)
    requires PairsReady(f, features, newCols, i)
    ensures EasyColsDone(f, EasyCols(f, features, newCols, i).0, features, newCols, i)
    decreases |features| - i, 0
  {
    assert PairReady(f, features, newCols, i);
    var h := f.With(newCols[i], MarkerInts(f.data[features[i]]));
    EasyColsAdvance(f, features, newCols, i);
    PairsReadyAfterStep(f, h, features, newCols, i);
    EasyColsResult(h, features, newCols, i + 1);
    EasyColsDoneStep(f, h, EasyCols(h, features, newCols, i + 1).0, features, newCols, i);
  }

  /** What the loop from `i + 1` leaves after pair `i`'s column was added is
      what the loop from `i` leaves. */
  lemma EasyColsDoneStep(f: Frame, h: Frame, g: Frame, features: seq<string>, newCols: seq<string>, i: nat)
    requires f.WellFormed() && i < |features|
    requires Independent(features, newCols, i)
    requires PairsReady(f, features, newCols, i) && PairReady(f, features, newCols, i)
    requires h == f.With(newCols[i], MarkerInts(f.data[features[i]]))
    requires EasyColsDone(h, g, features, newCols, i + 1)
    ensures EasyColsDone(f, g, features, newCols, i)
  {
    assert f.columns <= h.columns;
    DoneStepNew(f, h, g, features, newCols, i);
    DoneStepOthers(f, h, g, features, newCols, i);
    DoneStepColumns(f, h, g, features, newCols, i, MarkerInts(f.data[features[i]]));
  }

  lemma DoneStepColumns(f: Frame, h: Frame, g: Frame, features: seq<string>, newCols: seq<string>, i: nat, cells: seq<Cell>)
    requires i < |features| && i < |newCols|
    requires h == f.With(newCols[i], cells)
    requires g.columns == Appended(h.columns, newCols, i + 1, |features|)
    requires g.data.Keys == h.data.Keys + NewNames(newCols, i + 1, |features|)
    ensures g.columns == Appended(f.columns, newCols, i, |features|)
    ensures g.data.Keys == f.data.Keys + NewNames(newCols, i, |features|)
  {
    assert NewNames(newCols, i, |features|) == {newCols[i]} + NewNames(newCols, i + 1, |features|);
  }

  lemma DoneStepNew(f: Frame, h: Frame, g: Frame, features: seq<string>, newCols: seq<string>, i: nat)
    requires i < |features|
    requires Independent(features, newCols, i)
    requires PairsReady(f, features, newCols, i) && PairReady(f, features, newCols, i)
    requires h == f.With(newCols[i], MarkerInts(f.data[features[i]]))
    requires EasyColsDone(h, g, features, newCols, i + 1)
    ensures forall k :: i <= k < |features| ==>
              && PairReady(f, features, newCols, k)
              && newCols[k] in g.data && g.data[newCols[k]] == MarkerInts(f.data[features[k]])
  {
    assert forall k :: i < k < |features| && k < |newCols| ==> newCols[k] != newCols[i];
    assert newCols[i] in h.data;
    forall k | i < k < |features|
      ensures PairReady(f, features, newCols, k)
      ensures newCols[k] in g.data && g.data[newCols[k]] == MarkerInts(f.data[features[k]])
    {
      assert PairReady(f, features, newCols, k);
      assert features[k] != newCols[i];
    }
  }

  lemma DoneStepOthers(f: Frame, h: Frame, g: Frame, features: seq<string>, newCols: seq<string>, i: nat)
    requires i < |features| && i < |newCols|
    requires features[i] in f.data
    requires AllMarkers(f.data[features[i]])
    requires h == f.With(newCols[i], MarkerInts(f.data[features[i]]))
    requires EasyColsDone(h, g, features, newCols, i + 1)
    ensures forall c :: c in f.data && (forall k :: i <= k < |features| && k < |newCols| ==> newCols[k] != c) ==>
              c in g.data && g.data[c] == f.data[c]
  {
    forall c | c in f.data && (forall k :: i <= k < |features| && k < |newCols| ==> newCols[k] != c)
      ensures c in g.data && g.data[c] == f.data[c]
    {
      assert newCols[i] != c;
    }
  }

  /** The whole loop: it succeeds exactly when every pair is ready, and then
      the table is as `EasyColsDone` describes. */
  lemma EasyColsMeaning(f: Frame, features: seq<string>, newCols: seq<string>)
    requires f.WellFormed()
    requires Independent(features, newCols, 0)
    ensures EasyCols(f, features, newCols, 0).1 == Done <==> PairsReady(f, features, newCols, 0)
    ensures EasyCols(f, features, newCols, 0).1 == Done ==>
              EasyColsDone(f, EasyCols(f, features, newCols, 0).0, features, newCols, 0)
  {
    EasyColsSucceeds(f, features, newCols, 0);
    if PairsReady(f, features, newCols, 0) {
      EasyColsResult(f, features, newCols, 0);
    }
  }

  /** Every cell that mentions "exploring" also mentions an x, so only the
      order of the two overwrites keeps such a cell at 0. */
  lemma ExploringMentionsMark(s: string)
    requires ContainsIgnoreCase(s, Exploring)
    ensures ContainsIgnoreCase(s, Mark)
    ensures MarkerValue(Str(s)) == Some(0)
  {
    LowerMarkers();
    var t := Lower(s);
    var i := ContainsWitness(t, Exploring);
    XInExploring(t, i);
    ContainsAt(t, "x", i + 1);
  }

  lemma LowerMarkers()
    ensures Lower(Exploring) == Exploring && Lower(Mark) == "x"
  {
    LowerOfLower(Exploring);
  }

  lemma XInExploring(t: string, i: int)
    requires OccursAt(t, Exploring, i)
    ensures OccursAt(t, "x", i + 1)
  {
    assert t[i + 1] == t[i..i + |Exploring|][1] == 'x';
    assert t[i + 1..i + 2] == "x";
  }

  /** A cell with no marker in it must read as an integer: other text makes
      the pair fail. */
  lemma LeftoverTextFails(f: Frame, feature: string, newName: string, r: int)
    requires feature in f.data && 0 <= r < |f.data[feature]|
    requires f.data[feature][r].Str?
    requires !ContainsIgnoreCase(f.data[feature][r].s, Exploring)
    requires !ContainsIgnoreCase(f.data[feature][r].s, Mark)
    requires ParseInt(f.data[feature][r].s).None?
    ensures EasyStep(f, feature, newName).1.Failed?
  {
    LeftoverIsNoMarker(f.data[feature], r);
    EasyStepMeaning(f, feature, newName);
  }

  lemma LeftoverIsNoMarker(cells: seq<Cell>, r: int)
    requires 0 <= r < |cells| && cells[r].Str?
    requires !ContainsIgnoreCase(cells[r].s, Exploring)
    requires !ContainsIgnoreCase(cells[r].s, Mark)
    requires ParseInt(cells[r].s).None?
    ensures !AllMarkers(cells)
  {
    assert MarkerValue(cells[r]).None?;
  }

  /** With no numeric cell in the source column, both text matches go
      through and a failing pair fails only at the conversion to int. */
  lemma TextColumnFailsAtConversion(f: Frame, feature: string, newName: string)
    requires feature in f.data
    requires forall q :: 0 <= q < |f.data[feature]| ==> !f.data[feature][q].Int?
    ensures EasyStep(f, feature, newName).1 == Done
            || EasyStep(f, feature, newName).1 == Failed(NotInteger(newName))
  {
    var filled := FillMissing(f.data[feature], "0");
    assert AllText(filled);
    var exploring := Matches(filled, Exploring).value;
    var cleared := Overwrite(filled, exploring, Str("0"));
    assert AllText(cleared);
  }

  /** A numeric cell in the source column makes the pair fail at the first
      text match. */
  lemma NumericCellFails(f: Frame, feature: string, newName: string, r: int)
    requires feature in f.data && 0 <= r < |f.data[feature]|
    requires f.data[feature][r].Int?
    ensures EasyStep(f, feature, newName).1 == Failed(NotString(newName))
  {
    var filled := FillMissing(f.data[feature], "0");
    assert !filled[r].Str?;
  }

  /** Every stage keeps the table well formed with the same row count, and
      the columns it had stay where they were, also when it fails. */
  lemma EasyStepKeepsShape(f: Frame, feature: string, newName: string)
    requires f.WellFormed()
    ensures var g := EasyStep(f, feature, newName).0;
            g.WellFormed() && g.rows == f.rows && f.columns <= g.columns
  {
  }

  lemma {:induction false} EasyColsKeepsShape(f: Frame, features: seq<string>, newCols: seq<string>, i: nat)
    requires f.WellFormed()
    ensures var g := EasyCols(f, features, newCols, i).0;
            g.WellFormed() && g.rows == f.rows && f.columns <= g.columns
    decreases |features| - i
  {
    if i < |features| && i < |newCols| {
      EasyStepKeepsShape(f, features[i], newCols[i]);
      var g := EasyStep(f, features[i], newCols[i]).0;
      if EasyStep(f, features[i], newCols[i]).1.Done? {
        EasyColsKeepsShape(g, features, newCols, i + 1);
      }
    }
  }

  /** When the pairs that have a new name are all ready but `newCols` is
      shorter than `features`, the loop fails on the first pair without one. */
  lemma {:induction false} EasyColsShortNames(f: Frame, features: seq<string>, newCols: seq<string>, i: nat)
    requires i <= |newCols| < |features|
    requires Independent(features, newCols, i)
    requires forall k :: i <= k < |newCols| ==> PairReady(f, features, newCols, k)
    ensures EasyCols(f, features, newCols, i) == (EasyCols(f, features, newCols, i).0, Failed(IndexError(|newCols|)))
    decreases |newCols| - i
  {
    if i < |newCols| {
      assert PairReady(f, features, newCols, i);
      var h := f.With(newCols[i], MarkerInts(f.data[features[i]]));
      EasyColsAdvance(f, features, newCols, i);
      PairsReadyAfterStep(f, h, features, newCols, i);
      forall k | i + 1 <= k < |newCols| ensures PairReady(h, features, newCols, k) {
        assert PairReady(f, features, newCols, k);
      }
      EasyColsShortNames(h, features, newCols, i + 1);
    }
  }
}
