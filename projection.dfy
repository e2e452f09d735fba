/** `select_columns`: the final table holds exactly the requested columns,
    in the requested order. */
module Projection {
  import opened Errors
  import opened Frames

  /** `FINAL_FEATURES`: the state, the date the policy took effect, and the
      eight 0/1 policy columns. */
  const FinalFeatures: seq<string> := [
    "state", "effective_date", "no_visits", "lawyer_access", "phone_access",
    "video_access", "no_volunteers", "limiting_movement", "screening",
    "healthcare_support"
  ]

  /** The requested columns the table lacks, in request order. */
  function Absent(features: seq<string>, data: map<string, seq<Cell>>): (r: seq<string>)
    ensures forall c :: c in r <==> c in features && c !in data
  {
    if features == [] then []
    else (if features[0] in data then [] else [features[0]]) + Absent(features[1..], data)
  }

  /** `df.copy()[features]`: a key error for an absent column, otherwise a
      new table of the requested columns with all of their rows. */
  function SelectColumns(f: Frame, features: seq<string>): Result<Frame> {
    var absent := Absent(features, f.data);
    if absent != [] then Err(KeyError(absent[0]))
    else Ok(Frame(features, map c | c in features :: f.data[c], f.rows))
  }

  /** `select_columns(df, features)` reads the table and returns a new one;
      the table it was given is left as it was. */
  method SelectColumnsOf(t: Table, features: seq<string>) returns (r: Result<Frame>)
    ensures r == SelectColumns(t.Copy(), features)
  {
    var small := t.Copy();
    r := SelectColumns(small, features);
  }

  /** The projection fails exactly when a requested column is absent, and
      then names one of the absent columns; on success the new table has
      exactly the requested columns in the requested order, each with the
      cells it had, and as many rows as before; it is well formed when no
      column is requested twice. */
  lemma SelectColumnsMeaning(f: Frame, features: seq<string>)
    ensures SelectColumns(f, features).Err? <==> exists k :: 0 <= k < |features| && features[k] !in f.data
    ensures SelectColumns(f, features).Err? ==>
              SelectColumns(f, features).error.KeyError?
              && SelectColumns(f, features).error.key in features
              && SelectColumns(f, features).error.key !in f.data
    ensures SelectColumns(f, features).Ok? ==>
              var g := SelectColumns(f, features).value;
              && g.columns == features && g.rows == f.rows
              && (forall c :: c in g.data <==> c in features)
              && (forall c :: c in features ==> c in f.data && g.data[c] == f.data[c])
    ensures SelectColumns(f, features).Ok? && f.WellFormed()
            && (forall i, j :: 0 <= i < j < |features| ==> features[i] != features[j]) ==>
              SelectColumns(f, features).value.WellFormed()
  {
    var absent := Absent(features, f.data);
    if absent != [] {
      assert absent[0] in absent;
    } else {
      forall k | 0 <= k < |features| ensures features[k] in f.data {
        assert features[k] !in absent;
      }
    }
  }

  /** Projecting a projection onto a sub-list is one projection. */
  lemma SelectTwice(f: Frame, features: seq<string>, fewer: seq<string>)
    requires SelectColumns(f, features).Ok?
    requires forall c :: c in fewer ==> c in features
    ensures SelectColumns(SelectColumns(f, features).value, fewer) == SelectColumns(f, fewer)
  {
    SelectColumnsMeaning(f, features);
    var g := SelectColumns(f, features).value;
    NoneAbsent(fewer, g.data);
    NoneAbsent(fewer, f.data);
    assert (map c | c in fewer :: g.data[c]) == (map c | c in fewer :: f.data[c]);
  }

  lemma NoneAbsent(features: seq<string>, data: map<string, seq<Cell>>)
    requires forall c :: c in features ==> c in data
    ensures Absent(features, data) == []
  {
  }

  /** The default column list names ten distinct columns. */
  lemma FinalFeaturesDistinct()
    ensures |FinalFeatures| == 10
    ensures forall i, j :: 0 <= i < j < |FinalFeatures| ==> FinalFeatures[i] != FinalFeatures[j]
  {
    assert forall i, j :: 0 <= i < j < |FinalFeatures| ==>
      FinalFeatures[i][0] != FinalFeatures[j][0] || |FinalFeatures[i]| != |FinalFeatures[j]|;
  }

  /** A well-formed table holding every default column projects to a
      well-formed table of exactly those columns. */
  lemma FinalFeaturesProjection(f: Frame)
    requires f.WellFormed()
    requires forall c :: c in FinalFeatures ==> c in f.data
    ensures SelectColumns(f, FinalFeatures).Ok?
    ensures SelectColumns(f, FinalFeatures).value.WellFormed()
    ensures SelectColumns(f, FinalFeatures).value.columns == FinalFeatures
  {
    FinalFeaturesDistinct();
    SelectColumnsMeaning(f, FinalFeatures);
  }
}
