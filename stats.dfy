/** The detailed statistics of the review summary: how many rows carry a
    numeric rating value, how often each rating label occurs, and how many
    reviews each reviewer type made. They read the table of the last save in
    the session, or else the annotation table loaded at start. */
module Stats {
  import opened Wrappers
  import opened Text
  import opened Tables
  import opened Review

  /** The table the statistics read: the session's last saved table when
      there is one, the loaded annotation table otherwise. */
  function StatsTable(lastSaved: Option<Table>, loaded: Option<Table>): (r: Option<Table>)
    ensures lastSaved.Some? ==> r == lastSaved
    ensures lastSaved.None? ==> r == loaded
  {
    if lastSaved.Some? then lastSaved else loaded
  }

  /** The cells of column `c`, top to bottom. */
  function Column(t: Table, c: string): (r: seq<string>)
    requires WellFormed(t) && c in t.columns
    ensures |r| == |t.rows|
    ensures forall i :: 0 <= i < |t.rows| ==> r[i] == t.rows[i][c]
  {
    seq(|t.rows|, i requires 0 <= i < |t.rows| => t.rows[i][c])
  }

  predicate IsDigit(ch: char) {
    '0' <= ch <= '9'
  }

  /** Text that reads as a decimal number: an optional sign, then digits
      with at most one decimal point among them, and at least one digit. */
  predicate IsNumeric(s: string) {
    var body := if |s| > 0 && (s[0] == '-' || s[0] == '+') then s[1..] else s;
    && (exists i :: 0 <= i < |body| && IsDigit(body[i]))
    && (forall i :: 0 <= i < |body| ==> IsDigit(body[i]) || body[i] == '.')
    && (forall i, j :: 0 <= i < j < |body| && body[i] == '.' ==> body[j] != '.')
  }

  /** The values that survive the numeric coercion, in order. */
  function NumericValues(vs: seq<string>): (r: seq<string>)
    ensures |r| <= |vs|
    ensures forall v :: v in r <==> v in vs && IsNumeric(v)
    ensures multiset(r) <= multiset(vs)
    ensures forall v :: multiset(r)[v] == if IsNumeric(v) then multiset(vs)[v] else 0
  {
    if vs == [] then []
    else
      var rest := NumericValues(vs[1..]);
      assert vs == [vs[0]] + vs[1..];
      if IsNumeric(vs[0]) then [vs[0]] + rest else rest
  }

  /** How often each value occurs: exactly the values present, each with its
      number of occurrences. */
  function ValueCounts(vs: seq<string>): (r: map<string, nat>)
    ensures forall v :: v in r <==> v in vs
    ensures forall v :: v in r ==> r[v] == multiset(vs)[v]
  {
    if vs == [] then map[]
    else
      var rest := ValueCounts(vs[1..]);
      assert vs == [vs[0]] + vs[1..];
      var k := if vs[0] in rest then rest[vs[0]] else 0;
      rest[vs[0] := k + 1]
  }

  /** The lines a histogram shows: the counted values less those skipped. */
  function Histogram(vs: seq<string>, skip: set<string>): (r: map<string, nat>)
    ensures forall v :: v in r <==> v in vs && v !in skip
    ensures forall v :: v in r ==> r[v] == multiset(vs)[v] && r[v] >= 1
  {
    var counts := ValueCounts(vs);
    map v | v in counts && v !in skip :: counts[v]
  }

  /** The rating part of the statistics: not shown when there is no table,
      no rating value column or no numeric rating value; a missing rating
      column then stops the page; otherwise the number rated and a line per
      non-empty rating label. */
  datatype RatingPanel = NotShown | MissingRatingColumn | Shown(rated: nat, counts: map<string, nat>)

  function RatingStats(t: Option<Table>): (r: RatingPanel)
    requires t.Some? ==> WellFormed(t.value)
    ensures r.NotShown? <==> t.None? || RatingValueCol !in t.value.columns
                             || |NumericValues(Column(t.value, RatingValueCol))| == 0
    ensures r.MissingRatingColumn? ==> RatingCol !in t.value.columns
    ensures r.Shown? ==>
      && 1 <= r.rated <= |t.value.rows|
      && r.rated == |NumericValues(Column(t.value, RatingValueCol))|
      && RatingCol in t.value.columns
      && (forall v :: v in r.counts <==> v in Column(t.value, RatingCol) && v != "")
      && (forall v :: v in r.counts ==> r.counts[v] == multiset(Column(t.value, RatingCol))[v])
  {
    if t.None? || RatingValueCol !in t.value.columns then NotShown
    else
      var rated := |NumericValues(Column(t.value, RatingValueCol))|;
      if rated == 0 then NotShown
      else if RatingCol !in t.value.columns then MissingRatingColumn
      else Shown(rated, Histogram(Column(t.value, RatingCol), {""}))
  }

  /** The reviewer-type part: shown when the table has the column and the
      rating part did not stop the page, with a line per reviewer type other
      than the empty one and the placeholder. */
  function ReviewerTypeStats(t: Option<Table>): (r: Option<map<string, nat>>)
    requires t.Some? ==> WellFormed(t.value)
    ensures r.Some? <==>
      t.Some? && ReviewerTypeCol in t.value.columns && !RatingStats(t).MissingRatingColumn?
    ensures r.Some? ==>
      && (forall v :: v in r.value <==>
            v in Column(t.value, ReviewerTypeCol) && v != "" && v != UnsetReviewerType)
      && (forall v :: v in r.value ==> r.value[v] == multiset(Column(t.value, ReviewerTypeCol))[v])
  {
    if t.Some? && ReviewerTypeCol in t.value.columns && !RatingStats(t).MissingRatingColumn?
    then Some(Histogram(Column(t.value, ReviewerTypeCol), {"", UnsetReviewerType}))
    else None
  }

  /** Every score the rating map produces reads as a number, and the blank
      value of an unknown label does not. */
  lemma RatingValueNumeric(name: string)
    ensures IsNumeric(RatingValue(name)) <==> name in RatingLabels()
  {
    RatingValueMapping(name);
    var v := RatingValue(name);
    assert RatingLabels() == ["⭐⭐⭐⭐⭐ Excellent", "⭐⭐⭐⭐ Good", "⭐⭐⭐ Fair", "⭐⭐ Poor", "⭐ Very Poor"];
    if name in RatingLabels() {
      assert v == "5" || v == "4" || v == "3" || v == "2" || v == "1";
      assert |v| == 1 && IsDigit(v[0]) && v[0] != '-' && v[0] != '+';
      assert exists i :: 0 <= i < |v| && IsDigit(v[i]) by {
        assert IsDigit(v[0]);
      }
      assert IsNumeric(v);
      assert IsNumeric(RatingValue(name));
    } else {
      assert v == "";
    }
  }

  /** After a save with one of the rating labels, the statistics show the
      rating panel, with that label counted at least once, and the reviewer
      type counted at least once, whatever table was loaded at start. */
  lemma SavedReviewIsCounted(source: Table, file: FileState, index: nat, input: Input, stamp: string, k: nat,
                             loaded: Option<Table>)
    requires WellFormed(source) && FileWellFormed(file) && index < |source.rows|
    requires SaveResult(source, file, index, input, stamp).Saved?
    requires k < |RatingLabels()| && input.rating == Some(RatingLabels()[k])
    requires input.reviewerType != ""
    ensures var t := StatsTable(Some(SaveResult(source, file, index, input, stamp).table), loaded);
      && RatingStats(t).Shown?
      && RatingLabels()[k] in RatingStats(t).counts
      && ReviewerTypeStats(t).Some?
      && input.reviewerType in ReviewerTypeStats(t).value
  {
    var n := |source.rows|;
    var base := Base(source, file);
    var r := Merge(base, n, index, input, stamp);
    assert SaveResult(source, file, index, input, stamp).table == r;
    var name := RatingLabels()[k];
    LabelHasText(k);
    MergeShape(base, n, index, input, stamp);
    MergeRating(base, n, index, input, stamp);
    MergeStamp(base, n, index, input, stamp);
    RatingValueNumeric(name);
    assert name in RatingLabels();
    assert Column(r, RatingValueCol)[index] == RatingValue(name);
    assert RatingValue(name) in NumericValues(Column(r, RatingValueCol));
    assert Column(r, RatingCol)[index] == name;
    assert Column(r, ReviewerTypeCol)[index] == input.reviewerType;
  }
}
