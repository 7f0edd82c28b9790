/** What the review page shows about progress: how many questions carry a
    rating or a remark, whether the current one does, and which rating and
    remark the widgets start from. All of it reads the annotation table as it
    was loaded, or nothing when there was none. */
module Progress {
  import opened Wrappers
  import opened Text
  import opened Tables
  import opened Review
  import opened Loading

  /** A saved row counts as reviewed when its rating or its remark holds more
      than whitespace; a column the table lacks reads as blank. */
  predicate RowReviewed(t: Table, i: nat)
    requires WellFormed(t) && i < |t.rows|
  {
    !IsBlank(Get(t, i, RatingCol)) || !IsBlank(Get(t, i, RemarksCol))
  }

  /** The reviewed rows among the first `k` rows of `t`. */
  function ReviewedBelow(t: Table, k: nat): (r: set<nat>)
    requires WellFormed(t) && k <= |t.rows|
    ensures forall i: nat :: i in r <==> i < k && RowReviewed(t, i)
  {
    set i: nat | i < k && RowReviewed(t, i)
  }

  /** The rows the reviewed counter counts, for a source of `n` questions:
      those below both `n` and the saved table's length, and none at all
      when no annotation table was loaded. */
  function ReviewedRows(n: nat, saved: Option<Table>): (r: set<nat>)
    requires saved.Some? ==> WellFormed(saved.value)
    ensures saved.None? ==> r == {}
    ensures saved.Some? ==> forall i: nat :: i in r <==>
      i < n && i < |saved.value.rows| && RowReviewed(saved.value, i)
  {
    if saved.None? then {}
    else
      var t := saved.value;
      ReviewedBelow(t, if n < |t.rows| then n else |t.rows|)
  }

  /** The reviewed counter: one pass over the rows both tables have, testing
      the stripped rating and remark of each. */
  method CountReviewed(n: nat, saved: Option<Table>) returns (count: nat)
    requires saved.Some? ==> WellFormed(saved.value)
    ensures count == |ReviewedRows(n, saved)|
  {
    count := 0;
    if saved.Some? && |saved.value.rows| > 0 {
      var t := saved.value;
      var m := if n < |t.rows| then n else |t.rows|;
      for i := 0 to m
        invariant count == |ReviewedBelow(t, i)|
      {
        var hasRating := false;
        var hasRemark := false;
        if RatingCol in t.columns {
          hasRating := CheckText(Some(t.rows[i][RatingCol]));
        }
        if RemarksCol in t.columns {
          hasRemark := CheckText(Some(t.rows[i][RemarksCol]));
        }
        if hasRating || hasRemark {
          assert ReviewedBelow(t, i + 1) == ReviewedBelow(t, i) + {i};
          count := count + 1;
        } else {
          assert ReviewedBelow(t, i + 1) == ReviewedBelow(t, i);
        }
      }
    }
  }

  /** The indices below `k`. */
  function Below(k: nat): (r: set<nat>)
    ensures forall i: nat :: i in r <==> i < k
  {
    if k == 0 then {} else Below(k - 1) + {k - 1}
  }

  lemma {:induction false} BelowSize(k: nat)
    ensures |Below(k)| == k
  {
    if k > 0 {
      BelowSize(k - 1);
      assert Below(k) == Below(k - 1) + {k - 1};
    }
  }

  /** The counter never exceeds the number of questions nor the number of
      saved rows, and it is 0 when there is no annotation table. */
  lemma ReviewedCountBounds(n: nat, saved: Option<Table>)
    requires saved.Some? ==> WellFormed(saved.value)
    ensures |ReviewedRows(n, saved)| <= n
    ensures saved.Some? ==> |ReviewedRows(n, saved)| <= |saved.value.rows|
    ensures saved.None? ==> |ReviewedRows(n, saved)| == 0
  {
    if saved.Some? {
      var r := ReviewedRows(n, saved);
      var m := if n < |saved.value.rows| then n else |saved.value.rows|;
      assert r <= Below(m);
      BelowSize(m);
      assert |r| <= |Below(m)| by {
        SubsetSize(r, Below(m));
      }
    }
  }

  lemma {:induction false} SubsetSize(a: set<nat>, b: set<nat>)
    requires a <= b
    ensures |a| <= |b|
  {
    if a != {} {
      var x :| x in a;
      SubsetSize(a - {x}, b - {x});
    }
  }

  /** The status shown for the current question: the saved table has that
      row and a rating or remarks column, and one of the two holds text. */
  predicate IsReviewedAt(saved: Option<Table>, index: nat)
    requires saved.Some? ==> WellFormed(saved.value)
    ensures IsReviewedAt(saved, index) <==>
      saved.Some? && index < |saved.value.rows| && RowReviewed(saved.value, index)
  {
    && saved.Some?
    && index < |saved.value.rows|
    && (RatingCol in saved.value.columns || RemarksCol in saved.value.columns)
    && (!IsBlank(Get(saved.value, index, RatingCol)) || !IsBlank(Get(saved.value, index, RemarksCol)))
  }

  /** The status badge and the counter agree: a question within the source
      is shown as reviewed exactly when the counter counts it. */
  lemma StatusAgreesWithCount(n: nat, saved: Option<Table>, index: nat)
    requires saved.Some? ==> WellFormed(saved.value)
    requires index < n
    ensures IsReviewedAt(saved, index) <==> index in ReviewedRows(n, saved)
  {
    if saved.Some? && index < |saved.value.rows| {
      var t := saved.value;
      if RatingCol !in t.columns && RemarksCol !in t.columns {
        assert Get(t, index, RatingCol) == "" && Get(t, index, RemarksCol) == "";
      }
    }
  }

  /** The rating the radio starts from: the saved rating label of the row,
      taken as it is (not stripped), when it is not empty. */
  function ExistingRating(saved: Option<Table>, index: nat): (r: Option<string>)
    requires saved.Some? ==> WellFormed(saved.value)
    ensures r.Some? <==> saved.Some? && index < |saved.value.rows| && Get(saved.value, index, RatingCol) != ""
    ensures r.Some? ==> r.value == Get(saved.value, index, RatingCol)
  {
    if saved.Some? && index < |saved.value.rows| && RatingCol in saved.value.columns
       && saved.value.rows[index][RatingCol] != ""
    then Some(saved.value.rows[index][RatingCol])
    else None
  }

  /** The remark the text area starts from: the saved remark of the row, or
      the empty text. */
  function ExistingRemark(saved: Option<Table>, index: nat): (r: string)
    requires saved.Some? ==> WellFormed(saved.value)
    ensures saved.Some? && index < |saved.value.rows| ==> r == Get(saved.value, index, RemarksCol)
    ensures saved.None? || index >= |saved.value.rows| ==> r == ""
  {
    if saved.Some? && index < |saved.value.rows| && RemarksCol in saved.value.columns
       && saved.value.rows[index][RemarksCol] != ""
    then saved.value.rows[index][RemarksCol]
    else ""
  }

  /** The position of the first occurrence of `x` in `s`, if any. */
  function IndexOf(s: seq<string>, x: string): (r: Option<nat>)
    ensures r.None? <==> x !in s
    ensures r.Some? ==>
      r.value < |s| && s[r.value] == x && forall j :: 0 <= j < r.value ==> s[j] != x
  {
    if s == [] then None
    else if s[0] == x then Some(0)
    else
      match IndexOf(s[1..], x)
      case None => None
      case Some(k) => Some(k + 1)
  }

  /** The rating option selected at first: the saved label's position among
      the options when it is one of them, the first option otherwise. */
  function DefaultRatingIndex(existing: Option<string>): (r: nat)
    ensures r < |RatingLabels()|
    ensures existing.Some? && existing.value in RatingLabels() ==> RatingLabels()[r] == existing.value
    ensures existing.None? || existing.value !in RatingLabels() ==> r == 0
  {
    if existing.Some? && existing.value != "" then
      match IndexOf(RatingLabels(), existing.value)
      case Some(k) => k
      case None => 0
    else 0
  }

  lemma RatingLabelsDistinct()
    ensures forall i, j :: 0 <= i < j < |RatingLabels()| ==> RatingLabels()[i] != RatingLabels()[j]
  {
    var l := RatingLabels();
    assert l == ["⭐⭐⭐⭐⭐ Excellent", "⭐⭐⭐⭐ Good", "⭐⭐⭐ Fair", "⭐⭐ Poor", "⭐ Very Poor"];
  }

  /** The radio comes back to the option that was saved: the `k`-th label
      read back from the row is the default, and its position is `k`. */
  lemma DefaultIndexOfLabel(k: nat)
    requires k < |RatingLabels()|
    ensures DefaultRatingIndex(Some(RatingLabels()[k])) == k
  {
    RatingLabelsDistinct();
    assert RatingLabels()[k] != "" by {
      assert |RatingLabels()[k]| > 0;
    }
  }

  /** What the page reads back after a save: the `k`-th rating label and a
      non-blank remark reappear as the widgets' starting values. */
  lemma SaveRoundTrip(source: Table, file: FileState, index: nat, input: Input, stamp: string, k: nat)
    requires WellFormed(source) && FileWellFormed(file) && index < |source.rows|
    requires SaveResult(source, file, index, input, stamp).Saved?
    requires k < |RatingLabels()| && input.rating == Some(RatingLabels()[k])
    ensures var after := Some(SaveResult(source, file, index, input, stamp).table);
      && ExistingRating(after, index) == Some(RatingLabels()[k])
      && DefaultRatingIndex(ExistingRating(after, index)) == k
      && (HasText(input.remark) ==> ExistingRemark(after, index) == input.remark.value)
  {
    var base := Base(source, file);
    LabelHasText(k);
    MergeRating(base, |source.rows|, index, input, stamp);
    MergeRemark(base, |source.rows|, index, input, stamp);
    DefaultIndexOfLabel(k);
  }

  /** A table just created from the source has no reviewed row. */
  lemma CloneUnreviewed(source: Table, n: nat)
    requires WellFormed(source)
    ensures ReviewedRows(n, Some(CloneWithAnnotations(source))) == {}
  {
    var t := CloneWithAnnotations(source);
    forall i: nat | i < |t.rows|
      ensures !RowReviewed(t, i)
    {
      CloneBlankAt(source, i, RatingCol);
      CloneBlankAt(source, i, RemarksCol);
    }
    var r := ReviewedRows(n, Some(t));
    forall i: nat | i in r
      ensures false
    {
    }
  }

  /** Away from the saved row, a merged table is reviewed where the table it
      started from was. */
  lemma MergeSameReviewAt(base: Table, n: nat, index: nat, input: Input, stamp: string, i: nat)
    requires WellFormed(base) && index < n
    requires i != index && i < n
    ensures i in ReviewedRows(n, Some(Merge(base, n, index, input, stamp))) <==> i in ReviewedRows(n, Some(base))
  {
    MergeShape(base, n, index, input, stamp);
    MergeCellAt(base, n, index, input, stamp, i, RatingCol);
    MergeCellAt(base, n, index, input, stamp, i, RemarksCol);
  }

  /** Merging changes the reviewed rows only at the saved row, which is then
      reviewed exactly when a rating or a remark was given or it was
      reviewed before. */
  lemma MergeUpdatesReviewed(base: Table, n: nat, index: nat, input: Input, stamp: string)
    requires WellFormed(base) && index < n
    ensures var before := ReviewedRows(n, Some(base));
      var after := ReviewedRows(n, Some(Merge(base, n, index, input, stamp)));
      && (index in after <==> HasText(input.rating) || HasText(input.remark) || index in before)
      && after - {index} == before - {index}
  {
    var before := ReviewedRows(n, Some(base));
    var after := ReviewedRows(n, Some(Merge(base, n, index, input, stamp)));
    MergeShape(base, n, index, input, stamp);
    MergeRating(base, n, index, input, stamp);
    MergeRemark(base, n, index, input, stamp);
    forall i: nat | i != index && i < n
      ensures i in after <==> i in before
    {
      MergeSameReviewAt(base, n, index, input, stamp, i);
    }
  }

  /** A save changes the reviewed rows only at the saved row, which is
      reviewed afterwards exactly when a rating or a remark was given or it
      was reviewed in the file as loaded. */
  lemma SaveUpdatesReviewed(source: Table, file: FileState, index: nat, input: Input, stamp: string)
    requires WellFormed(source) && FileWellFormed(file) && index < |source.rows|
    requires SaveResult(source, file, index, input, stamp).Saved?
    ensures var n := |source.rows|;
      var before := ReviewedRows(n, LoadExistingReviews(file));
      var after := ReviewedRows(n, Some(SaveResult(source, file, index, input, stamp).table));
      && (index in after <==> HasText(input.rating) || HasText(input.remark) || index in before)
      && after - {index} == before - {index}
  {
    var n := |source.rows|;
    var base := Base(source, file);
    assert SaveResult(source, file, index, input, stamp).table == Merge(base, n, index, input, stamp);
    MergeUpdatesReviewed(base, n, index, input, stamp);
    if file.Missing? {
      CloneUnreviewed(source, n);
    }
  }

  /** The first save into a new file with a rating makes the counter read 1. */
  lemma FirstSaveCountsOne(source: Table, index: nat, input: Input, stamp: string)
    requires WellFormed(source) && index < |source.rows|
    requires HasIdentity(input) && HasText(input.rating)
    ensures SaveResult(source, Missing, index, input, stamp).Saved?
    ensures |ReviewedRows(|source.rows|, Some(SaveResult(source, Missing, index, input, stamp).table))| == 1
  {
    var n := |source.rows|;
    var after := ReviewedRows(n, Some(SaveResult(source, Missing, index, input, stamp).table));
    SaveUpdatesReviewed(source, Missing, index, input, stamp);
    assert index in after;
    assert after - {index} == {};
    assert after == {index};
  }
}
