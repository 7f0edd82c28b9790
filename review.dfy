/** Saving a review: reconciles the annotation file with the source table and
    patches the current row with the reviewer's rating, remark and identity. */
module Review {
  import opened Wrappers
  import opened Text
  import opened Tables

  const RatingCol := "Rating"
  const RatingValueCol := "Rating_Value"
  const RemarksCol := "Remarks"
  const ReviewerCol := "Reviewer"
  const ReviewerTypeCol := "Reviewer_Type"
  const ReviewDateCol := "Review_Date"

  /** The six columns the review page adds to the source table, in order. */
  const AnnotationColumns: seq<string> :=
    [RatingCol, RatingValueCol, RemarksCol, ReviewerCol, ReviewerTypeCol, ReviewDateCol]

  /** The six annotation column names are distinct. */
  lemma AnnotationColumnsDistinct()
    ensures RatingCol != RatingValueCol && RatingCol != RemarksCol && RatingCol != ReviewerCol
    ensures RatingCol != ReviewerTypeCol && RatingCol != ReviewDateCol
    ensures RatingValueCol != RemarksCol && RatingValueCol != ReviewerCol
    ensures RatingValueCol != ReviewerTypeCol && RatingValueCol != ReviewDateCol
    ensures RemarksCol != ReviewerCol && RemarksCol != ReviewerTypeCol && RemarksCol != ReviewDateCol
    ensures ReviewerCol != ReviewerTypeCol && ReviewerCol != ReviewDateCol
    ensures ReviewerTypeCol != ReviewDateCol
  {
  }

  /** The reviewer-type selector's placeholder, which does not identify anyone. */
  const UnsetReviewerType := "Select Type"

  /** A rating score: one decimal digit. */
  type Score = d: nat | d < 10

  /** The rating radio's options with their numeric score, in display order. */
  const RatingOptions: seq<(string, Score)> := [
    ("⭐⭐⭐⭐⭐ Excellent", 5),
    ("⭐⭐⭐⭐ Good", 4),
    ("⭐⭐⭐ Fair", 3),
    ("⭐⭐ Poor", 2),
    ("⭐ Very Poor", 1)
  ]

  /** The rating options in the order the radio shows them. */
  function RatingLabels(): seq<string> {
    seq(|RatingOptions|, k requires 0 <= k < |RatingOptions| => RatingOptions[k].0)
  }

  /** A lookup in an option list: the score of the first entry
      with that name, if any. */
  function Lookup(opts: seq<(string, Score)>, name: string): Option<Score> {
    if opts == [] then None
    else if opts[0].0 == name then Some(opts[0].1)
    else Lookup(opts[1..], name)
  }

  /** The lookup finds a score exactly when some entry has the name, and the
      score it finds belongs to the first such entry. */
  lemma {:induction false} LookupFinds(opts: seq<(string, Score)>, name: string)
    ensures var r := Lookup(opts, name);
      && (r.None? <==> forall k :: 0 <= k < |opts| ==> opts[k].0 != name)
      && (r.Some? ==> exists k :: 0 <= k < |opts| && opts[k] == (name, r.value)
                        && forall j :: 0 <= j < k ==> opts[j].0 != name)
  {
    if opts != [] && opts[0].0 != name {
      LookupFinds(opts[1..], name);
      var r := Lookup(opts[1..], name);
      assert forall k :: 1 <= k < |opts| ==> opts[k] == opts[1..][k - 1];
      if r.Some? {
        var k :| 0 <= k < |opts[1..]| && opts[1..][k] == (name, r.value)
                 && forall j :: 0 <= j < k ==> opts[1..][j].0 != name;
        assert opts[k + 1] == (name, r.value);
        assert forall j :: 0 <= j < k + 1 ==> opts[j].0 != name by {
          forall j | 0 <= j < k + 1 ensures opts[j].0 != name {
            if j > 0 { assert opts[j] == opts[1..][j - 1]; }
          }
        }
      }
    } else if opts != [] {
      assert opts[0] == (name, opts[0].1);
    }
  }

  /** The decimal text of a one-digit number, as pandas writes an integer cell. */
  function DigitText(d: Score): string {
    [(('0' as int) + d) as char]
  }

  /** The numeric score of a rating label, as the text the CSV file holds;
      the blank cell for a label the options do not have. */
  function RatingValue(name: string): string {
    match Lookup(RatingOptions, name)
    case Some(v) => DigitText(v)
    case None => ""
  }

  /** The fixed mapping Excellent to 5 down to Very Poor to 1; any other
      name maps to the blank cell. */
  lemma RatingValueMapping(name: string)
    ensures RatingValue(name) == (
      if name == "⭐⭐⭐⭐⭐ Excellent" then "5"
      else if name == "⭐⭐⭐⭐ Good" then "4"
      else if name == "⭐⭐⭐ Fair" then "3"
      else if name == "⭐⭐ Poor" then "2"
      else if name == "⭐ Very Poor" then "1"
      else "")
  {
    var r := Lookup(RatingOptions, name);
    LookupFinds(RatingOptions, name);
    if r.Some? {
      var k :| 0 <= k < |RatingOptions| && RatingOptions[k] == (name, r.value);
      assert k == 0 || k == 1 || k == 2 || k == 3 || k == 4;
    }
  }

  /** Every rating label holds text. */
  lemma LabelHasText(k: nat)
    requires k < |RatingLabels()|
    ensures HasText(Some(RatingLabels()[k])) && RatingLabels()[k] != ""
  {
    var l := RatingLabels()[k];
    assert l[|l| - 1] in "tdr";
    assert !IsSpace(l[|l| - 1]);
  }

  /** What the widgets and the sidebar hold when the save runs: the selected
      rating and the remark text (None when the session holds no value under
      the widget's key), the reviewer's name and the reviewer type. */
  datatype Input = Input(
    rating: Option<string>,
    remark: Option<string>,
    reviewerName: string,
    reviewerType: string)

  /** A widget value is given and holds more than whitespace (the stripped
      text is not empty; see `StripEmptyIffBlank`). */
  predicate HasText(x: Option<string>) {
    x.Some? && !IsBlank(x.value)
  }

  /** The same test computed by stripping the text, as the page does. */
  method CheckText(x: Option<string>) returns (has: bool)
    ensures has == HasText(x)
  {
    has := x.Some? && Strip(x.value) != "";
    if x.Some? {
      StripEmptyIffBlank(x.value);
    }
  }

  /** The guard of the save: a reviewer name and a real reviewer type. */
  predicate HasIdentity(input: Input) {
    input.reviewerName != "" && input.reviewerType != UnsetReviewerType
  }

  /** The outcome of one save: refused by the identity guard, failed inside
      the `try` (the existing file could not be read), or the table written. */
  datatype SaveOutcome = Rejected | Failed | Saved(table: Table)

  /** A copy of the source table with the six annotation columns set to blank,
      as built when no annotation file exists yet. */
  function CloneWithAnnotations(source: Table): (r: Table)
    requires WellFormed(source)
    ensures WellFormed(r)
  {
    BlankColumns(source, AnnotationColumns)
  }

  /** The table the save starts from when it does not fail to read one. */
  function Base(source: Table, file: FileState): (r: Table)
    requires WellFormed(source) && FileWellFormed(file) && !file.Unreadable?
    ensures WellFormed(r)
  {
    if file.Present? then file.table else CloneWithAnnotations(source)
  }

  predicate HasAnnotationColumns(t: Table) {
    forall c :: c in AnnotationColumns ==> c in t.columns
  }

  /** Schema migration and row-count reconciliation: every annotation column
      exists, the table keeps all its rows and has at least `n`. */
  function Reconcile(base: Table, n: nat): (r: Table)
    requires WellFormed(base)
    ensures WellFormed(r) && HasAnnotationColumns(r)
    ensures |r.rows| == if |base.rows| < n then n else |base.rows|
  {
    Pad(AddMissingColumns(base, AnnotationColumns), n)
  }

  /** The rating and its numeric value, written only for a non-blank rating. */
  function RatingCells(input: Input): map<string, string> {
    if HasText(input.rating)
    then map[RatingCol := input.rating.value, RatingValueCol := RatingValue(input.rating.value)]
    else map[]
  }

  /** The remark, written only when it is not blank. */
  function RemarkCells(input: Input): map<string, string> {
    if HasText(input.remark) then map[RemarksCol := input.remark.value] else map[]
  }

  /** The reviewer, the reviewer type and the date, written on every save. */
  function StampCells(input: Input, stamp: string): map<string, string> {
    map[ReviewerCol := input.reviewerName, ReviewerTypeCol := input.reviewerType, ReviewDateCol := stamp]
  }

  /** The cells the save writes at its row. */
  function Written(input: Input, stamp: string): (w: map<string, string>)
    ensures forall c :: c in w ==> c in AnnotationColumns
  {
    RatingCells(input) + RemarkCells(input) + StampCells(input, stamp)
  }

  /** Cell by cell, what the save writes at its row. */
  lemma WrittenCells(input: Input, stamp: string)
    ensures var w := Written(input, stamp);
      && (RatingCol in w <==> HasText(input.rating))
      && (RatingValueCol in w <==> HasText(input.rating))
      && (RemarksCol in w <==> HasText(input.remark))
      && (HasText(input.rating) ==> w[RatingCol] == input.rating.value)
      && (HasText(input.rating) ==> w[RatingValueCol] == RatingValue(input.rating.value))
      && (HasText(input.remark) ==> w[RemarksCol] == input.remark.value)
      && w[ReviewerCol] == input.reviewerName
      && w[ReviewerTypeCol] == input.reviewerType
      && w[ReviewDateCol] == stamp
  {
    AnnotationColumnsDistinct();
  }

  /** The cell writes of the save on one row, in the order the page makes
      them: rating and value, remark, then reviewer, reviewer type and date. */
  function PatchRow(row: Row, input: Input, stamp: string): Row {
    var rated := if HasText(input.rating)
      then row[RatingCol := input.rating.value][RatingValueCol := RatingValue(input.rating.value)]
      else row;
    var remarked := if HasText(input.remark) then rated[RemarksCol := input.remark.value] else rated;
    remarked[ReviewerCol := input.reviewerName][ReviewerTypeCol := input.reviewerType][ReviewDateCol := stamp]
  }

  /** The writes on one row take exactly the written cells and keep all others. */
  lemma PatchRowIsUnion(row: Row, input: Input, stamp: string)
    ensures PatchRow(row, input, stamp) == row + Written(input, stamp)
  {
    var rc, mc, sc := RatingCells(input), RemarkCells(input), StampCells(input, stamp);
    var rated := if HasText(input.rating)
      then row[RatingCol := input.rating.value][RatingValueCol := RatingValue(input.rating.value)]
      else row;
    if HasText(input.rating) {
      UpdateIsUnion2(row, RatingCol, input.rating.value, RatingValueCol, RatingValue(input.rating.value));
    }
    assert rated == row + rc;
    var remarked := if HasText(input.remark) then rated[RemarksCol := input.remark.value] else rated;
    if HasText(input.remark) {
      UpdateIsUnion1(rated, RemarksCol, input.remark.value);
    }
    assert remarked == (row + rc) + mc;
    UpdateIsUnion3(remarked, ReviewerCol, input.reviewerName, ReviewerTypeCol, input.reviewerType, ReviewDateCol, stamp);
    UnionAssoc(row, rc, mc);
    UnionAssoc(row, rc + mc, sc);
  }

  /** The cell writes of the save at row `i`. */
  function Patch(t: Table, i: nat, input: Input, stamp: string): (r: Table)
    requires WellFormed(t) && HasAnnotationColumns(t) && i < |t.rows|
    ensures WellFormed(r)
  {
    PatchRowIsUnion(t.rows[i], input, stamp);
    Table(t.columns, t.rows[i := PatchRow(t.rows[i], input, stamp)])
  }

  /** Reconciliation followed by the cell writes at row `index`, starting
      from the table the save opened. */
  function Merge(base: Table, n: nat, index: nat, input: Input, stamp: string): (r: Table)
    requires WellFormed(base) && index < n
    ensures WellFormed(r) && HasAnnotationColumns(r)
  {
    var rec := Reconcile(base, n);
    PatchCells(rec, index, input, stamp);
    Patch(rec, index, input, stamp)
  }

  /** The whole save for row `index` of a source table, given the annotation
      file as found and the time stamp of the save. */
  function SaveResult(source: Table, file: FileState, index: nat, input: Input, stamp: string): (r: SaveOutcome)
    requires WellFormed(source) && FileWellFormed(file) && index < |source.rows|
    ensures r.Rejected? <==> input.reviewerName == "" || input.reviewerType == UnsetReviewerType
    ensures r.Failed? <==> HasIdentity(input) && file.Unreadable?
    ensures r.Saved? ==> WellFormed(r.table) && HasAnnotationColumns(r.table)
  {
    if !HasIdentity(input) then Rejected
    else if file.Unreadable? then Failed
    else Saved(Merge(Base(source, file), |source.rows|, index, input, stamp))
  }

  /** Opens the data frame the save works on: the annotation file's table,
      or a copy of the source with the six annotation columns set to blank. */
  method OpenFrame(source: Table, file: FileState) returns (frame: Frame)
    requires WellFormed(source) && FileWellFormed(file) && !file.Unreadable?
    ensures fresh(frame) && frame.Value() == Base(source, file)
  {
    if file.Present? {
      frame := new Frame.Copy(file.table);
    } else {
      ghost var cs := AnnotationColumns;
      frame := new Frame.Copy(source);
      assert frame.Value() == BlankColumns(source, cs[..0]);
      frame.SetBlankColumn(RatingCol);
      assert cs[..1][..0] == cs[..0];
      assert frame.Value() == BlankColumns(source, cs[..1]);
      frame.SetBlankColumn(RatingValueCol);
      assert cs[..2][..1] == cs[..1];
      assert frame.Value() == BlankColumns(source, cs[..2]);
      frame.SetBlankColumn(RemarksCol);
      assert cs[..3][..2] == cs[..2];
      assert frame.Value() == BlankColumns(source, cs[..3]);
      frame.SetBlankColumn(ReviewerCol);
      assert cs[..4][..3] == cs[..3];
      assert frame.Value() == BlankColumns(source, cs[..4]);
      frame.SetBlankColumn(ReviewerTypeCol);
      assert cs[..5][..4] == cs[..4];
      assert frame.Value() == BlankColumns(source, cs[..5]);
      frame.SetBlankColumn(ReviewDateCol);
      assert cs[..6][..5] == cs[..5];
      assert cs[..6] == cs;
    }
  }

  /** Adds every annotation column the frame lacks, then pads it with blank
      rows up to `n` rows. */
  method ReconcileFrame(frame: Frame, n: nat)
    requires WellFormed(frame.Value())
    modifies frame
    ensures frame.Value() == Reconcile(old(frame.Value()), n)
  {
    ghost var base := frame.Value();
    for k := 0 to |AnnotationColumns|
      invariant WellFormed(frame.Value())
      invariant frame.Value() == AddMissingColumns(base, AnnotationColumns[..k])
    {
      assert AnnotationColumns[..k + 1][..k] == AnnotationColumns[..k];
      if AnnotationColumns[k] !in frame.columns {
        frame.SetBlankColumn(AnnotationColumns[k]);
      }
    }
    assert AnnotationColumns[..|AnnotationColumns|] == AnnotationColumns;
    if |frame.rows| < n {
      frame.AppendBlankRows(n - |frame.rows|);
    }
  }

  /** Writes the reviewer's cells at row `i` of the frame, one cell write
      after the other. */
  method PatchFrame(frame: Frame, i: nat, input: Input, stamp: string)
    requires WellFormed(frame.Value()) && HasAnnotationColumns(frame.Value()) && i < |frame.rows|
    modifies frame
    ensures frame.Value() == Patch(old(frame.Value()), i, input, stamp)
  {
    ghost var t0 := frame.Value();
    AnnotationColumnsDistinct();
    var hasRating := CheckText(input.rating);
    var hasRemark := CheckText(input.remark);
    if hasRating {
      frame.SetAt(i, RatingCol, input.rating.value);
      frame.SetAt(i, RatingValueCol, RatingValue(input.rating.value));
    }
    ghost var rated := frame.rows[i];
    assert frame.columns == t0.columns && frame.rows == t0.rows[i := rated];
    if hasRemark {
      frame.SetAt(i, RemarksCol, input.remark.value);
    }
    ghost var remarked := frame.rows[i];
    assert frame.columns == t0.columns && frame.rows == t0.rows[i := remarked];
    frame.SetAt(i, ReviewerCol, input.reviewerName);
    frame.SetAt(i, ReviewerTypeCol, input.reviewerType);
    frame.SetAt(i, ReviewDateCol, stamp);
    assert frame.rows[i] == PatchRow(t0.rows[i], input, stamp);
  }

  /** The save as the page runs it: it changes a data frame in place, column
      by column and cell by cell, and returns what it writes to the file. */
  method SaveTable(source: Table, file: FileState, index: nat, input: Input, stamp: string)
    returns (out: SaveOutcome)
    requires WellFormed(source) && FileWellFormed(file) && index < |source.rows|
    ensures out == SaveResult(source, file, index, input, stamp)
  {
    if input.reviewerName == "" || input.reviewerType == UnsetReviewerType {
      return Rejected;
    }
    if file.Unreadable? {
      return Failed;
    }
    var frame := OpenFrame(source, file);
    ReconcileFrame(frame, |source.rows|);
    PatchFrame(frame, index, input, stamp);
    return Saved(frame.Value());
  }

  /** Reconciliation keeps the base table's columns in front, in order, adds
      only annotation columns, keeps every cell the base had, and is blank
      wherever the base had no cell. */
  lemma ReconcileCells(base: Table, n: nat)
    requires WellFormed(base)
    ensures var r := Reconcile(base, n);
      && |base.columns| <= |r.columns| && r.columns[..|base.columns|] == base.columns
      && (forall c :: c in r.columns <==> c in base.columns || c in AnnotationColumns)
      && (forall i, c :: 0 <= i < |r.rows| && c in r.columns ==> r.rows[i][c] == CellOrBlank(base, i, c))
  {
    var m := AddMissingColumns(base, AnnotationColumns);
    var r := Reconcile(base, n);
    forall i, c | 0 <= i < |r.rows| && c in r.columns
      ensures r.rows[i][c] == CellOrBlank(base, i, c)
    {
      if i < |m.rows| {
        assert r.rows[i] == m.rows[i];
      } else {
        assert r.rows[i] == BlankRow(m.columns);
      }
    }
  }

  /** The patch changes no column and no row other than `i`, and row `i`
      differs from before exactly in the cells of `Written`. */
  lemma PatchCells(t: Table, i: nat, input: Input, stamp: string)
    requires WellFormed(t) && HasAnnotationColumns(t) && i < |t.rows|
    ensures var r := Patch(t, i, input, stamp);
      && r.columns == t.columns && |r.rows| == |t.rows|
      && (forall j :: 0 <= j < |r.rows| && j != i ==> r.rows[j] == t.rows[j])
      && (forall c :: c in t.columns ==>
            r.rows[i][c] == if c in Written(input, stamp) then Written(input, stamp)[c] else t.rows[i][c])
  {
    PatchRowIsUnion(t.rows[i], input, stamp);
  }

  /** Every cell of a merged table: the written cells at the saved row, and
      elsewhere what the base table held, or blank where it held nothing.
      Columns: the base's in front and in order, then the missing annotation
      columns, and no other. */
  lemma MergeCells(base: Table, n: nat, index: nat, input: Input, stamp: string)
    requires WellFormed(base) && index < n
    ensures var r := Merge(base, n, index, input, stamp);
      var w := Written(input, stamp);
      && |r.rows| == (if |base.rows| < n then n else |base.rows|)
      && |base.columns| <= |r.columns| && r.columns[..|base.columns|] == base.columns
      && (forall c :: c in r.columns <==> c in base.columns || c in AnnotationColumns)
      && (forall i, c :: 0 <= i < |r.rows| && c in r.columns ==>
            r.rows[i][c] == if i == index && c in w then w[c] else CellOrBlank(base, i, c))
  {
    ReconcileCells(base, n);
    PatchCells(Reconcile(base, n), index, input, stamp);
  }

  /** The shape of a merged table: its row count and its columns. */
  lemma MergeShape(base: Table, n: nat, index: nat, input: Input, stamp: string)
    requires WellFormed(base) && index < n
    ensures var r := Merge(base, n, index, input, stamp);
      && |r.rows| == (if |base.rows| < n then n else |base.rows|)
      && (forall c :: c in r.columns <==> c in base.columns || c in AnnotationColumns)
  {
    MergeCells(base, n, index, input, stamp);
  }

  /** One cell of a merged table. */
  lemma MergeCellAt(base: Table, n: nat, index: nat, input: Input, stamp: string, i: nat, c: string)
    requires WellFormed(base) && index < n
    requires i < |Merge(base, n, index, input, stamp).rows| && c in Merge(base, n, index, input, stamp).columns
    ensures Merge(base, n, index, input, stamp).rows[i][c] ==
      if i == index && c in Written(input, stamp) then Written(input, stamp)[c] else CellOrBlank(base, i, c)
  {
    var rec := Reconcile(base, n);
    var r := Patch(rec, index, input, stamp);
    assert Merge(base, n, index, input, stamp) == r;
    ReconcileCells(base, n);
    PatchCells(rec, index, input, stamp);
    assert rec.rows[i][c] == CellOrBlank(base, i, c);
  }

  /** A merged table keeps every row the base had apart from row `index`, with
      the added columns blank, and every padded row is blank. */
  lemma MergeOtherRows(base: Table, n: nat, index: nat, input: Input, stamp: string)
    requires WellFormed(base) && index < n
    ensures var r := Merge(base, n, index, input, stamp);
      && (forall i, c :: 0 <= i < |base.rows| && i != index && c in base.columns ==> r.rows[i][c] == base.rows[i][c])
      && (forall i, c :: 0 <= i < |r.rows| && i != index && c in r.columns && c !in base.columns ==> r.rows[i][c] == "")
      && (forall i, c :: |base.rows| <= i < |r.rows| && i != index && c in r.columns ==> r.rows[i][c] == "")
  {
    var r := Merge(base, n, index, input, stamp);
    MergeShape(base, n, index, input, stamp);
    forall i, c | 0 <= i < |base.rows| && i != index && c in base.columns
      ensures r.rows[i][c] == base.rows[i][c]
    {
      MergeCellAt(base, n, index, input, stamp, i, c);
    }
    forall i, c | 0 <= i < |r.rows| && i != index && c in r.columns && c !in base.columns
      ensures r.rows[i][c] == ""
    {
      MergeCellAt(base, n, index, input, stamp, i, c);
    }
    forall i, c | |base.rows| <= i < |r.rows| && i != index && c in r.columns
      ensures r.rows[i][c] == ""
    {
      MergeCellAt(base, n, index, input, stamp, i, c);
    }
  }

  /** A non-blank rating stands at the saved row with its numeric value; a
      blank or absent rating leaves both cells as the base had them. */
  lemma MergeRating(base: Table, n: nat, index: nat, input: Input, stamp: string)
    requires WellFormed(base) && index < n
    ensures var r := Merge(base, n, index, input, stamp);
      && index < |r.rows|
      && (HasText(input.rating) ==>
            Get(r, index, RatingCol) == input.rating.value
            && Get(r, index, RatingValueCol) == RatingValue(input.rating.value))
      && (!HasText(input.rating) ==>
            Get(r, index, RatingCol) == CellOrBlank(base, index, RatingCol)
            && Get(r, index, RatingValueCol) == CellOrBlank(base, index, RatingValueCol))
  {
    MergeShape(base, n, index, input, stamp);
    WrittenCells(input, stamp);
    MergeCellAt(base, n, index, input, stamp, index, RatingCol);
    MergeCellAt(base, n, index, input, stamp, index, RatingValueCol);
  }

  /** A non-blank remark stands at the saved row; a blank or absent remark
      leaves the remark the base had there. */
  lemma MergeRemark(base: Table, n: nat, index: nat, input: Input, stamp: string)
    requires WellFormed(base) && index < n
    ensures var r := Merge(base, n, index, input, stamp);
      && index < |r.rows|
      && (HasText(input.remark) ==> Get(r, index, RemarksCol) == input.remark.value)
      && (!HasText(input.remark) ==> Get(r, index, RemarksCol) == CellOrBlank(base, index, RemarksCol))
  {
    MergeShape(base, n, index, input, stamp);
    WrittenCells(input, stamp);
    MergeCellAt(base, n, index, input, stamp, index, RemarksCol);
  }

  /** The reviewer, the reviewer type and the date are stamped at the saved
      row, whether or not a rating or remark was given. */
  lemma MergeStamp(base: Table, n: nat, index: nat, input: Input, stamp: string)
    requires WellFormed(base) && index < n
    ensures var r := Merge(base, n, index, input, stamp);
      && index < |r.rows|
      && Get(r, index, ReviewerCol) == input.reviewerName
      && Get(r, index, ReviewerTypeCol) == input.reviewerType
      && Get(r, index, ReviewDateCol) == stamp
  {
    MergeShape(base, n, index, input, stamp);
    WrittenCells(input, stamp);
    MergeCellAt(base, n, index, input, stamp, index, ReviewerCol);
    MergeCellAt(base, n, index, input, stamp, index, ReviewerTypeCol);
    MergeCellAt(base, n, index, input, stamp, index, ReviewDateCol);
  }

  /** The table written has `max(rows found, source rows)` rows: it is never
      truncated, and a new file has exactly the source's rows. */
  lemma SavedRowCount(source: Table, file: FileState, index: nat, input: Input, stamp: string)
    requires WellFormed(source) && FileWellFormed(file) && index < |source.rows|
    requires SaveResult(source, file, index, input, stamp).Saved?
    ensures var r := SaveResult(source, file, index, input, stamp).table;
      && |r.rows| >= |source.rows|
      && (file.Present? ==> |r.rows| == if |file.table.rows| < |source.rows| then |source.rows| else |file.table.rows|)
      && (file.Missing? ==> |r.rows| == |source.rows|)
  {
    MergeShape(Base(source, file), |source.rows|, index, input, stamp);
    if file.Missing? {
      CloneCells(source);
    }
  }

  /** Building a new file keeps every source column that is not an annotation
      column, with its cells, and starts every annotation column blank. */
  lemma CloneCells(source: Table)
    requires WellFormed(source)
    ensures var r := CloneWithAnnotations(source);
      && |r.rows| == |source.rows|
      && |source.columns| <= |r.columns| && r.columns[..|source.columns|] == source.columns
      && (forall c :: c in r.columns <==> c in source.columns || c in AnnotationColumns)
      && (forall i, c :: 0 <= i < |r.rows| && c in r.columns ==>
            r.rows[i][c] == if c in AnnotationColumns then "" else source.rows[i][c])
  {
    var r := CloneWithAnnotations(source);
    BlankColumnsShape(source, AnnotationColumns);
    forall i, c | 0 <= i < |r.rows| && c in r.columns
      ensures r.rows[i][c] == if c in AnnotationColumns then "" else source.rows[i][c]
    {
      BlankColumnsCellAt(source, AnnotationColumns, i, c);
    }
  }


  /** In a table just created from the source every annotation cell is
      blank. */
  lemma CloneBlankAt(source: Table, i: nat, c: string)
    requires WellFormed(source) && c in AnnotationColumns
    requires i < |CloneWithAnnotations(source).rows|
    ensures Get(CloneWithAnnotations(source), i, c) == ""
  {
    CloneCells(source);
  }

  /** Adding columns that are all there already changes nothing. */
  lemma {:induction false} AddMissingColumnsPresent(t: Table, cs: seq<string>)
    requires WellFormed(t)
    requires forall c :: c in cs ==> c in t.columns
    ensures AddMissingColumns(t, cs) == t
    decreases |cs|
  {
    if cs != [] {
      AddMissingColumnsPresent(t, cs[..|cs| - 1]);
    }
  }

  /** A table that already has every annotation column and at least `n` rows
      is reconciled to itself. */
  lemma ReconcileSettled(t: Table, n: nat)
    requires WellFormed(t) && HasAnnotationColumns(t) && n <= |t.rows|
    ensures Reconcile(t, n) == t
  {
    AddMissingColumnsPresent(t, AnnotationColumns);
  }

  /** Writing the same cells twice is writing them once. */
  lemma PatchTwice(t: Table, i: nat, input: Input, stamp: string)
    requires WellFormed(t) && HasAnnotationColumns(t) && i < |t.rows|
    ensures Patch(Patch(t, i, input, stamp), i, input, stamp) == Patch(t, i, input, stamp)
  {
    var w := Written(input, stamp);
    var once := Patch(t, i, input, stamp);
    PatchRowIsUnion(t.rows[i], input, stamp);
    PatchRowIsUnion(once.rows[i], input, stamp);
    UnionAssoc(t.rows[i], w, w);
    assert w + w == w;
  }

  /** Saving the same input again over the table just written writes the
      same table. */
  lemma SaveIdempotent(source: Table, file: FileState, index: nat, input: Input, stamp: string)
    requires WellFormed(source) && FileWellFormed(file) && index < |source.rows|
    requires SaveResult(source, file, index, input, stamp).Saved?
    ensures var r := SaveResult(source, file, index, input, stamp).table;
      SaveResult(source, Present(r), index, input, stamp) == Saved(r)
  {
    var n := |source.rows|;
    var rec := Reconcile(Base(source, file), n);
    var r := Patch(rec, index, input, stamp);
    PatchCells(rec, index, input, stamp);
    ReconcileSettled(r, n);
    PatchTwice(rec, index, input, stamp);
    PatchCells(r, index, input, stamp);
  }
}
