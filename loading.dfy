/** Loading the two CSV files: reading the source table, which
    must have the question, answer and gold-answer columns, and the saved
    annotation table, whose absence or damage is not an error. */
module Loading {
  import opened Wrappers
  import opened Tables

  const RequiredColumns: seq<string> := ["Question", "Answer", "Gold Answer"]

  /** The required columns that `cols` lacks, in their required order. */
  function MissingFrom(required: seq<string>, cols: seq<string>): (r: seq<string>)
    ensures forall c :: c in r <==> c in required && c !in cols
    ensures |r| <= |required|
  {
    if required == [] then []
    else
      var rest := MissingFrom(required[1..], cols);
      assert forall c :: c in required <==> c == required[0] || c in required[1..] by {
        assert required == [required[0]] + required[1..];
      }
      if required[0] in cols then rest else [required[0]] + rest
  }

  /** The fatal errors of loading the source table. */
  datatype LoadError = NotFound | Unparsable | MissingColumns(names: seq<string>)

  /** Loading the source file: the parsed source table when it has every required column;
      otherwise the error, naming the missing columns in their required order. */
  function LoadData(file: FileState): (r: Result<Table, LoadError>)
    ensures file.Missing? <==> r == Err(NotFound)
    ensures file.Unreadable? <==> r == Err(Unparsable)
    ensures r.Ok? <==> file.Present? && forall c :: c in RequiredColumns ==> c in file.table.columns
    ensures r.Ok? ==> r.value == file.table
    ensures r.Err? && r.error.MissingColumns? ==>
      r.error.names != [] &&
      forall c :: c in r.error.names <==> c in RequiredColumns && c !in file.table.columns
  {
    match file
    case Missing => Err(NotFound)
    case Unreadable => Err(Unparsable)
    case Present(t) =>
      var missing := MissingFrom(RequiredColumns, t.columns);
      assert missing != [] ==> missing[0] in missing;
      if missing != [] then Err(MissingColumns(missing)) else Ok(t)
  }

  /** Loading the annotation file: the saved table, or nothing when the file is
      absent or cannot be parsed. */
  function LoadExistingReviews(file: FileState): (r: Option<Table>)
    ensures r.Some? <==> file.Present?
    ensures r.Some? ==> r.value == file.table
  {
    if file.Present? then Some(file.table) else None
  }
}
