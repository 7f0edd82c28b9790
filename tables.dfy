/** The data frame the review page reads from and writes to a CSV file: a
    list of column names and a list of rows, each row mapping every column
    name to its cell text. The empty string stands for a missing value
    (pandas NaN), which is also what an empty CSV cell reads back as. */
module Tables {

  type Row = map<string, string>

  datatype Table = Table(columns: seq<string>, rows: seq<Row>)

  function ColumnSet(cols: seq<string>): set<string> {
    set c | c in cols
  }

  /** A CSV file as a read finds it: absent, present but not parseable, or
      parsed into a table. */
  datatype FileState = Missing | Unreadable | Present(table: Table)

  predicate FileWellFormed(f: FileState) {
    f.Present? ==> WellFormed(f.table)
  }

  /** Column names are distinct and every row has exactly one cell per column. */
  predicate WellFormed(t: Table) {
    && (forall i, j :: 0 <= i < j < |t.columns| ==> t.columns[i] != t.columns[j])
    && (forall i :: 0 <= i < |t.rows| ==> t.rows[i].Keys == ColumnSet(t.columns))
  }

  /** The cell at row `i`, column `c`, or "" when the column does not exist. */
  function Get(t: Table, i: nat, c: string): string
    requires WellFormed(t) && i < |t.rows|
  {
    if c in t.columns then t.rows[i][c] else ""
  }

  /** The cell a table holds at row `i`, column `c`, counting rows past its
      end as blank: what an extended table must show there. */
  function CellOrBlank(t: Table, i: nat, c: string): string
    requires WellFormed(t)
  {
    if i < |t.rows| then Get(t, i, c) else ""
  }

  /** A row that is blank in every column of `cols`. */
  function BlankRow(cols: seq<string>): (r: Row)
    ensures r.Keys == ColumnSet(cols)
    ensures forall c :: c in r ==> r[c] == ""
  {
    map c | c in ColumnSet(cols) :: ""
  }

  /** Sets every cell of column `c` to blank, appending the
      column at the end when it does not exist yet. */
  function BlankColumn(t: Table, c: string): (r: Table)
    requires WellFormed(t)
    ensures WellFormed(r)
  {
    var cols := if c in t.columns then t.columns else t.columns + [c];
    assert ColumnSet(cols) == ColumnSet(t.columns) + {c};
    Table(cols, seq(|t.rows|, i requires 0 <= i < |t.rows| => t.rows[i][c := ""]))
  }

  /** Blanking a column keeps the rows, keeps the columns in front and in
      order, adds at most that column, and changes no other cell. */
  lemma BlankColumnCells(t: Table, c: string)
    requires WellFormed(t)
    ensures var r := BlankColumn(t, c);
      && |r.rows| == |t.rows|
      && |t.columns| <= |r.columns| && r.columns[..|t.columns|] == t.columns
      && (forall x :: x in r.columns <==> x in t.columns || x == c)
      && (forall i, x :: 0 <= i < |r.rows| && x in r.columns ==>
            r.rows[i][x] == if x == c then "" else t.rows[i][x])
  {
  }

  /** Blanks, in order, every column of `cs`, appending those that are missing. */
  function BlankColumns(t: Table, cs: seq<string>): (r: Table)
    requires WellFormed(t)
    ensures WellFormed(r)
    decreases |cs|
  {
    if cs == [] then t else BlankColumn(BlankColumns(t, cs[..|cs| - 1]), cs[|cs| - 1])
  }

  /** Blanking several columns keeps the rows, keeps the columns in front and
      in order, and adds only blanked columns. */
  lemma {:induction false} BlankColumnsShape(t: Table, cs: seq<string>)
    requires WellFormed(t)
    ensures var r := BlankColumns(t, cs);
      && |r.rows| == |t.rows|
      && |t.columns| <= |r.columns| && r.columns[..|t.columns|] == t.columns
      && (forall x :: x in r.columns <==> x in t.columns || x in cs)
    decreases |cs|
  {
    if cs != [] {
      var init, last := cs[..|cs| - 1], cs[|cs| - 1];
      var p := BlankColumns(t, init);
      BlankColumnsShape(t, init);
      BlankColumnCells(p, last);
      var r := BlankColumn(p, last);
      assert forall x :: x in cs <==> x in init || x == last by {
        assert cs == init + [last];
      }
      assert r.columns[..|t.columns|] == t.columns by {
        assert r.columns[..|t.columns|] == r.columns[..|p.columns|][..|t.columns|];
      }
    }
  }

  /** Blanking several columns blanks their cells and changes no other cell. */
  lemma {:induction false} BlankColumnsCellAt(t: Table, cs: seq<string>, i: nat, x: string)
    requires WellFormed(t) && i < |t.rows| && (x in t.columns || x in cs)
    ensures |BlankColumns(t, cs).rows| == |t.rows| && x in BlankColumns(t, cs).columns
    ensures BlankColumns(t, cs).rows[i][x] == if x in cs then "" else t.rows[i][x]
    decreases |cs|
  {
    BlankColumnsShape(t, cs);
    if cs != [] {
      var init, last := cs[..|cs| - 1], cs[|cs| - 1];
      var p := BlankColumns(t, init);
      assert forall y :: y in cs <==> y in init || y == last by {
        assert cs == init + [last];
      }
      BlankColumnsShape(t, init);
      BlankColumnCells(p, last);
      if x != last {
        BlankColumnsCellAt(t, init, i, x);
      }
    }
  }

  /** Adds column `c`, blank in every row, unless it exists already. */
  function AddMissing(t: Table, c: string): (r: Table)
    requires WellFormed(t)
    ensures WellFormed(r)
  {
    if c in t.columns then t else BlankColumn(t, c)
  }

  /** Adds, in order, every column of `cs` that is not already there. Existing
      columns keep their place and their cells; every added column is blank. */
  function AddMissingColumns(t: Table, cs: seq<string>): (r: Table)
    requires WellFormed(t)
    ensures WellFormed(r)
    ensures |r.rows| == |t.rows|
    ensures |t.columns| <= |r.columns| && r.columns[..|t.columns|] == t.columns
    ensures forall c :: c in r.columns <==> c in t.columns || c in cs
    ensures forall i, c :: 0 <= i < |r.rows| && c in r.columns ==> r.rows[i][c] == Get(t, i, c)
    decreases |cs|
  {
    if cs == [] then t
    else
      var prev := AddMissingColumns(t, cs[..|cs| - 1]);
      var last := cs[|cs| - 1];
      assert forall c :: c in cs <==> c in cs[..|cs| - 1] || c == last by {
        assert cs == cs[..|cs| - 1] + [last];
      }
      AddMissing(prev, last)
  }

  /** Appends `k` rows that are blank in every column. */
  function Extend(t: Table, k: nat): (r: Table)
    requires WellFormed(t)
    ensures WellFormed(r)
  {
    Table(t.columns, t.rows + seq(k, _ => BlankRow(t.columns)))
  }

  /** Appends all-blank rows until the table has `n` rows; never removes one. */
  function Pad(t: Table, n: nat): (r: Table)
    requires WellFormed(t)
    ensures WellFormed(r) && r.columns == t.columns
    ensures |r.rows| == if |t.rows| < n then n else |t.rows|
    ensures r.rows[..|t.rows|] == t.rows
    ensures forall i, c :: |t.rows| <= i < |r.rows| && c in r.columns ==> r.rows[i][c] == ""
  {
    if |t.rows| < n then Extend(t, n - |t.rows|) else t
  }

  /** Sets the cell at an existing row and column. */
  function Put(t: Table, i: nat, c: string, v: string): (r: Table)
    requires i < |t.rows| && c in t.columns
  {
    Table(t.columns, t.rows[i := t.rows[i][c := v]])
  }

  /** Writing cells one after the other is taking the union with a map of
      the written cells (a later write to the same column wins in both). */
  lemma UpdateIsUnion1(m: Row, a: string, x: string)
    ensures m[a := x] == m + map[a := x]
  {
  }

  lemma UpdateIsUnion2(m: Row, a: string, x: string, b: string, y: string)
    ensures m[a := x][b := y] == m + map[a := x, b := y]
  {
  }

  lemma UpdateIsUnion3(m: Row, a: string, x: string, b: string, y: string, c: string, z: string)
    ensures m[a := x][b := y][c := z] == m + map[a := x, b := y, c := z]
  {
  }

  lemma UnionAssoc(m1: Row, m2: Row, m3: Row)
    ensures (m1 + m2) + m3 == m1 + (m2 + m3)
  {
  }

  /** A data frame that the code changes in place. */
  class Frame {
    var columns: seq<string>
    var rows: seq<Row>

    function Value(): Table
      reads this
    {
      Table(columns, rows)
    }

    /** A frame holding a copy of `t`. */
    constructor Copy(t: Table)
      ensures Value() == t
    {
      columns := t.columns;
      rows := t.rows;
    }

    /** Blanks column `c`, adding it when missing. */
    method SetBlankColumn(c: string)
      requires WellFormed(Value())
      modifies this
      ensures Value() == BlankColumn(old(Value()), c)
    {
      rows := seq(|rows|, i requires 0 <= i < |rows| reads this => rows[i][c := ""]);
      if c !in columns {
        columns := columns + [c];
      }
    }

    /** Appends `k` all-blank rows. */
    method AppendBlankRows(k: nat)
      requires WellFormed(Value())
      modifies this
      ensures Value() == Extend(old(Value()), k)
    {
      var blank := BlankRow(columns);
      rows := rows + seq(k, _ => blank);
    }

    /** Writes `v` at row `i`, column `c`. */
    method SetAt(i: nat, c: string, v: string)
      requires i < |rows| && c in columns
      modifies this
      ensures Value() == Put(old(Value()), i, c, v)
    {
      rows := rows[i := rows[i][c := v]];
    }
  }
}
