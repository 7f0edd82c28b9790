/** The page's session state and how it moves: the current question, the two
    widget counters whose change gives the rating radio and the remark box
    fresh keys, and the table of the last successful save, which the summary
    prefers over the table loaded at start. */
module Navigation {
  import opened Wrappers
  import opened Tables
  import opened Review
  import opened Stats

  /** `j` clamped into the question range: below 0 to 0, past the end to the
      last question. */
  function Clamp(j: int, n: nat): (r: int)
    ensures n >= 1 ==> 0 <= r < n
    ensures n >= 1 && 0 <= j < n ==> r == j
    ensures j < 0 ==> r == 0
    ensures n >= 1 && j >= n ==> r == n - 1
    ensures n == 0 ==> r == 0
  {
    var upper := if n - 1 < j then n - 1 else j;
    if upper < 0 then 0 else upper
  }

  /** The repair of an out-of-range index made before the row is shown:
      a negative index becomes 0, then one at or past the end becomes the
      last question (or -1 when there is none). */
  function RepairedIndex(i: int, n: nat): (r: int)
    ensures n >= 1 ==> 0 <= r < n
    ensures n >= 1 && 0 <= i < n ==> r == i
    ensures n == 0 ==> r == -1
  {
    var j := if i < 0 then 0 else i;
    if j >= n then n - 1 else j
  }

  /** With at least one question the repair is the same clamp navigation
      applies. */
  lemma RepairIsClamp(i: int, n: nat)
    requires n >= 1
    ensures RepairedIndex(i, n) == Clamp(i, n)
  {
  }

  class Session {
    var index: int
    var remarkCounter: nat
    var ratingCounter: nat
    /** The table of the last successful save in this session, if any. */
    var lastSaved: Option<Table>

    /** A fresh session: first question, counters at 0, nothing saved. */
    constructor ()
      ensures index == 0 && remarkCounter == 0 && ratingCounter == 0 && lastSaved == None
    {
      index := 0;
      remarkCounter := 0;
      ratingCounter := 0;
      lastSaved := None;
    }

    /** The index designates a question of a source with `n` rows. */
    predicate Valid(n: nat)
      reads this
    {
      0 <= index < n
    }

    /** The save of the current question with the values the widgets hold:
        reports success, returns the file as it is afterwards, and remembers
        the table written. A rejected or failed save changes nothing. */
    method Save(source: Table, file: FileState, input: Input, stamp: string)
      returns (ok: bool, written: FileState)
      requires WellFormed(source) && FileWellFormed(file) && Valid(|source.rows|)
      modifies this
      ensures var out := SaveResult(source, file, old(index), input, stamp);
        && ok == out.Saved?
        && written == (if out.Saved? then Present(out.table) else file)
        && lastSaved == (if out.Saved? then Some(out.table) else old(lastSaved))
      ensures index == old(index) && remarkCounter == old(remarkCounter) && ratingCounter == old(ratingCounter)
      ensures FileWellFormed(written)
      ensures var out := SaveResult(source, file, old(index), input, stamp);
        forall loaded: Option<Table> :: StatsTable(lastSaved, loaded) ==
          if out.Saved? then Some(out.table) else StatsTable(old(lastSaved), loaded)
    {
      var out := SaveTable(source, file, index, input, stamp);
      if out.Saved? {
        ok := true;
        written := Present(out.table);
        lastSaved := Some(out.table);
      } else {
        ok := false;
        written := file;
      }
    }

    /** Moving to question `j`: save first, whatever comes of it, then go to
        `j` clamped into range and renew both widget keys. */
    method NavigateTo(j: int, source: Table, file: FileState, input: Input, stamp: string)
      returns (written: FileState)
      requires WellFormed(source) && FileWellFormed(file) && Valid(|source.rows|)
      modifies this
      ensures var out := SaveResult(source, file, old(index), input, stamp);
        && written == (if out.Saved? then Present(out.table) else file)
        && lastSaved == (if out.Saved? then Some(out.table) else old(lastSaved))
      ensures var out := SaveResult(source, file, old(index), input, stamp);
        forall loaded: Option<Table> :: StatsTable(lastSaved, loaded) ==
          if out.Saved? then Some(out.table) else StatsTable(old(lastSaved), loaded)
      ensures index == Clamp(j, |source.rows|) && Valid(|source.rows|)
      ensures remarkCounter == old(remarkCounter) + 1 && ratingCounter == old(ratingCounter) + 1
    {
      var _, w := Save(source, file, input, stamp);
      written := w;
      index := Clamp(j, |source.rows|);
      remarkCounter := remarkCounter + 1;
      ratingCounter := ratingCounter + 1;
    }

    /** The bounds repair run before the current row is shown. */
    method RepairIndex(n: nat)
      modifies this
      ensures index == RepairedIndex(old(index), n)
      ensures n >= 1 ==> Valid(n)
      ensures remarkCounter == old(remarkCounter) && ratingCounter == old(ratingCounter)
      ensures lastSaved == old(lastSaved)
    {
      if index < 0 {
        index := 0;
      }
      if index >= n {
        index := n - 1;
      }
    }
  }
}
