/**
 * The row-level cleaning steps of src/app.py lines 36-40: dropping rows with
 * missing key values, dropping footnote rows, coercing the stream counts,
 * dropping duplicate rows, renumbering, and stamping the capture date.
 */
module Cleaning {
  import opened Wrappers
  import opened Text
  import opened Sequences
  import opened Frames

  /** The columns `dropna` checks (src/app.py line 36). */
  const KeyColumns: seq<string> := ["title", "artist", "streams_billions"]

  /** The column the capture date is written to (src/app.py line 40). */
  const DateColumn: string := "scraping_date"

  /** `columns` once the date column is set: appended when it is not there yet. */
  function WithDateColumn(columns: seq<string>): seq<string>
  {
    if DateColumn in columns then columns else columns + [DateColumn]
  }

  // ---------------------------------------------------------------- dropna

  /** `row` has a value in every column whose name is listed in `subset`. */
  predicate HasValues(columns: seq<string>, subset: seq<string>, row: Row)
  {
    forall p | 0 <= p < |columns| && columns[p] in subset :: p < |row.cells| && row.cells[p] != Missing
  }

  /**
   * The names of `subset` that are not column names, each as often as it is
   * listed, in the order of `subset`.
   */
  function AbsentNames(columns: seq<string>, subset: seq<string>): (r: seq<string>)
    ensures forall n :: n in r <==> n in subset && n !in columns
    ensures forall n :: n !in columns ==> multiset(r)[n] == multiset(subset)[n]
    ensures IsSubsequence(r, subset)
  {
    var r := Filter(subset, n => n !in columns);
    assert forall n :: n in subset && n !in columns ==> multiset(r)[n] > 0;
    r
  }

  /**
   * `df.dropna(subset=subset)`: fails naming every absent column of `subset`;
   * otherwise keeps, in order and as often as they occur, exactly the rows
   * with a value in every column named in `subset`.
   */
  function DropNa(f: Frame, subset: seq<string>): (r: Result<Frame, Error>)
    requires WellFormed(f)
    ensures r.Failure? <==> exists n :: n in subset && n !in f.columns
    ensures r.Failure? ==> r.error == MissingColumns(AbsentNames(f.columns, subset))
    ensures r.Success? ==> r.value.columns == f.columns && WellFormed(r.value)
    ensures r.Success? ==> forall row :: row in r.value.rows ==> HasValues(f.columns, subset, row)
    ensures r.Success? ==> forall row :: HasValues(f.columns, subset, row) ==>
              multiset(r.value.rows)[row] == multiset(f.rows)[row]
    ensures r.Success? ==> IsSubsequence(r.value.rows, f.rows)
  {
    var absent := AbsentNames(f.columns, subset);
    if absent != [] then
      assert absent[0] in absent;
      Failure(MissingColumns(absent))
    else
      var rows := Filter(f.rows, row => HasValues(f.columns, subset, row));
      SubsequenceMembers(rows, f.rows);
      Success(Frame(f.columns, rows))
  }

  // ------------------------------------------------------- footnote filter

  /**
   * A title cell that `str.contains('As of', case=False, na=False)` flags:
   * only a string can be flagged, and a string containing "as of" always is.
   */
  predicate IsFootnote(c: Cell): (b: bool)
    ensures b ==> c.Text? && |c.s| >= 5
    ensures c.Text? && Contains(c.s, "as of") ==> b
  {
    c.Text? && ContainsIgnoringCase(c.s, "as of")
  }

  /**
   * "as of" in any letter case stands in `s` at position `i`, as `re.IGNORECASE`
   * reads it: `a` or `A`, then `s`, `S` or U+017F LATIN SMALL LETTER LONG S, a
   * space, `o` or `O`, and `f` or `F`.
   */
  predicate AsOfAt(s: string, i: nat)
  {
    && i + 5 <= |s|
    && (s[i] == 'a' || s[i] == 'A')
    && (s[i + 1] == 's' || s[i + 1] == 'S' || s[i + 1] == '\U{17F}')
    && s[i + 2] == ' '
    && (s[i + 3] == 'o' || s[i + 3] == 'O')
    && (s[i + 4] == 'f' || s[i + 4] == 'F')
  }

  /** The footnote filter flags exactly the strings in which "as of" stands in some letter case. */
  lemma FootnoteExactly(c: Cell)
    ensures IsFootnote(c) <==> c.Text? && exists i: nat :: AsOfAt(c.s, i)
  {
    if c.Text? {
      var s, w := c.s, "as of";
      if IsFootnote(c) {
        var i: nat :| i <= |s| && OccursIgnoringCaseAt(s, w, i);
        assert MatchesIgnoringCase(s[i], w[0]);
        assert MatchesIgnoringCase(s[i + 1], w[1]);
        assert MatchesIgnoringCase(s[i + 2], w[2]);
        assert MatchesIgnoringCase(s[i + 3], w[3]);
        assert MatchesIgnoringCase(s[i + 4], w[4]);
        assert AsOfAt(s, i);
      }
      if exists i: nat :: AsOfAt(s, i) {
        var i: nat :| AsOfAt(s, i);
        forall k | 0 <= k < |w|
          ensures MatchesIgnoringCase(s[i + k], w[k])
        {
          assert k == 0 || k == 1 || k == 2 || k == 3 || k == 4;
        }
        assert OccursIgnoringCaseAt(s, w, i);
      }
    }
  }

  /** The row is kept by the footnote filter on column `t`. */
  predicate NoFootnoteAt(t: nat, row: Row)
  {
    t < |row.cells| && !IsFootnote(row.cells[t])
  }

  /**
   * `df[~df['title'].str.contains('As of', case=False, na=False)]` with the
   * title in column `t`: keeps, in order and as often as they occur, exactly
   * the rows whose title does not contain "as of" in any letter case. A
   * missing title counts as not containing it.
   */
  function DropFootnotes(f: Frame, t: nat): (r: Frame)
    requires WellFormed(f) && t < |f.columns|
    ensures r.columns == f.columns && WellFormed(r)
    ensures forall row :: row in r.rows ==> NoFootnoteAt(t, row)
    ensures forall row :: row in f.rows && !IsFootnote(row.cells[t]) ==> multiset(r.rows)[row] == multiset(f.rows)[row]
    ensures IsSubsequence(r.rows, f.rows)
  {
    var rows := Filter(f.rows, row => NoFootnoteAt(t, row));
    SubsequenceMembers(rows, f.rows);
    Frame(f.columns, rows)
  }

  // --------------------------------------------------------------- coercion

  /** `str.replace(',', '')`: the string with every comma deleted and nothing else changed. */
  function StripCommas(s: string): (r: string)
    ensures ',' !in r
    ensures forall c :: c != ',' ==> multiset(r)[c] == multiset(s)[c]
    ensures IsSubsequence(r, s)
  {
    Filter(s, NotComma)
  }

  predicate NotComma(c: char)
  {
    c != ','
  }

  /**
   * One streams cell after `pd.to_numeric(col.str.replace(',', ''), errors='coerce')`.
   * A string is handed to `parse` with its commas removed; a string that does
   * not parse, a missing cell and any non-string cell become missing.
   */
  function CoerceCell(c: Cell, parse: string -> Option<real>): (r: Cell)
    ensures r.Number? || r.Missing?
    ensures r.Number? <==> c.Text? && parse(StripCommas(c.s)).Some?
    ensures r.Number? ==> r.x == parse(StripCommas(c.s)).value
  {
    match c
    case Text(s) =>
      (match parse(StripCommas(s))
       case Some(x) => Number(x)
       case None => Missing)
    case _ => Missing
  }

  /**
   * Replaces column `col` by its coerced values (src/app.py line 38): the
   * rows, their number, their labels and every other column stay as they were.
   */
  function Coerce(f: Frame, col: nat, parse: string -> Option<real>): (r: Frame)
    requires WellFormed(f) && col < |f.columns|
    ensures r.columns == f.columns && WellFormed(r) && |r.rows| == |f.rows|
    ensures forall i :: 0 <= i < |r.rows| ==>
              r.rows[i].index == f.rows[i].index && r.rows[i].cells[col] == CoerceCell(f.rows[i].cells[col], parse)
    ensures forall i, p :: 0 <= i < |r.rows| && 0 <= p < |f.columns| && p != col ==>
              r.rows[i].cells[p] == f.rows[i].cells[p]
  {
    var rows := seq(|f.rows|, i requires 0 <= i < |f.rows| =>
      assert f.rows[i] in f.rows;
      Row(f.rows[i].index, f.rows[i].cells[col := CoerceCell(f.rows[i].cells[col], parse)]));
    Frame(f.columns, rows)
  }

  // ---------------------------------------------------------- deduplication

  /** Position `i` of `s` holds the first row with these cells. */
  ghost predicate FirstOccurrence(s: seq<Row>, i: int)
  {
    0 <= i < |s| && forall j :: 0 <= j < i ==> s[j].cells != s[i].cells
  }

  /** No two rows have the same cells. */
  ghost predicate DistinctCells(s: seq<Row>)
  {
    forall i, j :: 0 <= i < j < |s| ==> s[i].cells != s[j].cells
  }

  /** `r` is the rows of `s` at positions `idx`, which are, in order, all and only the first occurrences in `s`. */
  ghost predicate FirstOccurrencesAt(r: seq<Row>, s: seq<Row>, idx: seq<nat>)
  {
    && SubsequenceAt(r, s, idx)
    && (forall k :: 0 <= k < |idx| ==> FirstOccurrence(s, idx[k]))
    && (forall i :: FirstOccurrence(s, i) ==> i in idx)
  }

  /** Some row before position `n` of `s` has the same cells as the row at `n`. */
  predicate SeenBefore(s: seq<Row>, n: nat)
    requires n < |s|
  {
    exists j | 0 <= j < n :: s[j].cells == s[n].cells
  }

  /**
   * `df.drop_duplicates()` (keep the first): the rows of `s` that are the
   * first with their cells, in their order in `s`. Labels play no part in
   * the comparison.
   */
  function DropDuplicates(s: seq<Row>): (r: seq<Row>)
    ensures exists idx :: FirstOccurrencesAt(r, s, idx)
  {
    if s == [] then
      assert FirstOccurrencesAt([], s, []);
      []
    else
      var init := s[..|s| - 1];
      var kept := DropDuplicates(init);
      var r := if SeenBefore(s, |s| - 1) then kept else kept + [s[|s| - 1]];
      DropDuplicatesStep(s, init, kept, r);
      r
  }

  /** One step of `DropDuplicates`: from the first occurrences of all but the last row to those of all rows. */
  lemma DropDuplicatesStep(s: seq<Row>, init: seq<Row>, kept: seq<Row>, r: seq<Row>)
    requires s != [] && init == s[..|s| - 1]
    requires exists idx :: FirstOccurrencesAt(kept, init, idx)
    requires r == if SeenBefore(s, |s| - 1) then kept else kept + [s[|s| - 1]]
    ensures exists idx :: FirstOccurrencesAt(r, s, idx)
  {
    var n := |s| - 1;
    var idx: seq<nat> :| FirstOccurrencesAt(kept, init, idx);
    FirstOccurrencesInInit(s, init);
    assert SubsequenceAt(kept, s, idx) by {
      forall k | 0 <= k < |idx|
        ensures idx[k] < n && kept[k] == s[idx[k]]
      {
      }
    }
    assert FirstOccurrence(s, n) <==> !SeenBefore(s, n);
    if SeenBefore(s, n) {
      StepSeen(s, kept, idx);
    } else {
      StepNew(s, kept, idx);
    }
  }

  /** Before the last position, the first occurrences of `s` are those of `s` without its last row. */
  lemma FirstOccurrencesInInit(s: seq<Row>, init: seq<Row>)
    requires s != [] && init == s[..|s| - 1]
    ensures forall i :: 0 <= i < |s| - 1 ==> (FirstOccurrence(init, i) <==> FirstOccurrence(s, i))
  {
    forall i | 0 <= i < |s| - 1
      ensures FirstOccurrence(init, i) <==> FirstOccurrence(s, i)
    {
      assert forall j :: 0 <= j <= i ==> init[j] == s[j];
    }
  }

  /** The last row repeats an earlier one: the first occurrences stay as they were. */
  lemma StepSeen(s: seq<Row>, kept: seq<Row>, idx: seq<nat>)
    requires s != [] && SubsequenceAt(kept, s, idx)
    requires forall k :: 0 <= k < |idx| ==> FirstOccurrence(s, idx[k])
    requires forall i :: 0 <= i < |s| - 1 && FirstOccurrence(s, i) ==> i in idx
    requires !FirstOccurrence(s, |s| - 1)
    ensures FirstOccurrencesAt(kept, s, idx)
  {
  }

  /** The last row is new: it joins the first occurrences. */
  lemma StepNew(s: seq<Row>, kept: seq<Row>, idx: seq<nat>)
    requires s != [] && SubsequenceAt(kept, s, idx)
    requires forall k :: 0 <= k < |idx| ==> idx[k] < |s| - 1 && FirstOccurrence(s, idx[k])
    requires forall i :: 0 <= i < |s| - 1 && FirstOccurrence(s, i) ==> i in idx
    requires FirstOccurrence(s, |s| - 1)
    ensures FirstOccurrencesAt(kept + [s[|s| - 1]], s, idx + [|s| - 1])
  {
    var n := |s| - 1;
    assert SubsequenceAt(kept + [s[n]], s, idx + [n]);
  }

  /** After deduplication no two rows are identical. */
  lemma DropDuplicatesDistinct(s: seq<Row>)
    ensures DistinctCells(DropDuplicates(s))
  {
    var r := DropDuplicates(s);
    var idx :| FirstOccurrencesAt(r, s, idx);
    forall i, j | 0 <= i < j < |r|
      ensures r[i].cells != r[j].cells
    {
      assert FirstOccurrence(s, idx[j]);
    }
  }

  /** The first position of `s` whose row has the cells of the row at `i`. */
  lemma {:induction false} FirstPosition(s: seq<Row>, i: nat) returns (first: nat)
    requires i < |s|
    ensures first <= i && FirstOccurrence(s, first) && s[first].cells == s[i].cells
    decreases i
  {
    if FirstOccurrence(s, i) {
      first := i;
    } else {
      var j :| 0 <= j < i && s[j].cells == s[i].cells;
      first := FirstPosition(s, j);
    }
  }

  /** Every input row is equal, cell for cell, to some row that deduplication keeps. */
  lemma DropDuplicatesCovers(s: seq<Row>)
    ensures forall x :: x in s ==> exists y :: y in DropDuplicates(s) && y.cells == x.cells
  {
    forall x | x in s
      ensures exists y :: y in DropDuplicates(s) && y.cells == x.cells
    {
      var i :| 0 <= i < |s| && s[i] == x;
      var k := DropDuplicatesKeeps(s, i);
      assert DropDuplicates(s)[k] in DropDuplicates(s);
    }
  }

  /** Row `i` of the input is equal, cell for cell, to row `k` of the deduplicated rows. */
  lemma DropDuplicatesKeeps(s: seq<Row>, i: nat) returns (k: nat)
    requires i < |s|
    ensures k < |DropDuplicates(s)| && DropDuplicates(s)[k].cells == s[i].cells
  {
    var r := DropDuplicates(s);
    var idx :| FirstOccurrencesAt(r, s, idx);
    var first := FirstPosition(s, i);
    k :| 0 <= k < |idx| && idx[k] == first;
  }

  /** Deduplication keeps an order-preserving subsequence of its input. */
  lemma DropDuplicatesIsSubsequence(s: seq<Row>)
    ensures IsSubsequence(DropDuplicates(s), s)
  {
    var idx :| FirstOccurrencesAt(DropDuplicates(s), s, idx);
  }

  // ------------------------------------------------------------- renumbering

  /** `reset_index(drop=True)`: the same rows, labelled 0 to N-1. */
  function ResetIndex(rows: seq<Row>): (r: seq<Row>)
    ensures |r| == |rows|
    ensures forall i :: 0 <= i < |r| ==> r[i].index == i && r[i].cells == rows[i].cells
  {
    seq(|rows|, i requires 0 <= i < |rows| => Row(i, rows[i].cells))
  }

  // --------------------------------------------------------------- date stamp

  /**
   * `df['scraping_date'] = today` (src/app.py line 40): every column named
   * `scraping_date` is overwritten with `today`, or one is appended when
   * there is none; labels, the number of rows and every other cell stay.
   */
  function Stamp(f: Frame, today: Date): (r: Frame)
    requires WellFormed(f)
    ensures WellFormed(r) && |r.rows| == |f.rows|
    ensures r.columns == WithDateColumn(f.columns)
    ensures forall i :: 0 <= i < |r.rows| ==> r.rows[i].index == f.rows[i].index
    ensures forall i, p :: 0 <= i < |r.rows| && 0 <= p < |r.columns| && r.columns[p] == DateColumn ==>
              r.rows[i].cells[p] == Day(today)
    ensures forall i, p :: 0 <= i < |r.rows| && 0 <= p < |f.columns| && f.columns[p] != DateColumn ==>
              r.rows[i].cells[p] == f.rows[i].cells[p]
  {
    if DateColumn in f.columns then
      var rows := seq(|f.rows|, i requires 0 <= i < |f.rows| =>
        assert f.rows[i] in f.rows;
        Row(f.rows[i].index, seq(|f.columns|, p requires 0 <= p < |f.columns| =>
          if f.columns[p] == DateColumn then Day(today) else f.rows[i].cells[p])));
      Frame(f.columns, rows)
    else
      var rows := seq(|f.rows|, i requires 0 <= i < |f.rows| =>
        assert f.rows[i] in f.rows;
        Row(f.rows[i].index, f.rows[i].cells + [Day(today)]));
      Frame(f.columns + [DateColumn], rows)
  }
}
