/**
 * The cleaning pipeline of src/app.py lines 22-40, from the extracted table
 * to the table that is written to the database.
 */
module Pipeline {
  import opened Wrappers
  import opened Sequences
  import opened Frames
  import opened Headers
  import opened Rename
  import opened Cleaning

  /** The header of every column after canonicalisation and the rename. */
  function Schema(headers: seq<string>): (r: seq<string>)
    ensures |r| == |headers|
    ensures forall i :: 0 <= i < |headers| ==> r[i] == Renamed(Canonical(headers[i]))
  {
    seq(|headers|, i requires 0 <= i < |headers| => Renamed(Canonical(headers[i])))
  }

  /** Every column of the schema is canonical. */
  lemma SchemaIsCanonical(headers: seq<string>)
    ensures forall i :: 0 <= i < |headers| ==> IsCanonical(Schema(headers)[i])
  {
    forall i | 0 <= i < |headers|
      ensures IsCanonical(Schema(headers)[i])
    {
      RenamedStaysCanonical(Canonical(headers[i]));
    }
  }

  /** The cells of a row once coercion is done, for the columns `columns`. */
  ghost predicate CoercedCells(columns: seq<string>, cells: seq<Cell>)
  {
    && |cells| == |columns|
    && (forall p :: 0 <= p < |columns| && (columns[p] == "title" || columns[p] == "artist") ==> cells[p].Text?)
    && (forall p :: 0 <= p < |columns| && columns[p] == "title" ==> !IsFootnote(cells[p]))
    && (forall p :: 0 <= p < |columns| && columns[p] == "streams_billions" ==> cells[p].Number? || cells[p].Missing?)
  }

  /** The cells of a row of the cleaned table. */
  ghost predicate CleanCells(columns: seq<string>, cells: seq<Cell>, today: Date)
  {
    && CoercedCells(columns, cells)
    && (forall p :: 0 <= p < |columns| && columns[p] == DateColumn ==> cells[p] == Day(today))
  }

  /**
   * What holds of the table the pipeline produces: exactly one title column
   * and one streams column, an artist column and a date column; every title
   * and artist is a string; no title contains "as of" in any letter case;
   * every stream count is a number or missing; every row carries `today`;
   * and the rows are labelled 0 to N-1.
   */
  ghost predicate Cleaned(f: Frame, today: Date)
  {
    && multiset(f.columns)["title"] == 1
    && multiset(f.columns)["streams_billions"] == 1
    && "artist" in f.columns
    && DateColumn in f.columns
    && (forall i :: 0 <= i < |f.rows| ==> f.rows[i].index == i && CleanCells(f.columns, f.rows[i].cells, today))
  }

  /** Some key column is missing after the rename. */
  ghost predicate LacksKeyColumn(columns: seq<string>)
  {
    exists n :: n in KeyColumns && n !in columns
  }

  /**
   * The pipeline, src/app.py lines 22-40, as one function: canonicalise and
   * rename the headers, drop rows missing a key value, drop footnote rows,
   * coerce the stream counts, drop duplicates, renumber, stamp the date.
   * A cleaned table has the renamed headers, with `scraping_date` appended
   * unless one is already there; it never has more rows than the scraped
   * one, and its rows are labelled 0 to N-1.
   */
  function CleanTable(raw: Frame, parse: string -> Option<real>, today: Date): (r: Result<Frame, Error>)
    requires WellFormed(raw)
    ensures r.Success? ==> WellFormed(r.value) && r.value.columns == WithDateColumn(Schema(raw.columns))
    ensures r.Success? ==> |r.value.rows| <= |raw.rows|
    ensures r.Success? ==> forall i :: 0 <= i < |r.value.rows| ==> r.value.rows[i].index == i
  {
    var df3 := Prepare(raw, parse);
    if df3.Failure? then Failure(df3.error) else Success(Finish(df3.value, today))
  }

  /**
   * The steps that do not depend on the date: canonicalise and rename the
   * headers, drop rows missing a key value, drop footnote rows, coerce the
   * stream counts. The result has the renamed headers and no more rows than
   * the scraped table.
   */
  function Prepare(raw: Frame, parse: string -> Option<real>): (r: Result<Frame, Error>)
    requires WellFormed(raw)
    ensures r.Success? ==> WellFormed(r.value) && r.value.columns == Schema(raw.columns)
    ensures r.Success? ==> |r.value.rows| <= |raw.rows|
  {
    var df0 := Frame(Schema(raw.columns), raw.rows);
    var dropped := DropNa(df0, KeyColumns);
    if dropped.Failure? then Failure(dropped.error)
    else
      var df1 := dropped.value;
      SubsequenceLength(df1.rows, df0.rows);
      var title := Column(df1.columns, "title");
      if title.Failure? then Failure(title.error)
      else
        var df2 := DropFootnotes(df1, title.value);
        SubsequenceLength(df2.rows, df1.rows);
        var streams := Column(df2.columns, "streams_billions");
        if streams.Failure? then Failure(streams.error)
        else Success(Coerce(df2, streams.value, parse))
  }

  /**
   * The last three steps: drop duplicates, renumber, stamp. The result has
   * the date column, no more rows than the input, and rows labelled 0 to N-1.
   */
  function Finish(df3: Frame, today: Date): (r: Frame)
    requires WellFormed(df3)
    ensures WellFormed(r) && r.columns == WithDateColumn(df3.columns)
    ensures |r.rows| <= |df3.rows|
    ensures forall i :: 0 <= i < |r.rows| ==> r.rows[i].index == i
  {
    var kept := DropDuplicates(df3.rows);
    DropDuplicatesIsSubsequence(df3.rows);
    SubsequenceLength(kept, df3.rows);
    Stamp(Frame(df3.columns, ResetIndex(kept)), today)
  }

  /**
   * The pipeline fails exactly when a key column is missing after the rename
   * (and then it lists the missing ones, in the order title, artist,
   * streams_billions), or when the title or the streams column is not a
   * single column.
   */
  lemma CleanTableFailures(raw: Frame, parse: string -> Option<real>, today: Date)
    requires WellFormed(raw)
    ensures var schema := Schema(raw.columns);
      CleanTable(raw, parse, today).Failure? <==>
        LacksKeyColumn(schema) || multiset(schema)["title"] > 1 || multiset(schema)["streams_billions"] > 1
    ensures var schema := Schema(raw.columns);
      LacksKeyColumn(schema) ==>
        CleanTable(raw, parse, today) == Failure(MissingColumns(AbsentNames(schema, KeyColumns)))
    ensures var schema := Schema(raw.columns);
      !LacksKeyColumn(schema) && multiset(schema)["title"] > 1 ==>
        CleanTable(raw, parse, today) == Failure(NotOneColumn("title"))
    ensures var schema := Schema(raw.columns);
      !LacksKeyColumn(schema) && multiset(schema)["title"] == 1 && multiset(schema)["streams_billions"] > 1 ==>
        CleanTable(raw, parse, today) == Failure(NotOneColumn("streams_billions"))
  {
    var schema := Schema(raw.columns);
    if !LacksKeyColumn(schema) {
      assert "title" in schema && "streams_billions" in schema by {
        assert "title" in KeyColumns && "streams_billions" in KeyColumns;
      }
    }
  }

  /**
   * When the pipeline succeeds its table is `Cleaned`; when, in addition, the
   * input had no `scraping_date` column of its own, no two rows are identical.
   */
  lemma CleanTableCleaned(raw: Frame, parse: string -> Option<real>, today: Date)
    requires Extracted(raw)
    ensures CleanTable(raw, parse, today).Success? ==> Cleaned(CleanTable(raw, parse, today).value, today)
    ensures CleanTable(raw, parse, today).Success? && DateColumn !in Schema(raw.columns) ==>
              DistinctCells(CleanTable(raw, parse, today).value.rows)
  {
    if Prepare(raw, parse).Success? {
      var df3 := Prepare(raw, parse).value;
      PreparedCoerced(raw, parse);
      assert "artist" in df3.columns by {
        assert "artist" in KeyColumns;
      }
      assert CleanTable(raw, parse, today) == Success(Finish(df3, today));
      FinishCleaned(df3, today);
    }
  }

  /** Every row `Prepare` delivers has the cells `CoercedCells` describes. */
  lemma PreparedCoerced(raw: Frame, parse: string -> Option<real>)
    requires Extracted(raw)
    ensures Prepare(raw, parse).Success? ==>
      forall i :: 0 <= i < |Prepare(raw, parse).value.rows| ==>
        CoercedCells(Prepare(raw, parse).value.columns, Prepare(raw, parse).value.rows[i].cells)
  {
    var df0 := Frame(Schema(raw.columns), raw.rows);
    var dropped := DropNa(df0, KeyColumns);
    if dropped.Success? {
      var df1 := dropped.value;
      var title := Column(df1.columns, "title");
      if title.Success? {
        var df2 := DropFootnotes(df1, title.value);
        var streams := Column(df2.columns, "streams_billions");
        if streams.Success? {
          var df3 := Coerce(df2, streams.value, parse);
          SubsequenceMembers(df1.rows, df0.rows);
          SubsequenceMembers(df2.rows, df1.rows);
          CoercedAfterCoerce(raw, df1, df2, df3, title.value, streams.value, parse);
          assert Prepare(raw, parse) == Success(df3);
        }
      }
    }
  }

  /** Every row after coercion has the cells `CoercedCells` describes. */
  lemma CoercedAfterCoerce(raw: Frame, df1: Frame, df2: Frame, df3: Frame, t: nat, s: nat, parse: string -> Option<real>)
    requires Extracted(raw) && WellFormed(df1) && WellFormed(df2)
    requires df1.columns == Schema(raw.columns) && t < |df1.columns| && s < |df1.columns|
    requires Column(df1.columns, "title") == Success(t)
    requires Column(df1.columns, "streams_billions") == Success(s)
    requires forall row :: row in df1.rows ==> row in raw.rows && HasValues(df1.columns, KeyColumns, row)
    requires df2.columns == df1.columns
    requires forall row :: row in df2.rows ==> row in df1.rows && NoFootnoteAt(t, row)
    requires df3 == Coerce(df2, s, parse)
    ensures forall i :: 0 <= i < |df3.rows| ==> CoercedCells(df3.columns, df3.rows[i].cells)
  {
    var columns := df1.columns;
    forall i | 0 <= i < |df3.rows|
      ensures CoercedCells(columns, df3.rows[i].cells)
    {
      var row := df2.rows[i];
      assert row in df2.rows;
      assert row in raw.rows && HasValues(columns, KeyColumns, row) && NoFootnoteAt(t, row);
      CoercedRow(columns, row, df3.rows[i].cells, t, s, parse);
    }
  }

  /** One extracted row with its key values, no footnote title and its stream count coerced. */
  lemma CoercedRow(columns: seq<string>, row: Row, cells: seq<Cell>, t: nat, s: nat, parse: string -> Option<real>)
    requires |row.cells| == |columns| && forall p :: 0 <= p < |row.cells| ==> row.cells[p].Missing? || row.cells[p].Text?
    requires HasValues(columns, KeyColumns, row) && NoFootnoteAt(t, row)
    requires Column(columns, "title") == Success(t) && Column(columns, "streams_billions") == Success(s)
    requires |cells| == |columns| && s < |cells| && cells[s] == CoerceCell(row.cells[s], parse)
    requires forall p :: 0 <= p < |columns| && p != s ==> cells[p] == row.cells[p]
    ensures CoercedCells(columns, cells)
  {
    forall p | 0 <= p < |columns| && (columns[p] == "title" || columns[p] == "artist")
      ensures cells[p].Text?
    {
      assert columns[p] in KeyColumns;
      assert p != s;
    }
    forall p | 0 <= p < |columns| && columns[p] == "title"
      ensures !IsFootnote(cells[p])
    {
      assert p == t;
    }
  }

  /** Deduplication and renumbering keep only coerced rows, labelled 0 to N-1, no two identical. */
  lemma DedupKeepsCoerced(df3: Frame)
    requires WellFormed(df3)
    requires forall i :: 0 <= i < |df3.rows| ==> CoercedCells(df3.columns, df3.rows[i].cells)
    ensures var rows := ResetIndex(DropDuplicates(df3.rows));
      && WellFormed(Frame(df3.columns, rows))
      && (forall i :: 0 <= i < |rows| ==> rows[i].index == i && CoercedCells(df3.columns, rows[i].cells))
      && DistinctCells(rows)
  {
    var kept := DropDuplicates(df3.rows);
    DropDuplicatesIsSubsequence(df3.rows);
    DropDuplicatesDistinct(df3.rows);
    SubsequenceMembers(kept, df3.rows);
    forall i | 0 <= i < |kept|
      ensures CoercedCells(df3.columns, kept[i].cells)
    {
      assert kept[i] in df3.rows;
      var j :| 0 <= j < |df3.rows| && df3.rows[j] == kept[i];
    }
  }

  /** Stamping a table of coerced rows gives a `Cleaned` table. */
  lemma FinishCleaned(df3: Frame, today: Date)
    requires WellFormed(df3)
    requires multiset(df3.columns)["title"] == 1 && multiset(df3.columns)["streams_billions"] == 1
    requires "artist" in df3.columns
    requires forall i :: 0 <= i < |df3.rows| ==> CoercedCells(df3.columns, df3.rows[i].cells)
    ensures Cleaned(Finish(df3, today), today)
    ensures DateColumn !in df3.columns ==> DistinctCells(Finish(df3, today).rows)
  {
    var columns := df3.columns;
    var df4 := Frame(columns, ResetIndex(DropDuplicates(df3.rows)));
    DedupKeepsCoerced(df3);
    var out := Stamp(df4, today);
    forall i | 0 <= i < |out.rows|
      ensures CleanCells(out.columns, out.rows[i].cells, today)
    {
      StampedCells(df4, today, i);
    }
    if DateColumn !in columns {
      StampKeepsDistinct(df4, today);
    }
  }

  /** One stamped row of coerced cells is a clean row. */
  lemma StampedCells(df4: Frame, today: Date, i: nat)
    requires WellFormed(df4) && i < |df4.rows|
    requires CoercedCells(df4.columns, df4.rows[i].cells)
    ensures CleanCells(Stamp(df4, today).columns, Stamp(df4, today).rows[i].cells, today)
  {
    var out := Stamp(df4, today);
    var cells, before := out.rows[i].cells, df4.rows[i].cells;
    forall p | 0 <= p < |out.columns| && out.columns[p] != DateColumn
      ensures p < |df4.columns| && cells[p] == before[p]
    {
    }
  }

  /** Appending the same date to every row keeps distinct rows distinct. */
  lemma StampKeepsDistinct(df4: Frame, today: Date)
    requires WellFormed(df4) && DateColumn !in df4.columns
    requires DistinctCells(df4.rows)
    ensures DistinctCells(Stamp(df4, today).rows)
  {
    var out := Stamp(df4, today);
    forall i, j | 0 <= i < j < |out.rows|
      ensures out.rows[i].cells != out.rows[j].cells
    {
      assert out.rows[i].cells[..|df4.columns|] == df4.rows[i].cells;
    }
  }

  /** Renaming the canonical headers with the dictionary the loop builds gives the schema. */
  lemma RenamedSchema(headers: seq<string>, columns: seq<string>, renames: map<string, string>)
    requires |columns| == |headers| && forall i :: 0 <= i < |headers| ==> columns[i] == Canonical(headers[i])
    requires forall c :: c in renames <==> c in columns && Target(c).Some?
    requires forall c :: c in renames ==> Target(c) == Some(renames[c])
    ensures ApplyRename(columns, renames) == Schema(headers)
  {
    RenameWithBuiltDict(columns, renames);
  }

  /** The failure cases and the `Cleaned` guarantee, for one outcome of the pipeline. */
  lemma CleanTableOutcome(raw: Frame, parse: string -> Option<real>, today: Date, result: Result<Frame, Error>)
    requires WellFormed(raw) && result == CleanTable(raw, parse, today)
    ensures result.Failure? <==>
      LacksKeyColumn(Schema(raw.columns)) || multiset(Schema(raw.columns))["title"] > 1
        || multiset(Schema(raw.columns))["streams_billions"] > 1
    ensures Extracted(raw) && result.Success? ==> Cleaned(result.value, today)
  {
    CleanTableFailures(raw, parse, today);
    if Extracted(raw) {
      CleanTableCleaned(raw, parse, today);
    }
  }

  /**
   * The pipeline as the script runs it: the rename dictionary is built by a
   * loop, and the table is rebound step by step, leaving at the first step
   * that fails.
   */
  method Clean(raw: Frame, parse: string -> Option<real>, today: Date) returns (result: Result<Frame, Error>)
    requires WellFormed(raw)
    ensures result == CleanTable(raw, parse, today)
    ensures result.Failure? <==>
      LacksKeyColumn(Schema(raw.columns)) || multiset(Schema(raw.columns))["title"] > 1
        || multiset(Schema(raw.columns))["streams_billions"] > 1
    ensures Extracted(raw) && result.Success? ==> Cleaned(result.value, today)
  {
    var columns := seq(|raw.columns|, i requires 0 <= i < |raw.columns| => Canonical(raw.columns[i]));
    var renames := BuildRenameDict(columns);
    RenamedSchema(raw.columns, columns, renames);
    var df := Frame(ApplyRename(columns, renames), raw.rows);
    var dropped := DropNa(df, KeyColumns);
    if dropped.Failure? {
      result := Failure(dropped.error);
    } else {
      df := dropped.value;
      var title := Column(df.columns, "title");
      if title.Failure? {
        result := Failure(title.error);
      } else {
        df := DropFootnotes(df, title.value);
        var streams := Column(df.columns, "streams_billions");
        if streams.Failure? {
          result := Failure(streams.error);
        } else {
          df := Coerce(df, streams.value, parse);
          df := Frame(df.columns, ResetIndex(DropDuplicates(df.rows)));
          df := Stamp(df, today);
          result := Success(df);
        }
      }
    }
    CleanTableOutcome(raw, parse, today, result);
  }

  /**
   * Running the pipeline on two different days gives the same outcome, the
   * same columns, the same number of rows and the same cells everywhere but
   * in the `scraping_date` columns.
   */
  lemma RerunDiffersOnlyInDate(raw: Frame, parse: string -> Option<real>, d1: Date, d2: Date)
    requires WellFormed(raw)
    ensures CleanTable(raw, parse, d1).Success? == CleanTable(raw, parse, d2).Success?
    ensures CleanTable(raw, parse, d1).Failure? ==> CleanTable(raw, parse, d1) == CleanTable(raw, parse, d2)
    ensures CleanTable(raw, parse, d1).Success? ==>
              SameButDate(CleanTable(raw, parse, d1).value, CleanTable(raw, parse, d2).value)
  {
    var df3 := Prepare(raw, parse);
    if df3.Success? {
      assert CleanTable(raw, parse, d1) == Success(Finish(df3.value, d1));
      assert CleanTable(raw, parse, d2) == Success(Finish(df3.value, d2));
      FinishRerun(df3.value, d1, d2);
    }
  }

  /** Two tables with the same columns, the same labelled rows, and the same cells outside the date columns. */
  ghost predicate SameButDate(a: Frame, b: Frame)
  {
    && a.columns == b.columns && |a.rows| == |b.rows|
    && (forall i :: 0 <= i < |a.rows| ==>
          a.rows[i].index == b.rows[i].index && |a.rows[i].cells| == |b.rows[i].cells| == |a.columns|)
    && (forall i, p :: 0 <= i < |a.rows| && 0 <= p < |a.columns| && a.columns[p] != DateColumn ==>
          a.rows[i].cells[p] == b.rows[i].cells[p])
  }

  /** Stamping the same table with two dates changes only the date columns. */
  lemma FinishRerun(df3: Frame, d1: Date, d2: Date)
    requires WellFormed(df3)
    ensures SameButDate(Finish(df3, d1), Finish(df3, d2))
  {
    var kept := DropDuplicates(df3.rows);
    var df4 := Frame(df3.columns, ResetIndex(kept));
    var a, b := Stamp(df4, d1), Stamp(df4, d2);
    assert Finish(df3, d1) == a && Finish(df3, d2) == b;
    forall i | 0 <= i < |a.rows|
      ensures |a.rows[i].cells| == |b.rows[i].cells| == |a.columns|
    {
      assert a.rows[i] in a.rows && b.rows[i] in b.rows;
    }
    forall i, p | 0 <= i < |a.rows| && 0 <= p < |a.columns| && a.columns[p] != DateColumn
      ensures a.rows[i].cells[p] == b.rows[i].cells[p]
    {
      assert p < |df4.columns|;
    }
  }

  /**
   * Row `k` of `out` holds the cells of `row`, with the stream count at
   * position `s` coerced, in every column but the date columns.
   */
  ghost predicate CarriesRow(out: Frame, k: int, columns: seq<string>, row: Row, s: nat, parse: string -> Option<real>)
  {
    && 0 <= k < |out.rows| && |columns| <= |out.rows[k].cells| && |columns| <= |row.cells|
    && forall p :: 0 <= p < |columns| && columns[p] != DateColumn ==>
         out.rows[k].cells[p] == if p == s then CoerceCell(row.cells[p], parse) else row.cells[p]
  }

  /**
   * No row is lost by accident: when the pipeline succeeds, every input row
   * that has a title, an artist and a stream count, and whose title is not a
   * footnote, appears in the output with its stream count coerced.
   */
  lemma RowSurvives(raw: Frame, parse: string -> Option<real>, today: Date, row: Row, t: nat, s: nat)
    requires WellFormed(raw) && CleanTable(raw, parse, today).Success?
    requires row in raw.rows && HasValues(Schema(raw.columns), KeyColumns, row)
    requires Column(Schema(raw.columns), "title") == Success(t) && !IsFootnote(row.cells[t])
    requires Column(Schema(raw.columns), "streams_billions") == Success(s)
    ensures exists k :: CarriesRow(CleanTable(raw, parse, today).value, k, Schema(raw.columns), row, s, parse)
  {
    var i := PrepareKeeps(raw, parse, row, t, s);
    var df3 := Prepare(raw, parse).value;
    var k := FinishKeeps(df3, today, i);
    CarriesThroughFinish(df3, today, i, k, row, s, parse);
  }

  /** A complete, non-footnote input row is row `i` of the coerced table, its stream count coerced. */
  lemma PrepareKeeps(raw: Frame, parse: string -> Option<real>, row: Row, t: nat, s: nat) returns (i: nat)
    requires WellFormed(raw) && Prepare(raw, parse).Success?
    requires row in raw.rows && HasValues(Schema(raw.columns), KeyColumns, row)
    requires Column(Schema(raw.columns), "title") == Success(t) && !IsFootnote(row.cells[t])
    requires Column(Schema(raw.columns), "streams_billions") == Success(s)
    ensures var df3 := Prepare(raw, parse).value;
      && df3.columns == Schema(raw.columns) && i < |df3.rows|
      && |row.cells| == |df3.columns| == |df3.rows[i].cells|
      && forall p :: 0 <= p < |df3.columns| ==>
           df3.rows[i].cells[p] == if p == s then CoerceCell(row.cells[p], parse) else row.cells[p]
  {
    var df0 := Frame(Schema(raw.columns), raw.rows);
    var df1 := DropNa(df0, KeyColumns).value;
    assert multiset(df1.rows)[row] == multiset(df0.rows)[row] > 0;
    var df2 := DropFootnotes(df1, t);
    assert multiset(df2.rows)[row] == multiset(df1.rows)[row] > 0;
    i :| 0 <= i < |df2.rows| && df2.rows[i] == row;
    var df3 := Coerce(df2, s, parse);
    assert Prepare(raw, parse).value == df3;
    assert df3.rows[i] in df3.rows;
    forall p | 0 <= p < |df3.columns|
      ensures df3.rows[i].cells[p] == if p == s then CoerceCell(row.cells[p], parse) else row.cells[p]
    {
    }
  }

  /** Connects `PrepareKeeps` and `FinishKeeps`. */
  lemma CarriesThroughFinish(df3: Frame, today: Date, i: nat, k: nat, row: Row, s: nat, parse: string -> Option<real>)
    requires WellFormed(df3) && i < |df3.rows| && |row.cells| == |df3.columns|
    requires k < |Finish(df3, today).rows| && |df3.columns| <= |Finish(df3, today).rows[k].cells|
    requires forall p :: 0 <= p < |df3.columns| && df3.columns[p] != DateColumn ==>
               Finish(df3, today).rows[k].cells[p] == df3.rows[i].cells[p]
    requires forall p :: 0 <= p < |df3.columns| ==>
               df3.rows[i].cells[p] == if p == s then CoerceCell(row.cells[p], parse) else row.cells[p]
    ensures CarriesRow(Finish(df3, today), k, df3.columns, row, s, parse)
  {
  }

  /** Row `i` of the coerced table survives deduplication and renumbering as some row `k`, outside the date columns. */
  lemma FinishKeeps(df3: Frame, today: Date, i: nat) returns (k: nat)
    requires WellFormed(df3) && i < |df3.rows|
    ensures k < |Finish(df3, today).rows| && |df3.columns| <= |Finish(df3, today).rows[k].cells|
    ensures forall p :: 0 <= p < |df3.columns| && df3.columns[p] != DateColumn ==>
              Finish(df3, today).rows[k].cells[p] == df3.rows[i].cells[p]
  {
    var kept := DropDuplicates(df3.rows);
    k := DropDuplicatesKeeps(df3.rows, i);
    var df4 := Frame(df3.columns, ResetIndex(kept));
    assert df4.rows[k].cells == df3.rows[i].cells;
    StampKeepsCells(df4, today, k);
  }

  /** Stamping keeps row `k`'s cells outside the date columns. */
  lemma StampKeepsCells(df4: Frame, today: Date, k: nat)
    requires WellFormed(df4) && k < |df4.rows|
    ensures k < |Stamp(df4, today).rows| && |df4.columns| <= |Stamp(df4, today).rows[k].cells|
    ensures forall p :: 0 <= p < |df4.columns| && df4.columns[p] != DateColumn ==>
              Stamp(df4, today).rows[k].cells[p] == df4.rows[k].cells[p]
  {
    var out := Stamp(df4, today);
    assert out.rows[k] in out.rows;
  }
}
