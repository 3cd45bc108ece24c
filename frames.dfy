/** The table the cleaning works on: named columns and labelled rows of cells, as a pandas DataFrame holds them. */
module Frames {
  import opened Wrappers

  /** A calendar date, as `datetime.date` holds it. */
  datatype Date = Date(year: int, month: int, day: int)

  /**
   * One cell: pandas' missing value (NaN), a string, a number, or a date.
   * Numbers are modelled as reals; how a float is rounded is left to the parser.
   */
  datatype Cell = Missing | Text(s: string) | Number(x: real) | Day(d: Date)

  /** A row: its index label and one cell per column. */
  datatype Row = Row(index: int, cells: seq<Cell>)

  /** Column names (which may repeat) and rows. */
  datatype Frame = Frame(columns: seq<string>, rows: seq<Row>)

  /**
   * The two ways the cleaning can fail: `dropna` names columns that do not
   * exist (pandas raises `KeyError` listing them), or a column the code uses
   * through `.str` is not exactly one column (`df[name]` is then a DataFrame,
   * which has no `.str`, and pandas raises `AttributeError`).
   */
  datatype Error = MissingColumns(names: seq<string>) | NotOneColumn(name: string)

  /** Every row has exactly one cell per column. */
  ghost predicate WellFormed(f: Frame)
  {
    forall row :: row in f.rows ==> |row.cells| == |f.columns|
  }

  /** A table as the model takes the extractor's output: every cell is text or missing (dtype inference is not modelled). */
  ghost predicate Extracted(f: Frame)
  {
    WellFormed(f) && forall row, p :: row in f.rows && 0 <= p < |row.cells| ==> row.cells[p].Missing? || row.cells[p].Text?
  }

  /** The first position of `name` among `columns`. */
  function IndexOf(columns: seq<string>, name: string): (i: nat)
    requires name in columns
    ensures i < |columns| && columns[i] == name
    ensures forall j :: 0 <= j < i ==> columns[j] != name
  {
    if columns[0] == name then 0 else 1 + IndexOf(columns[1..], name)
  }

  /** Two different positions holding the same name count twice. */
  lemma TwoPositionsCountTwice(columns: seq<string>, i: nat, j: nat)
    requires i < j < |columns| && columns[i] == columns[j]
    ensures multiset(columns)[columns[i]] >= 2
  {
    assert columns == columns[..j] + columns[j..];
    assert columns[i] in columns[..j];
    assert columns[j] in columns[j..];
  }

  /**
   * `df[name]` used as one column: its position when exactly one column has
   * that name, otherwise the error pandas raises.
   */
  function Column(columns: seq<string>, name: string): (r: Result<nat, Error>)
    ensures r.Success? <==> multiset(columns)[name] == 1
    ensures r.Success? ==> r.value < |columns| && columns[r.value] == name
    ensures r.Success? ==> forall j :: 0 <= j < |columns| && j != r.value ==> columns[j] != name
    ensures name !in columns ==> r == Failure(MissingColumns([name]))
    ensures multiset(columns)[name] > 1 ==> r == Failure(NotOneColumn(name))
  {
    if name !in columns then Failure(MissingColumns([name]))
    else if multiset(columns)[name] > 1 then Failure(NotOneColumn(name))
    else
      var i := IndexOf(columns, name);
      assert forall j :: 0 <= j < |columns| && j != i ==> columns[j] != name by {
        forall j | 0 <= j < |columns| && j != i && columns[j] == name
          ensures false
        {
          if j > i { TwoPositionsCountTwice(columns, i, j); }
        }
      }
      Success(i)
  }
}
