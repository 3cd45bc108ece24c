# Spotify most-streamed songs: the cleaning pipeline

The script `src/app.py` scrapes Wikipedia's list of the most-streamed songs on
Spotify and cleans the first table. It then stores the table in SQLite and
reports and plots a few aggregates. This project models the cleaning pipeline,
lines 22-40, and proves what it guarantees about the table that leaves it. The
top-song lookup of lines 60-61 is modelled as well.

The modules follow the pipeline:

- `Headers`: header canonicalisation (line 22). A header is stripped with
  Python's whitespace set, lower-cased, and has its spaces turned into `_`.
  Every character outside `[a-z0-9_]` is then deleted.
- `Rename`: the semantic rename (lines 24-34). `Rules` lists the substring
  rules in the order the `if`/`elif` chain tries them. `FirstMatch` is the
  specification. `BuildRenameDict` is the loop that fills `rename_dict`.
  `ApplyRename` is `df.rename`.
- `Frames`: the table. It has headers, and rows that carry an index label and
  one cell per column. A cell is missing, a string, a number or a date.
  `Column` is the lookup `df['name']`, which needs exactly one column of that
  name before `.str` can be used.
- `Cleaning`: `dropna` on the three key columns, the "As of" footnote filter,
  the comma-stripping coercion, `drop_duplicates`, `reset_index` and the date
  stamp.
- `Pipeline`: the steps composed, in two forms:
  - `CleanTable`, a function;
  - `Clean`, a method that rebinds the table step by step as the script does.

  The lemmas here state what the cleaned table satisfies (`Cleaned`), when and
  how the pipeline fails, that no complete non-footnote row is lost, and that
  a second run on another day differs only in the date.
- `Report`: `idxmax` over the stream counts (lines 60-61).
- `Text`, `Sequences` and `Wrappers`: substring search (exact and
  ignoring case), subsequences with an order-preserving filter, and
  `Option`/`Result`.

The current date (`datetime.utcnow().date()`, line 40) is a parameter `today`.
The float parser inside `pd.to_numeric` is a parameter
`parse: string -> Option<real>`. Only its input, the comma-free string, is
pinned down.

Where the intended behaviour and the code differ, the model follows the code:

- `rename_dict` is keyed by the canonical header, not by the target, so no
  entry overwrites another. Two headers that rename to the same name give two
  columns with that name.
- When `title` or `streams_billions` is then not a single column,
  `df['title'].str` fails. The model returns `NotOneColumn`. This is the only
  failure of `.str` the model has; the one pandas raises for a column it did
  not read as strings is listed under "Left out".
- `dropna` on a key column that is absent raises a `KeyError` listing the
  absent names. The model returns `MissingColumns` with those names, in the
  order title, artist, streams_billions.
- Commas are deleted, not read as decimal separators: "3,2" is handed to the
  parser as "32".
- A stream count that does not parse becomes missing, and its row is kept.
  The cleaned table can therefore hold rows without a stream count.
- If the scraped table already has a header that canonicalises to
  `scraping_date`, the stamp overwrites every such column. Two rows that
  differed only there become identical after deduplication has run.
  Distinctness of the output rows is therefore proved only for tables without
  such a header.

## Model

| member | source | states |
|---|---|---|
| Headers.Strip | src/app.py:22 | `str.strip()`: the result is a slice of the header with only whitespace, in Python's `isspace` sense, before and after it, and it neither starts nor ends with whitespace |
| Headers.Lower | src/app.py:22 | after `str.lower()` no ASCII capital letter is left |
| Headers.LowerCounts | src/app.py:22 | after `str.lower()` each character occurs as often as it did, unless lower-casing replaces it, plus once for each capital that lower-cases to it (KELVIN SIGN to `k`, U+0130 to `i` and U+0307) |
| Headers.LowerOne | src/app.py:22 | lower-casing a one-character string gives that character's own lower-case form |
| Headers.LowerAppend | src/app.py:22 | `str.lower()` works character by character: lower-casing a concatenation gives the lowered parts, concatenated in the same order |
| Headers.SpacesToUnderscores | src/app.py:22 | `replace(' ', '_')` keeps the length, leaves no space, turns every space into `_`, and leaves every other character in place |
| Headers.UnderscoringKeepsOtherCounts | src/app.py:22 | `replace(' ', '_')` changes the count of no character other than space and underscore |
| Headers.UnderscoringCountsSpaces | src/app.py:22 | after `replace(' ', '_')` the underscores are the old underscores plus the old spaces |
| Headers.KeepCanonicalChars | src/app.py:22 | the regular-expression replace leaves only `[a-z0-9_]`, each as often as in its input, in input order |
| Headers.Canonical | src/app.py:22 | the canonical header holds only `[a-z0-9_]`, so no space and no capital; every lower-case letter and digit of the lower-cased, stripped header survives as often as it occurs; its underscores are that header's underscores and spaces; the result is an order-preserving subsequence of the underscored header |
| Headers.CanonicalCounts | src/app.py:22 | each lower-case letter or digit occurs in the canonical header as often as it, or a capital that lower-cases to it, occurs in the stripped header |
| Headers.CanonicalUnderscores | src/app.py:22 | the underscores of the canonical header are the underscores and spaces of the stripped header |
| Headers.StripOfCanonical | src/app.py:22 | stripping a header made of `[a-z0-9_]` leaves it unchanged |
| Headers.LowerOfCanonical | src/app.py:22 | lower-casing a header made of `[a-z0-9_]` leaves it unchanged |
| Headers.CanonicalOfCanonical | src/app.py:22 | a header made of `[a-z0-9_]` is its own canonical form |
| Headers.CanonicalIdempotent | src/app.py:22 | canonicalising twice gives the same header as canonicalising once |
| Headers.CanonicalFixpoints | src/app.py:22 | canonicalisation leaves a header unchanged if and only if the header is made of `[a-z0-9_]` |
| Rename.FirstMatch | src/app.py:26-33 | no target if and only if no rule matches; otherwise the target of a matching rule that no earlier rule precedes |
| Rename.Target | src/app.py:26-33 | the name a header is renamed to, if any, is one of `title`, `artist`, `streams_billions`, `release_date` |
| Rename.Renamed | src/app.py:34 | a header no rule matches keeps its name; any other header becomes one of the four key names |
| Rename.TargetIsChain | src/app.py:26-33 | the ordered rule list gives the same answer as the `if`/`elif` chain on "song"/"title", "artist", "stream", "publish"/"release" |
| Rename.MatchesOne | src/app.py:28-31 | a rule with one keyword, like `'artist' in col`, matches exactly the headers containing the keyword |
| Rename.MatchesTwo | src/app.py:26-33 | a rule with two keywords, like `'song' in col or 'title' in col`, matches exactly the headers containing either |
| Rename.RuleOrder | src/app.py:26-33 | "song" or "title" gives `title` even when a later keyword also occurs; otherwise "artist" gives `artist`, then "stream" gives `streams_billions`, then "publish" or "release" gives `release_date`; a header with none of them has no target and keeps its name |
| Rename.BuildRenameDict | src/app.py:24-33 | the loop's dictionary has as keys exactly the headers some rule matches, each mapped to the target of its first matching rule |
| Rename.RenameStep | src/app.py:25-33 | one turn of the loop over the headers keeps both loop invariants: the keys read so far are exactly the matched headers, each mapped to its target |
| Rename.ApplyRename | src/app.py:34 | a header that is a key is replaced by its value; every other header is kept, and the number of columns is unchanged |
| Rename.RenameWithBuiltDict | src/app.py:25-34 | renaming with the loop's dictionary gives every header its first-match name, or the header itself when no rule matches |
| Rename.RenamedStaysCanonical | src/app.py:22-34 | every rule target is made of `[a-z0-9_]`, so renaming keeps a canonical header canonical |
| Pipeline.RenamedSchema | src/app.py:22-34 | canonicalising the headers and then renaming with the loop's dictionary gives the table's schema, header by header |
| Pipeline.Schema | src/app.py:22-34 | one column name per header: the header canonicalised, then renamed |
| Pipeline.SchemaIsCanonical | src/app.py:22-34 | every column name after canonicalisation and rename is made of `[a-z0-9_]` |
| Text.ContainsIgnoringCase | src/app.py:37 | the case-insensitive search finds a word only where the whole word fits, and finds every exact occurrence |
| Text.AnyCaseSpellingIsFound | src/app.py:37 | any mixture of upper and lower case of the searched word, such as "As Of" or "AS OF", is found |
| Frames.Column | src/app.py:37-38 | `df[name]` yields a single column exactly when the name occurs once, and then its position; an absent name fails as a missing column, a repeated one as not one column |
| Cleaning.AbsentNames | src/app.py:36 | a name is reported absent if and only if it is in the subset and not among the columns; each absent name is reported as often as the subset lists it, in subset order |
| Cleaning.DropNa | src/app.py:36 | fails if and only if a subset name is not a column, listing the absent names; otherwise keeps the columns, keeps only rows with a value in every subset column, keeps every such row as often as it occurs, and keeps order |
| Cleaning.IsFootnote | src/app.py:37 | only a string title is flagged, and a title containing "as of" always is (`na=False` keeps missing titles) |
| Cleaning.FootnoteExactly | src/app.py:37 | the filter flags exactly the string titles in which "as of" stands in some letter case (`a`/`A`, `s`/`S`/U+017F, a space, `o`/`O`, `f`/`F`); a missing title is never flagged |
| Cleaning.DropFootnotes | src/app.py:37 | keeps the columns; keeps no row whose title contains "as of" in any case; keeps every other row as often as it occurs, including a row whose title is missing; keeps order |
| Cleaning.StripCommas | src/app.py:38 | the string handed to the parser has no comma, has every other character as often as the original, and keeps their order: it is the original with all commas removed |
| Cleaning.CoerceCell | src/app.py:38 | a coerced cell is a number or missing; it is a number exactly when it was a string whose comma-free form parses, and then it holds the parsed value |
| Cleaning.Coerce | src/app.py:38 | coercion keeps the columns, the number of rows, their labels and every other column, and replaces each streams cell by its coerced value |
| Cleaning.DropDuplicates | src/app.py:39 | keeps exactly the rows that are the first occurrence of their cells, in input order, with their labels |
| Cleaning.DropDuplicatesDistinct | src/app.py:39 | no two kept rows have equal cells |
| Cleaning.DropDuplicatesCovers | src/app.py:39 | every input row equals, cell for cell, some kept row |
| Cleaning.DropDuplicatesKeeps | src/app.py:39 | the kept row equal to a given input row can be found by its position |
| Cleaning.DropDuplicatesIsSubsequence | src/app.py:39 | the kept rows are an order-preserving subsequence of the input |
| Cleaning.ResetIndex | src/app.py:39 | the rows are labelled 0 to N-1 and keep their cells |
| Cleaning.Stamp | src/app.py:40 | appends `scraping_date` if there is no such column, or overwrites it otherwise; every date cell is the given day; the number of rows, the labels and every other cell are unchanged |
| Pipeline.Prepare | src/app.py:22-38 | the steps before deduplication give the renamed headers and never more rows than the scraped table |
| Pipeline.Finish | src/app.py:39-40 | deduplicating, renumbering and stamping gives the date column, never more rows, and labels 0 to N-1 |
| Pipeline.CleanTable | src/app.py:22-40 | a cleaned table has the renamed headers with `scraping_date` appended unless present, never more rows than the scraped table, and labels 0 to N-1 |
| Pipeline.CleanTableFailures | src/app.py:34-38 | the pipeline fails exactly when a key column is missing after the rename, with the absent names, or when title or streams is not a single column, with that name |
| Pipeline.CleanTableCleaned | src/app.py:22-40 | a successful run on an extracted table yields `Cleaned`: one title and one streams column, an artist and a date column, string titles and artists, no footnote title, numeric or missing stream counts, every row dated `today`, rows labelled 0 to N-1; without a prior date column, no two rows are equal |
| Pipeline.CleanTableOutcome | src/app.py:22-40 | the failure cases and the `Cleaned` guarantee, for one outcome of the pipeline |
| Pipeline.Clean | src/app.py:22-40 | the step-by-step pipeline computes the same outcome as `CleanTable`, fails exactly in the failure cases, and on an extracted table yields a `Cleaned` table |
| Pipeline.CoercedAfterCoerce | src/app.py:36-38 | after the two filters and coercion, every row has string title and artist, a non-footnote title and a numeric or missing stream count |
| Pipeline.PreparedCoerced | src/app.py:22-38 | every row of a successful `Prepare` on an extracted table has string title and artist, a non-footnote title and a numeric or missing stream count |
| Pipeline.DedupKeepsCoerced | src/app.py:39 | deduplication and renumbering keep only such rows, labelled 0 to N-1, no two equal |
| Pipeline.FinishCleaned | src/app.py:39-40 | deduplicating, renumbering and stamping a coerced table gives a `Cleaned` table, with distinct rows when no date column existed before |
| Pipeline.StampedCells | src/app.py:40 | a stamped coerced row is a clean row dated `today` |
| Pipeline.StampKeepsDistinct | src/app.py:39-40 | appending the same date column to distinct rows keeps them distinct |
| Pipeline.RowSurvives | src/app.py:36-40 | when the pipeline succeeds, every input row with a title, an artist and a stream count and no footnote title appears in the output, stream count coerced and other cells unchanged outside the date column |
| Pipeline.PrepareKeeps | src/app.py:36-38 | such a row survives both filters and is a row of the coerced table |
| Pipeline.FinishKeeps | src/app.py:39-40 | each row of the coerced table has an equal row in the final table, outside the date column |
| Pipeline.StampKeepsCells | src/app.py:40 | stamping keeps each row's cells outside the date column |
| Pipeline.RerunDiffersOnlyInDate | src/app.py:40 | two runs on different days have the same outcome, the same columns, rows and labels, and equal cells outside the date column |
| Pipeline.FinishRerun | src/app.py:39-40 | the last three steps run with two dates give the same columns and labelled rows, with equal cells outside the date column |
| Report.TopRow | src/app.py:60-61 | `idxmax` over the stream counts: none exactly when no cell holds a number; otherwise a position holding a number at least as large as every number, and strictly larger than every number before it |

## Left out

- HTTP fetch and the exit on error (src/app.py:11-17): network I/O.
- `pd.read_html` and `tables[0]` (src/app.py:19-20): a foreign library call. The input is the extracted table as a `Frame`. Where the cell type matters, the lemmas assume `Extracted`: every cell is a string or missing. pandas' own dtype inference is not modelled, nor multi-level or non-string headers.
- SQLite write and read-back (src/app.py:42-56): file and database I/O.
- Sum and mean of the stream counts (src/app.py:58-59): floating-point aggregates. The printing at src/app.py:62-64 is output.
- Report.TopRow: works on positions. pandas' `idxmax` returns an index label, but after `reset_index` label and position coincide, which `Cleaned` states. A table with no number, where pandas raises or returns NaN, is `None`.
- `rank` (src/app.py:85) and all plotting (src/app.py:66-94): floating point and graphics.
- `datetime.utcnow()` (src/app.py:40): a clock read, passed in as `today`.
- Float parsing inside `pd.to_numeric`: kept abstract as `parse`. Numbers are `real`, not IEEE doubles.
- Headers.Lower: maps only the characters whose lower-case form contains a character of `[a-z0-9_]`. These are A-Z, U+212A KELVIN SIGN and U+0130. Other characters are left as they are. That differs from Python's `str.lower()` only in characters the final filter deletes, so `Canonical` is exact. `Lower`'s own contract says only that no ASCII capital is left. The rest is in its lemmas: `LowerOne` gives the lower-case form of each single character, `LowerAppend` shows that strings are lowered character by character in order, and `LowerCounts` counts each character of the result.
- Pipeline.CleanTable: does not model the `AttributeError` that `.str` raises when pandas did not read the title or streams column as strings. That happens for a column with no string in it (all values missing, or all read as numbers). The script then stops at line 37 or 38. The model goes on: a title that is not a string is never flagged and is kept as it is; a stream count that is not a string becomes missing. The cause, pandas' dtype inference in `read_html`, is not part of this model.
- Cleaning.DropNa: when a key name occurs twice among the columns and another key name is absent, pandas raises `IndexError` instead of a `KeyError` listing the absent names. The model reports `MissingColumns` in that case too.
- Text.ContainsIgnoringCase: follows Python's case-insensitive matching for the letters of "as of". That includes U+017F LATIN SMALL LETTER LONG S matching `s`. It is not a full Unicode case-folding model. Its own contract gives one direction only: every exact occurrence is found. For the one word the pipeline searches, `Cleaning.FootnoteExactly` states the set of matching strings exactly.
- Cleaning.IsFootnote: its own contract gives one direction only, that a string containing "as of" is flagged. `Cleaning.FootnoteExactly` gives both directions: exactly the strings in which "as of" stands in some letter case are flagged.
