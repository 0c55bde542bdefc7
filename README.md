# Keep/Merge parser and merge-script generator, modelled in Dafny

Two small batch transforms from a clean-up of duplicate individuals.

- `a.py` reads a text export of duplicate groups. Segments are separated by
  the exact text `"\n\t\n"`. Every line of a segment is `uuid<TAB>label`, and
  the label is `Keep` or `Merge`. For each segment that has a Keep line, the
  script emits one `merge_uuid,keep_uuid` row per Merge line, pairing it with
  the uuid of the segment's last Keep line. It writes these rows, under a
  header, to a CSV file.
- `akrsp_4525/generate_query.py` takes that table of pairs and builds three
  texts:
  - a SQL `VALUES` list with one entry per row;
  - a quoted `IN` list of the distinct uuids of each column, in order of
    first occurrence, as `pandas.unique` returns them;
  - a combined list that puts the two distinct lists one after the other.

  It then appends a fixed series of sections to a script file. The file
  opens with `SET ROLE` and `BEGIN TRANSACTION`, runs count queries and the
  update, and ends with a commented-out `COMMIT` and a live `ROLLBACK`.

Modules:

- `PyText`: the Python `str` operations the scripts use, with their exact
  semantics. It covers `isspace`, `strip`, `find`, `split` and `join`, and
  characterises `split` as the unique left-to-right cut of its input.
- `Dedup`: `Series.unique()` on a column of strings, that is, the distinct
  values in order of first occurrence.
- `TextFiles`: a text file being written, as a class whose `content` the
  `Write` method appends to. `open(..., "w")` is the constructor. Re-opening
  with `"a"` keeps the content, so it needs no operation of its own.
- `SegmentParser` (`a.py`) has two layers:
  - the parse as specification functions, `Rows` and `CsvText`;
  - the script's loops as methods proved against them. `ParseMergeRows` is
    the segment loop. `ScanLines` is the line loop, with `keep` overwritten
    and `ms` appended. `PairUp` is the row emission loop. `WriteOutputCsv`
    writes the CSV file.
- `QueryGenerator` (`generate_query.py`) also has two layers:
  - the values clause, the IN lists and the query templates as functions;
  - the sequence of appends to the script file as a method,
    `WriteQueryScript`.

  The SQL text of the four f-string queries is held as constant templates,
  each cut at its single placeholder.

Where the description of `a.py` and its code differ, this model follows the
code. Segments are split only at the exact three characters `"\n\t\n"`. A
blank line followed by a line that begins with a tab does not start a new
segment. So the input `"id1\tKeep\nid2\tMerge\nid3\tMerge\n\n\tid4\tKeep\nid5\tMerge"`
is a single segment. Its last Keep line (`id4`) is paired with all three
Merge lines: `id2,id4`, `id3,id4` and `id5,id4`.

## Model

| member | source | states |
|---|---|---|
| SegmentParser.ParseMergeRows | a.py:8-33 | the rows produced by the nested segment and line loops equal `Rows(text)`: segments in input order, each contributing its own rows |
| SegmentParser.ScanLines | a.py:16-26 | after the line loop, `keep` is the uuid of the last well-formed Keep line and `ms` lists the uuids of the well-formed Merge lines, in line order |
| SegmentParser.PairUp | a.py:30-31 | one row `m,keep` for each collected Merge uuid, in order, duplicates included |
| SegmentParser.WriteOutputCsv | a.py:39-42 | the CSV file holds the header, a line break, and then each row followed by a line break |
| SegmentParser.SegmentsPartitionInput | a.py:8 | the segments joined with `"\n\t\n"` give back the input exactly, and no segment contains the delimiter |
| SegmentParser.StrippedCounts | a.py:17-19 | a stripped line is skipped as malformed exactly when it does not hold exactly one tab |
| SegmentParser.StrippedLabel | a.py:19 | the two-field unpacking yields `(u, label)` exactly when the stripped line is `u`, a tab and the label, with no tab in `u` |
| SegmentParser.ClassifyFields | a.py:17-23 | a line is malformed iff its stripped text lacks exactly one tab; it is a Keep (Merge) line for `u` iff its stripped text is `u`, a tab and exactly `Keep` (`Merge`) |
| SegmentParser.StrippedUuid | a.py:17-19 | the uuid of a well-formed stripped line is non-empty, does not start with whitespace and consists of the line's characters |
| SegmentParser.ClassifyUuid | a.py:17-19 | the uuid read from any well-formed line is non-empty, does not start with whitespace and is made of the line's characters |
| SegmentParser.KindsKeepsNamed | a.py:19-21 | every Keep line that is read carries a non-empty uuid, so once a Keep has been seen `keep != ""` |
| SegmentParser.MergeIdsConcat | a.py:22-23 | the Merge uuids of two consecutive runs of lines are those of the first run followed by those of the second |
| SegmentParser.LastKeepConcat | a.py:20-21 | over two consecutive runs of lines, `keep` ends as the second run's last Keep if that run has one, and otherwise as the first run's |
| SegmentParser.SkippedLineIgnored | a.py:20-26 | a line that is malformed or has any label other than `Keep` or `Merge` changes neither `keep` nor `ms` |
| SegmentParser.LastKeepWins | a.py:12-21 | `keep` stays `""` iff no Keep line occurs; otherwise it is the uuid of the last Keep line, which is one of the segment's Keep lines |
| SegmentParser.MergeIdsFromLines | a.py:22-23 | a uuid is in `ms` iff some line of the segment is a Merge line for it, whether before or after the Keep |
| SegmentParser.SegmentRowsSpec | a.py:28-33 | a segment without a Keep line yields no rows; a segment with one yields exactly `len(ms)` rows, row `i` being `ms[i] + "," + keep` |
| SegmentParser.FlattenConcat | a.py:30-31 | appending the rows of more segments appends their rows after the rows already collected |
| SegmentParser.FlattenFrom | a.py:31 | every output row comes from one of the segments |
| SegmentParser.LinesUuidsAvoid | a.py:13-19 | a character absent from every line is absent from every uuid read from those lines |
| SegmentParser.KindRowsAvoid | a.py:28-31 | a character other than a comma that no uuid holds is absent from every row of the segment |
| SegmentParser.SegmentLinesSingle | a.py:13-14 | no line of a segment contains a line break |
| SegmentParser.SegmentRowsSingleLine | a.py:28-31 | no row of a segment contains a line break |
| SegmentParser.RowsSingleLine | a.py:8-31 | no output row contains a line break, so each row is one CSV line |
| SegmentParser.CsvLinesOfParse | a.py:39-42 | the CSV text of the parse splits at line breaks into the header, the rows in order and a final empty piece, and holds `1 + len(result)` line breaks |
| SegmentParser.CsvTextIsJoin | a.py:40-42 | the CSV text is the header and the rows joined by line breaks, plus a final line break |
| SegmentParser.CsvLines | a.py:40-42 | for rows without line breaks, the CSV text splits back into the header, the rows and an empty last piece |
| SegmentParser.CsvNewlineCount | a.py:40-42 | for rows without line breaks, the CSV text holds exactly one line break more than there are rows |
| SegmentParser.RowFields | a.py:31 | a row splits at commas into two fields plus one per comma inside the uuids (commas are not escaped), and into exactly `[m, keep]` when neither uuid has a comma |
| PyText.StripSpec | a.py:13 | `strip()` removes exactly the leading and trailing whitespace: it keeps a contiguous middle part, that part has no whitespace at either end, and it is empty iff the input is all whitespace |
| PyText.StripChars | a.py:17 | every character of a stripped text is a character of the original |
| PyText.FindFromSpec | a.py:8 | `find` returns the first occurrence at or after the start index, or reports that there is none |
| PyText.SplitIsSplitOf | a.py:8 | `split(w)` cuts its input at every occurrence of `w`, from left to right and without overlaps; the pieces joined with `w` give the input back |
| PyText.SplitOfIsSplit | a.py:8 | such a left-to-right cut is unique, so any sequence of pieces with those properties is `split(w)` |
| PyText.SplitOnChar | a.py:19 | splitting at a single character gives one piece more than the character's number of occurrences, and no piece holds it |
| PyText.SplitOnCharTwo | a.py:19 | splitting at a character gives two fields iff it occurs exactly once, and the text is then the first field, the character and the second field |
| PyText.SplitOnCharPairIff | a.py:19 | splitting at a character gives exactly `[a, b]` iff the text is `a`, the character and `b`, with neither field holding it |
| PyText.CharCountOfSplit | a.py:14 | a text that splits at a character into `n` pieces holds that character `n - 1` times |
| PyText.SplitJoinMarked | akrsp_4525/generate_query.py:8-11 | parts joined by a separator split back into those parts when none of them holds a marker character of the separator |
| Dedup.Unique | akrsp_4525/generate_query.py:13 | `unique` keeps exactly the values of the column, has no repeats, and is no longer than the column |
| Dedup.UniqueFirstOccurrenceOrder | akrsp_4525/generate_query.py:13 | `unique` lists the values in the order of their first occurrences |
| Dedup.DistinctCount | akrsp_4525/generate_query.py:13 | in a list without repeats every member occurs exactly once |
| TextFiles.TextFile.constructor | akrsp_4525/generate_query.py:131 | opening with `"w"` leaves the file empty |
| TextFiles.TextFile.Write | akrsp_4525/generate_query.py:135-136 | a write appends its text to what the file already holds |
| QueryGenerator.EntryRoundTrip | akrsp_4525/generate_query.py:9 | a VALUES entry `('<m>', '<k>')` reads back as its row when neither uuid holds a quote |
| QueryGenerator.DecodeEntriesOfTable | akrsp_4525/generate_query.py:8-11 | the entries of a table whose uuids hold no quote read back as the table |
| QueryGenerator.ValuesClauseEntries | akrsp_4525/generate_query.py:8-11 | the VALUES list cuts at `",\n        "` into exactly one entry per row, in row order and with duplicates kept; entry `i` is `('<source_i>', '<target_i>')` |
| QueryGenerator.ValuesRoundTrip | akrsp_4525/generate_query.py:8-11 | the VALUES list of a non-empty table whose uuids hold no quote and no line break reads back as that table |
| QueryGenerator.QuotedListEach | akrsp_4525/generate_query.py:13-14 | a non-empty IN list is each value in single quotes, joined by `", "` |
| QueryGenerator.QuotedListRoundTrip | akrsp_4525/generate_query.py:13-14 | an empty list quotes to `''`; a non-empty list of quote-free values reads back as itself |
| QueryGenerator.ColumnListSpec | akrsp_4525/generate_query.py:13-14 | a column's IN list is `''` when the column is empty; otherwise it lists each distinct value exactly once, in order of first occurrence |
| QueryGenerator.ColumnListsSpec | akrsp_4525/generate_query.py:13-26 | the merged list is the first column's distinct values and the retained list is the second column's; both are `''` for an empty table |
| QueryGenerator.AllUuidsCount | akrsp_4525/generate_query.py:115 | the combined list is as long as the two distinct lists together, and a uuid occurs in it once per column that holds it, which is twice if both do |
| QueryGenerator.AllListSpec | akrsp_4525/generate_query.py:115-118 | the combined IN list is `''` for an empty table and otherwise reads back as the first column's distinct values followed by the second column's |
| QueryGenerator.ScriptFrame | akrsp_4525/generate_query.py:131-157 | whatever the table, the script starts with `SET ROLE wimc;\n\nBEGIN TRANSACTION;` and ends with `-- COMMIT;\n\nROLLBACK;` |
| QueryGenerator.WriteQueryScript | akrsp_4525/generate_query.py:131-157 | the sequence of writes leaves the file holding `Script`: the prologue, then each section preceded by `"\n\n"` in the fixed order |
| QueryGenerator.GenerateQueryScript | akrsp_4525/generate_query.py:129-157 | the file written with the source's own four queries holds `Script(SourceQueries, pairs)` |
| QueryGenerator.EpilogueCommit | akrsp_4525/generate_query.py:157 | the last section holds `COMMIT` at exactly one place, right after `-- `, that is, inside the comment |
| QueryGenerator.FillCommitFree | akrsp_4525/generate_query.py:16-23 | filling a template that has no `COMMIT` with a `COMMIT`-free list gives text without `COMMIT` |
| QueryGenerator.ValuesCommitFree | akrsp_4525/generate_query.py:8-11 | the VALUES list of `COMMIT`-free uuids holds no `COMMIT` |
| QueryGenerator.QuotedListCommitFree | akrsp_4525/generate_query.py:13-14 | a quoted list of `COMMIT`-free uuids holds no `COMMIT` |
| QueryGenerator.OnlyCommitInComment | akrsp_4525/generate_query.py:131-157 | the only `COMMIT` in the script is the commented-out one, three characters into the last section |

## Left out

- Reading `data.txt`, and the `FileNotFoundError` branch that prints and exits (a.py:1, 5-7, 35-37): the file's text is the parameter of `ParseMergeRows`, and a missing file is not modelled.
- The file names `output.csv` and `query.sql` are not modelled. Files are `TextFile` objects that the writing methods return.
- Python's text-mode newline translation on reading and writing is not modelled: `\r\n` could arrive in a file and is not treated specially.
- Diagnostic `print` calls (a.py:9, 26, 29, 33; generate_query.py:159): they do not affect the output files.
- `pd.read_csv` turning `output.csv` back into a table is library code and is not modelled. The generator takes the parsed table as a sequence of `MergePair`s. `SegmentParser.RowFields` shows what the CSV rows split into.
- `np.concatenate` is modelled as sequence concatenation of the two distinct lists.
- Missing cells (`NaN`), which `pandas.unique` would treat as values, are not modelled.
- The meaning of the SQL (joins, `uuid_generate_v4()`, `RANDOM()`, `CURRENT_TIMESTAMP`, the organisation filter) is not modelled. The queries are constant text.
- The expected figures 1275, 437 and 2987 have no lemma of their own. They are part of the constants `UpdatesNote`, `TotalNote` and the query templates, none of which takes the table as an argument.
- The VALUES list of an empty table is empty, which gives an update query with no rows. This is what the code does, and it is not treated as an error.
- OnlyCommitInComment: takes as hypotheses that the four query templates hold no `COMMIT` and that each meets its placeholder at a character that is not a letter of `COMMIT` (`Sealed`). The source's templates are not proved to meet this, because checking letter membership across their 2000-plus characters of constant text is beyond what the verifier does within its resource budget. It also assumes the uuids hold no `COMMIT`; a uuid that did would put one in the script.
- ValuesRoundTrip, QuotedListRoundTrip, ColumnListSpec, ColumnListsSpec and AllListSpec: the reading-back direction holds only for uuids without single quotes (and, for the VALUES list, without line breaks), because the source does not escape them.
