/** The Keep/Merge segment parser. The text of the input file is cut into
    segments at the exact separator "\n\t\n". Each line of a segment that reads
    `uuid<TAB>label` with label Keep or Merge counts. Every Merge uuid is paired
    with the segment's last Keep uuid, and the pairs are written out as CSV rows
    `merge,keep` under a header. */
module SegmentParser {
  import opened PyText
  import opened TextFiles

  /** The separator between segments. A blank line followed by a line that
      begins with a tab is NOT this separator. */
  const SegmentDelimiter: string := "\n\t\n"

  /** The header line of the CSV output, without its newline. */
  const CsvHeader: string := "individual_uuid" + "," + "individual_uuid_to_merge_into"

  /** What one line of a segment says once it is stripped and split on tabs. */
  datatype LineKind =
    | KeepLine(uuid: string)
    | MergeLine(uuid: string)
      // two fields, but a label that is neither Keep nor Merge
    | OtherLabel(uuid: string, text: string)
      // not exactly two fields: the tuple unpacking raises, and the bare except swallows it
    | Malformed(fields: seq<string>)

  /** The tab-separated fields of a line, as the unpacking `uuid, label = ...`
      and the label test read them. */
  function ReadFields(fields: seq<string>): LineKind
  {
    if |fields| != 2 then Malformed(fields)
    else if fields[1] == "Keep" then KeepLine(fields[0])
    else if fields[1] == "Merge" then MergeLine(fields[0])
    else OtherLabel(fields[0], fields[1])
  }

  /** One line, as the body of the inner loop reads it. */
  function Classify(line: string): LineKind
  {
    ReadFields(Split(Strip(line), "\t"))
  }

  /** The lines of a segment: `segment.strip().split("\n")`. */
  function SegmentLines(segment: string): seq<string>
  {
    Split(Strip(segment), "\n")
  }

  /** What each line says, line by line. */
  function Kinds(lines: seq<string>): (kinds: seq<LineKind>)
    ensures |kinds| == |lines|
  {
    if |lines| == 0 then [] else Kinds(lines[..|lines| - 1]) + [Classify(lines[|lines| - 1])]
  }

  lemma {:induction false} KindsAt(lines: seq<string>, i: nat)
    requires i < |lines|
    ensures Kinds(lines)[i] == Classify(lines[i])
    decreases |lines|
  {
    var n := |lines| - 1;
    if i < n {
      KindsAt(lines[..n], i);
    }
  }

  /** Some line is a valid Keep line. */
  ghost predicate HasKeep(kinds: seq<LineKind>)
  {
    exists j :: 0 <= j < |kinds| && kinds[j].KeepLine?
  }

  /** The value of `keep` after the inner loop has read lines of these kinds. */
  function LastKeep(kinds: seq<LineKind>): string
  {
    if |kinds| == 0 then ""
    else
      match kinds[|kinds| - 1]
      case KeepLine(uuid) => uuid
      case _ => LastKeep(kinds[..|kinds| - 1])
  }

  /** The value of `ms` after the inner loop has read lines of these kinds. */
  function MergeIds(kinds: seq<LineKind>): seq<string>
  {
    if |kinds| == 0 then []
    else
      MergeIds(kinds[..|kinds| - 1])
      + match kinds[|kinds| - 1]
        case MergeLine(uuid) => [uuid]
        case _ => []
  }

  /** `",".join([m, keep])`: the two uuids with a comma between, nothing escaped. */
  function Row(m: string, keep: string): (r: string)
    ensures r == m + "," + keep
  {
    assert [m, keep][1..] == [keep];
    assert Join([keep], ",") == keep;
    Join([m, keep], ",")
  }

  /** One row per Merge uuid, in order, each paired with `keep`. */
  function PairRows(ms: seq<string>, keep: string): seq<string>
  {
    seq(|ms|, i requires 0 <= i < |ms| => Row(ms[i], keep))
  }

  /** The rows the lines of a segment give once they have all been read. */
  function KindRows(kinds: seq<LineKind>): seq<string>
  {
    var keep := LastKeep(kinds);
    if keep == "" then [] else PairRows(MergeIds(kinds), keep)
  }

  /** The rows one segment adds to `result`. */
  function SegmentRows(segment: string): seq<string>
  {
    KindRows(Kinds(SegmentLines(segment)))
  }

  /** The rows each segment adds, segment by segment. */
  function RowGroups(segments: seq<string>): (groups: seq<seq<string>>)
    ensures |groups| == |segments|
  {
    seq(|segments|, k requires 0 <= k < |segments| => SegmentRows(segments[k]))
  }

  /** The groups of rows, one after the other. */
  function Flatten(groups: seq<seq<string>>): seq<string>
  {
    if |groups| == 0 then []
    else Flatten(groups[..|groups| - 1]) + groups[|groups| - 1]
  }

  /** `result` once the whole input text has been parsed. */
  function Rows(text: string): seq<string>
  {
    Flatten(RowGroups(Split(text, SegmentDelimiter)))
  }

  /** The parse loop over the segments: each segment's lines are scanned, and
      when the segment has a Keep uuid its Merge uuids are paired with it and
      appended to `result`. */
  method ParseMergeRows(text: string) returns (result: seq<string>)
    ensures result == Rows(text)
  {
    result := [];
    var segments := Split(text, SegmentDelimiter);
    var s := 0;
    while s < |segments|
      invariant 0 <= s <= |segments|
      invariant result == Flatten(RowGroups(segments[..s]))
    {
      var keep, ms := ScanLines(Split(Strip(segments[s]), "\n"));
      RowsStep(segments, s, keep, ms);
      if keep != "" {
        var rows := PairUp(ms, keep);
        result := result + rows;
      }
      s := s + 1;
    }
    assert segments[..s] == segments;
  }

  /** The loop over the lines of one segment: `keep` is overwritten by every
      Keep line, `ms` appended to by every Merge line, and any other line,
      including one whose unpacking into two fields fails, is passed over. */
  method ScanLines(lines: seq<string>) returns (keep: string, ms: seq<string>)
    ensures keep == LastKeep(Kinds(lines))
    ensures ms == MergeIds(Kinds(lines))
  {
    ms := [];
    keep := "";
    var i := 0;
    while i < |lines|
      invariant 0 <= i <= |lines|
      invariant keep == LastKeep(Kinds(lines[..i]))
      invariant ms == MergeIds(Kinds(lines[..i]))
    {
      KindsSnoc(lines, i);
      ghost var read := Kinds(lines[..i]);
      assert (read + [Classify(lines[i])])[..i] == read;
      var line := Strip(lines[i]);
      var fields := Split(line, "\t");
      assert Classify(lines[i]) == ReadFields(fields);
      if |fields| == 2 {
        var uuid, tag := fields[0], fields[1];
        if tag == "Keep" {
          keep := uuid;
        } else if tag == "Merge" {
          ms := ms + [uuid];
        }
      }
      i := i + 1;
    }
    assert lines[..i] == lines;
  }

  /** The loop that pairs every Merge uuid of a segment with its Keep uuid. */
  method PairUp(ms: seq<string>, keep: string) returns (rows: seq<string>)
    ensures rows == PairRows(ms, keep)
  {
    rows := [];
    var j := 0;
    while j < |ms|
      invariant 0 <= j <= |ms|
      invariant rows == PairRows(ms[..j], keep)
    {
      assert PairRows(ms[..j + 1], keep) == PairRows(ms[..j], keep) + [Row(ms[j], keep)];
      rows := rows + [Join([ms[j], keep], ",")];
      j := j + 1;
    }
    assert ms[..j] == ms;
  }

  /** The rows as lines: each row followed by a newline. */
  function RowLines(rows: seq<string>): string
  {
    if |rows| == 0 then "" else RowLines(rows[..|rows| - 1]) + rows[|rows| - 1] + "\n"
  }

  /** The text of the CSV file: the header line, then one line per row. */
  function CsvText(rows: seq<string>): string
  {
    CsvHeader + "\n" + RowLines(rows)
  }

  /** Writing the CSV file: the header, then each row with a newline. */
  method WriteOutputCsv(rows: seq<string>) returns (file: TextFile)
    ensures fresh(file)
    ensures file.content == CsvText(rows)
  {
    file := new TextFile();
    file.Write(CsvHeader + "\n");
    var i := 0;
    while i < |rows|
      invariant 0 <= i <= |rows|
      invariant file.content == CsvText(rows[..i])
    {
      assert rows[..i + 1][..i] == rows[..i];
      file.Write(rows[i] + "\n");
      i := i + 1;
    }
    assert rows[..i] == rows;
  }

  // ---------------------------------------------------------------------------
  // Properties of the parse

  /** The segments partition the input: joined back with the separator they give
      the text, and no segment holds the separator (nor does any segment end
      where the separator would begin inside it). */
  lemma SegmentsPartitionInput(text: string)
    ensures Join(Split(text, SegmentDelimiter), SegmentDelimiter) == text
    ensures forall k :: 0 <= k < |Split(text, SegmentDelimiter)| ==>
      NoOccurrence(Split(text, SegmentDelimiter)[k], SegmentDelimiter)
  {
    var parts := Split(text, SegmentDelimiter);
    SplitIsSplitOf(text, SegmentDelimiter);
    forall k | 0 <= k < |parts| ensures NoOccurrence(parts[k], SegmentDelimiter) {
      if k < |parts| - 1 {
        forall j | 0 <= j ensures !OccursAt(parts[k], SegmentDelimiter, j) {
          if j + |SegmentDelimiter| <= |parts[k]| {
            PrefixOccurrence(parts[k] + SegmentDelimiter, |parts[k]|, SegmentDelimiter, j);
            assert (parts[k] + SegmentDelimiter)[..|parts[k]|] == parts[k];
          }
        }
      }
    }
  }

  /** Stripped text counts exactly when it holds one tab. */
  lemma StrippedCounts(r: string)
    ensures ReadFields(Split(r, "\t")).Malformed? <==> multiset(r)['\t'] != 1
  {
    assert "\t" == ['\t'];
    SplitOnCharTwo(r, '\t');
  }

  /** Stripped text is a line for `u` with a label free of tabs exactly when it
      is `u`, a tab and the label, with no tab in `u`. */
  lemma StrippedLabel(r: string, u: string, text: string)
    requires '\t' !in text
    ensures Split(r, "\t") == [u, text] <==> r == u + "\t" + text && '\t' !in u
  {
    assert "\t" == ['\t'];
    SplitOnCharPairIff(r, u, text, '\t');
  }

  /** A line counts exactly when its stripped text holds one tab (so an empty
      line, or one with no tab or with several, is passed over); it is a Keep
      (or Merge) line for `u` exactly when its stripped text is `u`, a tab and
      the label "Keep" (or "Merge"), with no tab in `u`. */
  lemma ClassifyFields(line: string, u: string)
    ensures Classify(line).Malformed? <==> multiset(Strip(line))['\t'] != 1
    ensures Classify(line) == KeepLine(u) <==> Strip(line) == u + "\t" + "Keep" && '\t' !in u
    ensures Classify(line) == MergeLine(u) <==> Strip(line) == u + "\t" + "Merge" && '\t' !in u
  {
    var fields := Split(Strip(line), "\t");
    StrippedCounts(Strip(line));
    assert '\t' !in "Keep" && '\t' !in "Merge";
    StrippedLabel(Strip(line), u, "Keep");
    StrippedLabel(Strip(line), u, "Merge");
    assert Classify(line) == KeepLine(u) <==> fields == [u, "Keep"];
    assert Classify(line) == MergeLine(u) <==> fields == [u, "Merge"];
  }

  /** The first of two fields of a text that does not start with whitespace is
      a non-empty piece of that text that does not start with whitespace. */
  lemma StrippedUuid(r: string)
    requires !ReadFields(Split(r, "\t")).Malformed?
    requires r != "" ==> !IsSpace(r[0])
    ensures ReadFields(Split(r, "\t")).uuid != "" && !IsSpace(ReadFields(Split(r, "\t")).uuid[0])
    ensures forall c :: c in ReadFields(Split(r, "\t")).uuid ==> c in r
  {
    var fields := Split(r, "\t");
    SplitOnCharTwo(r, '\t');
    assert "\t" == ['\t'];
    assert r == fields[0] + "\t" + fields[1];
    assert r[0] == if fields[0] == "" then '\t' else fields[0][0];
    assert IsSpace('\t');
    forall c | c in fields[0] ensures c in r {
      SplitChars(r, "\t", 0, c);
    }
  }

  /** The uuid of a counting line is made of characters of the line, is never
      empty and never starts with whitespace: stripping removed any leading tab. */
  lemma ClassifyUuid(line: string)
    requires !Classify(line).Malformed?
    ensures Classify(line).uuid != "" && !IsSpace(Classify(line).uuid[0])
    ensures forall c :: c in Classify(line).uuid ==> c in line
  {
    StripSpec(line);
    StrippedUuid(Strip(line));
    forall c | c in Classify(line).uuid ensures c in line {
      StripChars(line, c);
    }
  }

  /** Every Keep line read has a non-empty uuid. */
  ghost predicate KeepsNamed(kinds: seq<LineKind>)
  {
    forall j :: 0 <= j < |kinds| && kinds[j].KeepLine? ==> kinds[j].uuid != ""
  }

  lemma KindsKeepsNamed(lines: seq<string>)
    ensures KeepsNamed(Kinds(lines))
  {
    var kinds := Kinds(lines);
    forall j | 0 <= j < |kinds| && kinds[j].KeepLine? ensures kinds[j].uuid != "" {
      KindsAt(lines, j);
      ClassifyUuid(lines[j]);
    }
  }

  /** Reading more lines: Merge uuids accumulate in order. */
  lemma {:induction false} MergeIdsConcat(a: seq<LineKind>, b: seq<LineKind>)
    ensures MergeIds(a + b) == MergeIds(a) + MergeIds(b)
    decreases |b|
  {
    if |b| > 0 {
      var n := |b| - 1;
      assert (a + b)[..|a + b| - 1] == a + b[..n];
      MergeIdsConcat(a, b[..n]);
    } else {
      assert a + b == a;
    }
  }

  /** Reading more lines: `keep` is overwritten only by a later Keep line. */
  lemma {:induction false} LastKeepConcat(a: seq<LineKind>, b: seq<LineKind>)
    ensures LastKeep(a + b) == if HasKeep(b) then LastKeep(b) else LastKeep(a)
    decreases |b|
  {
    if |b| > 0 {
      var n := |b| - 1;
      assert (a + b)[..|a + b| - 1] == a + b[..n];
      LastKeepConcat(a, b[..n]);
      if !b[n].KeepLine? {
        assert HasKeep(b) <==> HasKeep(b[..n]) by {
          if HasKeep(b) {
            var j :| 0 <= j < |b| && b[j].KeepLine?;
            assert b[..n][j].KeepLine?;
          }
          if HasKeep(b[..n]) {
            var j :| 0 <= j < n && b[..n][j].KeepLine?;
            assert b[j].KeepLine?;
          }
        }
      }
    } else {
      assert a + b == a;
    }
  }

  /** A line that is malformed or carries another label changes neither `keep`
      nor `ms`, wherever it stands among the lines of a segment. */
  lemma SkippedLineIgnored(a: seq<LineKind>, k: LineKind, b: seq<LineKind>)
    requires !k.KeepLine? && !k.MergeLine?
    ensures LastKeep(a + [k] + b) == LastKeep(a + b)
    ensures MergeIds(a + [k] + b) == MergeIds(a + b)
  {
    LastKeepConcat(a + [k], b);
    LastKeepConcat(a, b);
    MergeIdsConcat(a + [k], b);
    MergeIdsConcat(a, b);
    MergeIdsConcat(a, [k]);
    assert (a + [k])[..|a|] == a;
  }

  /** Last Keep wins: `keep` is the uuid of the last Keep line, and it is
      empty exactly when there is no Keep line. */
  lemma {:induction false} LastKeepWins(kinds: seq<LineKind>)
    requires KeepsNamed(kinds)
    ensures LastKeep(kinds) == "" <==> !HasKeep(kinds)
    ensures forall j :: (0 <= j < |kinds| && kinds[j].KeepLine?
                         && (forall i :: j < i < |kinds| ==> !kinds[i].KeepLine?))
                         ==> LastKeep(kinds) == kinds[j].uuid
    ensures HasKeep(kinds) ==> exists j :: 0 <= j < |kinds| && kinds[j] == KeepLine(LastKeep(kinds))
    decreases |kinds|
  {
    if |kinds| > 0 {
      var n := |kinds| - 1;
      var init := kinds[..n];
      assert KeepsNamed(init) by {
        forall j | 0 <= j < n && init[j].KeepLine? ensures init[j].uuid != "" {
          assert init[j] == kinds[j];
        }
      }
      LastKeepWins(init);
      if kinds[n].KeepLine? {
        assert HasKeep(kinds);
      } else {
        assert HasKeep(kinds) <==> HasKeep(init) by {
          if HasKeep(kinds) {
            var j :| 0 <= j < |kinds| && kinds[j].KeepLine?;
            assert init[j].KeepLine?;
          }
          if HasKeep(init) {
            var j :| 0 <= j < n && init[j].KeepLine?;
            assert kinds[j].KeepLine?;
          }
        }
        forall j | 0 <= j < |kinds| && kinds[j].KeepLine?
          && (forall i :: j < i < |kinds| ==> !kinds[i].KeepLine?)
          ensures LastKeep(kinds) == kinds[j].uuid
        {
          assert j < n;
          assert init[j] == kinds[j];
          assert forall i :: j < i < n ==> init[i] == kinds[i];
        }
        if HasKeep(init) {
          var j :| 0 <= j < n && init[j] == KeepLine(LastKeep(init));
          assert kinds[j] == init[j];
        }
      }
    }
  }

  /** `ms` holds the uuid of every Merge line, and only those; Merge lines
      before the Keep line count as much as those after it. */
  lemma {:induction false} MergeIdsFromLines(kinds: seq<LineKind>, x: string)
    ensures x in MergeIds(kinds) <==> exists j :: 0 <= j < |kinds| && kinds[j] == MergeLine(x)
    decreases |kinds|
  {
    if |kinds| > 0 {
      var n := |kinds| - 1;
      var init := kinds[..n];
      MergeIdsFromLines(init, x);
      if exists j :: 0 <= j < |kinds| && kinds[j] == MergeLine(x) {
        var j :| 0 <= j < |kinds| && kinds[j] == MergeLine(x);
        if j < n {
          assert init[j] == kinds[j];
        }
      }
      if exists j :: 0 <= j < n && init[j] == MergeLine(x) {
        var j :| 0 <= j < n && init[j] == MergeLine(x);
        assert kinds[j] == init[j];
      }
    }
  }

  /** A segment with no Keep line contributes no rows, however many Merge
      lines it has; one with a Keep line contributes one row `m,keep` per
      Merge line, in the order of the Merge lines, duplicates included. */
  lemma SegmentRowsSpec(segment: string)
    ensures !HasKeep(Kinds(SegmentLines(segment))) ==> SegmentRows(segment) == []
    ensures HasKeep(Kinds(SegmentLines(segment))) ==>
      var kinds := Kinds(SegmentLines(segment));
      |SegmentRows(segment)| == |MergeIds(kinds)|
      && forall i :: 0 <= i < |MergeIds(kinds)| ==>
        SegmentRows(segment)[i] == MergeIds(kinds)[i] + "," + LastKeep(kinds)
  {
    KindsKeepsNamed(SegmentLines(segment));
    LastKeepWins(Kinds(SegmentLines(segment)));
  }

  /** Rows come in segment order: the rows of consecutive stretches of
      segments are the rows of the first stretch, then those of the second. */
  lemma {:induction false} FlattenConcat(a: seq<seq<string>>, b: seq<seq<string>>)
    ensures Flatten(a + b) == Flatten(a) + Flatten(b)
    decreases |b|
  {
    if |b| > 0 {
      var n := |b| - 1;
      assert (a + b)[..|a + b| - 1] == a + b[..n];
      FlattenConcat(a, b[..n]);
    } else {
      assert a + b == a;
    }
  }

  /** Every row comes from one group. */
  lemma {:induction false} FlattenFrom(groups: seq<seq<string>>, r: string)
    requires r in Flatten(groups)
    ensures exists k :: 0 <= k < |groups| && r in groups[k]
    decreases |groups|
  {
    var n := |groups| - 1;
    if r !in groups[n] {
      FlattenFrom(groups[..n], r);
      var k :| 0 <= k < n && r in groups[..n][k];
      assert groups[..n][k] == groups[k];
    }
  }

  /** No uuid read from these lines holds `c`. */
  ghost predicate UuidsAvoid(kinds: seq<LineKind>, c: char)
  {
    forall j :: 0 <= j < |kinds| && !kinds[j].Malformed? ==> c !in kinds[j].uuid
  }

  /** A character absent from the lines is absent from every uuid read from them. */
  lemma LinesUuidsAvoid(lines: seq<string>, c: char)
    requires forall k :: 0 <= k < |lines| ==> c !in lines[k]
    ensures UuidsAvoid(Kinds(lines), c)
  {
    var kinds := Kinds(lines);
    forall j | 0 <= j < |kinds| && !kinds[j].Malformed? ensures c !in kinds[j].uuid {
      KindsAt(lines, j);
      ClassifyUuid(lines[j]);
    }
  }

  /** A character other than the comma that no uuid holds is in no row. */
  lemma KindRowsAvoid(kinds: seq<LineKind>, c: char, r: string)
    requires KeepsNamed(kinds) && UuidsAvoid(kinds, c) && c != ','
    requires r in KindRows(kinds)
    ensures c !in r
  {
    var keep := LastKeep(kinds);
    var ms := MergeIds(kinds);
    var i :| 0 <= i < |ms| && r == Row(ms[i], keep);
    LastKeepWins(kinds);
    var jk :| 0 <= jk < |kinds| && kinds[jk] == KeepLine(keep);
    MergeIdsFromLines(kinds, ms[i]);
    var jm :| 0 <= jm < |kinds| && kinds[jm] == MergeLine(ms[i]);
    assert c !in ms[i] && c !in keep;
  }

  /** Reading one more line appends its kind. */
  lemma KindsSnoc(lines: seq<string>, i: nat)
    requires i < |lines|
    ensures Kinds(lines[..i + 1]) == Kinds(lines[..i]) + [Classify(lines[i])]
  {
    assert lines[..i + 1][..i] == lines[..i];
  }

  /** One more segment read: its rows follow those of the segments before it. */
  lemma RowsStep(segments: seq<string>, s: nat, keep: string, ms: seq<string>)
    requires s < |segments|
    requires keep == LastKeep(Kinds(SegmentLines(segments[s])))
    requires ms == MergeIds(Kinds(SegmentLines(segments[s])))
    ensures Flatten(RowGroups(segments[..s + 1]))
      == Flatten(RowGroups(segments[..s])) + if keep == "" then [] else PairRows(ms, keep)
  {
    assert segments[..s + 1] == segments[..s] + [segments[s]];
    RowGroupsSnoc(segments[..s], segments[s]);
    assert Flatten(RowGroups(segments[..s + 1])) == Flatten(RowGroups(segments[..s])) + SegmentRows(segments[s]);
  }

  lemma RowGroupsSnoc(segments: seq<string>, segment: string)
    ensures RowGroups(segments + [segment]) == RowGroups(segments) + [SegmentRows(segment)]
  {
    var a, b := RowGroups(segments + [segment]), RowGroups(segments) + [SegmentRows(segment)];
    forall k | 0 <= k < |a| ensures a[k] == b[k] {
      if k < |segments| {
        assert (segments + [segment])[k] == segments[k];
      }
    }
  }

  /** The lines of a segment hold no newline. */
  lemma SegmentLinesSingle(segment: string)
    ensures forall k :: 0 <= k < |SegmentLines(segment)| ==> '\n' !in SegmentLines(segment)[k]
  {
    assert "\n" == ['\n'];
    SplitOnChar(Strip(segment), '\n');
  }

  /** The rows of one segment hold no newline: both uuids come from one line. */
  lemma SegmentRowsSingleLine(segment: string, r: string)
    requires r in SegmentRows(segment)
    ensures '\n' !in r
  {
    var lines := SegmentLines(segment);
    SegmentLinesSingle(segment);
    LinesUuidsAvoid(lines, '\n');
    KindsKeepsNamed(lines);
    KindRowsAvoid(Kinds(lines), '\n', r);
  }

  /** No row of the parse holds a newline. */
  lemma RowsSingleLine(text: string)
    ensures forall r :: r in Rows(text) ==> '\n' !in r
  {
    forall r | r in Rows(text) ensures '\n' !in r {
      var segments := Split(text, SegmentDelimiter);
      FlattenFrom(RowGroups(segments), r);
      var k :| 0 <= k < |segments| && r in RowGroups(segments)[k];
      SegmentRowsSingleLine(segments[k], r);
    }
  }

  /** The CSV file of a parse has the header line and then exactly one line
      per row, in order, each newline-terminated. */
  lemma CsvLinesOfParse(text: string)
    ensures Split(CsvText(Rows(text)), "\n") == [CsvHeader] + Rows(text) + [""]
    ensures multiset(CsvText(Rows(text)))['\n'] == |Rows(text)| + 1
  {
    RowsSingleLine(text);
    CsvLines(Rows(text));
    CsvNewlineCount(Rows(text));
  }

  // ---------------------------------------------------------------------------
  // Properties of the CSV text

  /** The CSV text is the header and the rows joined by newlines, plus a final newline. */
  lemma {:induction false} CsvTextIsJoin(rows: seq<string>)
    ensures CsvText(rows) == Join([CsvHeader] + rows, "\n") + "\n"
    decreases |rows|
  {
    if |rows| > 0 {
      var n := |rows| - 1;
      CsvTextIsJoin(rows[..n]);
      assert [CsvHeader] + rows == ([CsvHeader] + rows[..n]) + [rows[n]];
      JoinSnoc([CsvHeader] + rows[..n], rows[n], "\n");
    }
  }

  /** Rows without newlines read back from the CSV text exactly, one per line,
      after the header: nothing is lost, split or reordered. */
  lemma CsvLines(rows: seq<string>)
    requires forall r :: r in rows ==> '\n' !in r
    ensures Split(CsvText(rows), "\n") == [CsvHeader] + rows + [""]
  {
    var parts := [CsvHeader] + rows + [""];
    CsvTextIsJoin(rows);
    JoinSnoc([CsvHeader] + rows, "", "\n");
    assert '\n' !in CsvHeader;
    forall k, j | 0 <= k < |parts| - 1 && 0 <= j < |parts[k]|
      ensures !OccursAt(parts[k] + "\n", "\n", j)
    {
      OccursAtChar(parts[k] + "\n", '\n', j);
      if k > 0 {
        assert parts[k] == rows[k - 1];
      }
      assert (parts[k] + "\n")[j] == parts[k][j];
      assert parts[k][j] in parts[k];
    }
    assert NoOccurrence(parts[|parts| - 1], "\n");
    SplitOfIsSplit(parts, CsvText(rows), "\n");
  }

  /** The CSV text has one newline more than it has rows, when no row holds one. */
  lemma CsvNewlineCount(rows: seq<string>)
    requires forall r :: r in rows ==> '\n' !in r
    ensures multiset(CsvText(rows))['\n'] == |rows| + 1
  {
    CsvLines(rows);
    assert "\n" == ['\n'];
    CharCountOfSplit(CsvText(rows), '\n', |rows| + 2);
  }

  /** Commas inside the uuids are not escaped: a row splits on commas into one
      field more than the commas of both uuids, and into exactly the two uuids
      when neither holds a comma. */
  lemma RowFields(m: string, keep: string)
    ensures |Split(Row(m, keep), ",")| == 2 + multiset(m)[','] + multiset(keep)[',']
    ensures ',' !in m && ',' !in keep ==> Split(Row(m, keep), ",") == [m, keep]
  {
    SplitOnChar(Row(m, keep), ',');
    assert multiset(m + "," + keep) == multiset(m) + multiset(",") + multiset(keep);
    if ',' !in m && ',' !in keep {
      SplitOnCharPair(m, keep, ',');
    }
  }
}
