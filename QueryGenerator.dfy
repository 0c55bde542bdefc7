/** The SQL script generator of `akrsp_4525/generate_query.py`: from the merge
    table (pairs of the uuid to merge away and the uuid it merges into) it
    builds a VALUES list, quoted IN lists of the distinct uuids of each column,
    and writes a script that checks the counts, runs the update inside a
    transaction and, as shipped, rolls it back. */
module QueryGenerator {
  import opened PyText
  import opened Dedup
  import opened TextFiles

  /** One row of the merge table: `individual_uuid` (the individual merged away)
      and `individual_uuid_to_merge_into` (the individual that is kept). */
  datatype MergePair = MergePair(source: string, target: string)

  /** The first column of the table, row by row. */
  function Sources(pairs: seq<MergePair>): (col: seq<string>)
    ensures |col| == |pairs|
  {
    seq(|pairs|, i requires 0 <= i < |pairs| => pairs[i].source)
  }

  /** The second column of the table, row by row. */
  function Targets(pairs: seq<MergePair>): (col: seq<string>)
    ensures |col| == |pairs|
  {
    seq(|pairs|, i requires 0 <= i < |pairs| => pairs[i].target)
  }

  // ---------------------------------------------------------------------
  // The VALUES list of the update query
  // ---------------------------------------------------------------------

  /** What separates two entries of the VALUES list. */
  const ValuesSeparator := ",\n        "

  /** The VALUES entry of one row: `('<source>', '<target>')`. */
  function ValuesEntry(p: MergePair): string
  {
    "('" + p.source + "', '" + p.target + "')"
  }

  /** One VALUES entry per row, in row order. */
  function Entries(pairs: seq<MergePair>): (es: seq<string>)
    ensures |es| == |pairs|
  {
    seq(|pairs|, i requires 0 <= i < |pairs| => ValuesEntry(pairs[i]))
  }

  /** `values_clause`: the entries of all rows joined by the separator. */
  function ValuesClause(pairs: seq<MergePair>): string
  {
    Join(Entries(pairs), ValuesSeparator)
  }

  /** Reads one VALUES entry back into its row. */
  function DecodeEntry(e: string): Option<MergePair>
  {
    var f := Split(e, "'");
    if |f| == 5 && f[0] == "(" && f[2] == ", " && f[4] == ")" then Some(MergePair(f[1], f[3]))
    else None
  }

  /** Reads a sequence of VALUES entries back into rows; fails if any entry is malformed. */
  function DecodeEntries(es: seq<string>): (r: Option<seq<MergePair>>)
    ensures r.Some? ==> |r.value| == |es|
  {
    if |es| == 0 then Some([])
    else
      match (DecodeEntry(es[0]), DecodeEntries(es[1..]))
      case (Some(p), Some(ps)) => Some([p] + ps)
      case _ => None
  }

  /** Reads a VALUES list back into the rows it lists. */
  function ParseValues(clause: string): Option<seq<MergePair>>
  {
    DecodeEntries(Split(clause, ValuesSeparator))
  }

  /** Every uuid of the table avoids the character `c`. */
  ghost predicate UuidsLack(pairs: seq<MergePair>, c: char)
  {
    forall i :: 0 <= i < |pairs| ==> c !in pairs[i].source && c !in pairs[i].target
  }

  /** An entry splits at its quotes into `(`, the source, `, `, the target and `)`,
      so it reads back as its row when neither uuid holds a quote. */
  lemma EntryRoundTrip(p: MergePair)
    requires '\'' !in p.source && '\'' !in p.target
    ensures DecodeEntry(ValuesEntry(p)) == Some(p)
  {
    var q := "'";
    var parts := ["(", p.source, ", ", p.target, ")"];
    assert Join(parts[4..], q) == ")";
    assert Join(parts[3..], q) == p.target + q + ")" by { assert parts[3..][1..] == parts[4..]; }
    assert Join(parts[2..], q) == ", " + q + p.target + q + ")" by { assert parts[2..][1..] == parts[3..]; }
    assert Join(parts[1..], q) == p.source + q + ", " + q + p.target + q + ")" by { assert parts[1..][1..] == parts[2..]; }
    assert Join(parts, q) == ValuesEntry(p);
    SplitJoinMarked(parts, q, 0);
  }

  /** Reading back the entries of a table whose uuids hold no quote gives the table. */
  lemma {:induction false} DecodeEntriesOfTable(pairs: seq<MergePair>)
    requires UuidsLack(pairs, '\'')
    ensures DecodeEntries(Entries(pairs)) == Some(pairs)
    decreases |pairs|
  {
    if |pairs| > 0 {
      EntryRoundTrip(pairs[0]);
      assert Entries(pairs)[1..] == Entries(pairs[1..]);
      DecodeEntriesOfTable(pairs[1..]);
      assert pairs == [pairs[0]] + pairs[1..];
    }
  }

  /** The VALUES list has exactly one entry per row, in row order, duplicates
      included, and the separator cuts it back into those entries, provided no
      uuid holds a line break (the separator's marker). */
  lemma ValuesClauseEntries(pairs: seq<MergePair>)
    requires |pairs| > 0 && UuidsLack(pairs, '\n')
    ensures Split(ValuesClause(pairs), ValuesSeparator) == Entries(pairs)
    ensures forall i :: 0 <= i < |pairs| ==>
      Split(ValuesClause(pairs), ValuesSeparator)[i] == "('" + pairs[i].source + "', '" + pairs[i].target + "')"
  {
    SplitJoinMarked(Entries(pairs), ValuesSeparator, 1);
  }

  /** The VALUES list of a non-empty table whose uuids hold no quote and no line
      break reads back as that table. */
  lemma ValuesRoundTrip(pairs: seq<MergePair>)
    requires |pairs| > 0 && UuidsLack(pairs, '\'') && UuidsLack(pairs, '\n')
    ensures ParseValues(ValuesClause(pairs)) == Some(pairs)
  {
    ValuesClauseEntries(pairs);
    DecodeEntriesOfTable(pairs);
  }

  // ---------------------------------------------------------------------
  // The quoted IN lists
  // ---------------------------------------------------------------------

  /** What separates two uuids inside a quoted IN list. */
  const ListSeparator := "', '"

  /** The f-string `'{"', '".join(xs)}'`: each uuid in single quotes, `, ` between. */
  function QuotedList(xs: seq<string>): string
  {
    "'" + Join(xs, ListSeparator) + "'"
  }

  /** Each value wrapped in single quotes. */
  function Quoted(xs: seq<string>): (qs: seq<string>)
    ensures |qs| == |xs|
  {
    seq(|xs|, i requires 0 <= i < |xs| => "'" + xs[i] + "'")
  }

  /** Reads a quoted IN list back into its uuids. */
  function UnquoteList(s: string): Option<seq<string>>
  {
    if |s| >= 2 && s[0] == '\'' && s[|s| - 1] == '\'' then Some(Split(s[1..|s| - 1], ListSeparator))
    else None
  }

  /** A non-empty quoted list is its values, each in quotes, joined by `, `. */
  lemma {:induction false} QuotedListEach(xs: seq<string>)
    requires |xs| > 0
    ensures QuotedList(xs) == Join(Quoted(xs), ", ")
    decreases |xs|
  {
    if |xs| > 1 {
      var rest := xs[1..];
      QuotedListEach(rest);
      assert Quoted(xs)[1..] == Quoted(rest);
      assert QuotedList(xs) == ("'" + xs[0] + "'") + ", " + QuotedList(rest);
    }
  }

  /** An empty list of values quotes to `''`; a non-empty list whose values hold
      no quote reads back as itself. */
  lemma QuotedListRoundTrip(xs: seq<string>)
    requires forall i :: 0 <= i < |xs| ==> '\'' !in xs[i]
    ensures |xs| == 0 ==> QuotedList(xs) == "''"
    ensures |xs| > 0 ==> UnquoteList(QuotedList(xs)) == Some(xs)
  {
    if |xs| > 0 {
      var s := QuotedList(xs);
      assert s[1..|s| - 1] == Join(xs, ListSeparator);
      SplitJoinMarked(xs, ListSeparator, 0);
    }
  }

  /** The IN list of one column: its distinct values, in order of first occurrence, quoted. */
  function ColumnList(col: seq<string>): string
  {
    QuotedList(Unique(col))
  }

  /** What the IN list of a column lists: for an empty column the literal `''`;
      otherwise, when no value holds a quote, the column's distinct values, each
      exactly once, in the order of their first occurrence in the column. */
  lemma ColumnListSpec(col: seq<string>)
    requires forall i :: 0 <= i < |col| ==> '\'' !in col[i]
    ensures |col| == 0 ==> ColumnList(col) == "''"
    ensures |col| > 0 ==> UnquoteList(ColumnList(col)) == Some(Unique(col))
    ensures forall x :: multiset(Unique(col))[x] == if x in col then 1 else 0
    ensures forall i, j :: 0 <= i < j < |Unique(col)| ==>
      FirstIndex(col, Unique(col)[i]) < FirstIndex(col, Unique(col)[j])
  {
    var u := Unique(col);
    forall i | 0 <= i < |u| ensures '\'' !in u[i] {
      assert u[i] in col;
    }
    QuotedListRoundTrip(u);
    forall x ensures multiset(u)[x] == if x in col then 1 else 0 {
      DistinctCount(u, x);
    }
    UniqueFirstOccurrenceOrder(col);
  }

  /** `uuids_to_be_merged`: the IN list of the first column. */
  function MergedList(pairs: seq<MergePair>): string
  {
    ColumnList(Sources(pairs))
  }

  /** `uuids_to_be_retained`: the IN list of the second column. */
  function RetainedList(pairs: seq<MergePair>): string
  {
    ColumnList(Targets(pairs))
  }

  /** The uuids behind `all_uuids`: the distinct first-column values followed by
      the distinct second-column values, without removing repeats across the two. */
  function AllUuids(pairs: seq<MergePair>): seq<string>
  {
    Unique(Sources(pairs)) + Unique(Targets(pairs))
  }

  /** `all_uuids`: the quoted list of `AllUuids`. */
  function AllList(pairs: seq<MergePair>): string
  {
    QuotedList(AllUuids(pairs))
  }

  /** The combined list is as long as the two distinct lists together, and a uuid
      occurs in it once per column that holds it: twice if it is in both. */
  lemma AllUuidsCount(pairs: seq<MergePair>, x: string)
    ensures |AllUuids(pairs)| == |Unique(Sources(pairs))| + |Unique(Targets(pairs))|
    ensures multiset(AllUuids(pairs))[x] ==
      (if x in Sources(pairs) then 1 else 0) + (if x in Targets(pairs) then 1 else 0)
  {
    DistinctCount(Unique(Sources(pairs)), x);
    DistinctCount(Unique(Targets(pairs)), x);
  }

  /** The combined IN list is `''` for an empty table and otherwise, when no uuid
      holds a quote, reads back as `AllUuids`. */
  lemma AllListSpec(pairs: seq<MergePair>)
    requires UuidsLack(pairs, '\'')
    ensures |pairs| == 0 ==> AllList(pairs) == "''"
    ensures |pairs| > 0 ==> UnquoteList(AllList(pairs)) == Some(AllUuids(pairs))
  {
    var all := AllUuids(pairs);
    forall i | 0 <= i < |all| ensures '\'' !in all[i] {
      if i < |Unique(Sources(pairs))| {
        assert all[i] in Sources(pairs);
      } else {
        assert all[i] in Unique(Targets(pairs));
        assert all[i] in Targets(pairs);
      }
    }
    if |pairs| > 0 {
      assert Sources(pairs)[0] == pairs[0].source;
    }
    QuotedListRoundTrip(all);
  }

  /** The IN lists of the two columns, as `ColumnListSpec` states them. */
  lemma ColumnListsSpec(pairs: seq<MergePair>)
    requires UuidsLack(pairs, '\'')
    ensures |pairs| == 0 ==> MergedList(pairs) == "''" && RetainedList(pairs) == "''"
    ensures |pairs| > 0 ==> UnquoteList(MergedList(pairs)) == Some(Unique(Sources(pairs)))
    ensures |pairs| > 0 ==> UnquoteList(RetainedList(pairs)) == Some(Unique(Targets(pairs)))
  {
    var s, t := Sources(pairs), Targets(pairs);
    assert forall i :: 0 <= i < |s| ==> s[i] == pairs[i].source;
    assert forall i :: 0 <= i < |t| ==> t[i] == pairs[i].target;
    ColumnListSpec(s);
    ColumnListSpec(t);
  }

  // ---------------------------------------------------------------------
  // The query templates
  // ---------------------------------------------------------------------

  /** An f-string query with one placeholder: the text before it and the text after it. */
  datatype Template = Template(head: string, tail: string)

  /** The query with its placeholder filled in. */
  function Fill(t: Template, value: string): string
  {
    t.head + value + t.tail
  }

  /** The four queries of the script. */
  datatype Queries = Queries(mergedCount: Template, retainedCount: Template, update: Template, afterCount: Template)

  /** The `verify_query_before_update1` template, cut at its one placeholder. */
  const MergedCountQuery: Template := Template(
    "\n"
    + "-- total number of encounters that need to be moved\n"
    + "SELECT COUNT(*)\n"
    + "    FROM individual i\n"
    + "             JOIN encounter e ON i.id = e.individual_id\n"
    + "    WHERE i.uuid IN (",
    ")\n"
    + "      AND e.encounter_date_time IS NOT NULL; -- 1275\n")

  /** The `verify_query_before_update2` template, cut at its one placeholder. */
  const RetainedCountQuery: Template := Template(
    "\n"
    + "-- total number of encounters that need to be retained\n"
    + "SELECT COUNT(*)\n"
    + "    FROM individual i\n"
    + "             JOIN encounter e ON i.id = e.individual_id\n"
    + "    WHERE i.uuid IN (",
    ")\n"
    + "      AND e.encounter_date_time IS NOT NULL; -- 437\n")

  /** The `update_query` template, cut at its one placeholder. */
  const UpdateQuery: Template := Template(
    "\n"
    + "-- update query\n"
    + "WITH csv_data(individual_uuid, individual_uuid_to_merge_into) AS (\n"
    + "    VALUES\n"
    + "        ",
    "\n"
    + "),\n"
    + "mapped_data AS (\n"
    + "    SELECT \n"
    + "        ind.id AS individual_id,\n"
    + "        key_ind.id AS merge_into_id,\n"
    + "        ind.uuid AS individual_uuid,\n"
    + "        key_ind.uuid AS merge_into_uuid\n"
    + "    FROM csv_data\n"
    + "    LEFT JOIN individual ind ON ind.uuid = csv_data.individual_uuid\n"
    + "    LEFT JOIN individual key_ind ON key_ind.uuid = csv_data.individual_uuid_to_merge_into\n"
    + ")\n"
    + "INSERT INTO encounter (\n"
    + "    observations,\n"
    + "    encounter_date_time,\n"
    + "    encounter_type_id,\n"
    + "    individual_id,\n"
    + "    uuid,\n"
    + "    version,\n"
    + "    organisation_id,\n"
    + "    is_voided,\n"
    + "    audit_id,\n"
    + "    encounter_location,\n"
    + "    earliest_visit_date_time,\n"
    + "    max_visit_date_time,\n"
    + "    cancel_date_time,\n"
    + "    cancel_observations,\n"
    + "    cancel_location,\n"
    + "    name,\n"
    + "    legacy_id,\n"
    + "    created_by_id,\n"
    + "    last_modified_by_id,\n"
    + "    created_date_time,\n"
    + "    last_modified_date_time,\n"
    + "    address_id,\n"
    + "    sync_concept_1_value,\n"
    + "    sync_concept_2_value,\n"
    + "    manual_update_history,\n"
    + "    filled_by_id\n"
    + ")\n"
    + "SELECT \n"
    + "    e.observations,\n"
    + "    e.encounter_date_time,\n"
    + "    e.encounter_type_id,\n"
    + "    mapped_data.merge_into_id AS individual_id,\n"
    + "    uuid_generate_v4(),\n"
    + "    e.version,\n"
    + "    e.organisation_id,\n"
    + "    e.is_voided,\n"
    + "    e.audit_id,\n"
    + "    e.encounter_location,\n"
    + "    e.earliest_visit_date_time,\n"
    + "    e.max_visit_date_time,\n"
    + "    e.cancel_date_time,\n"
    + "    e.cancel_observations,\n"
    + "    e.cancel_location,\n"
    + "    e.name,\n"
    + "    e.legacy_id,\n"
    + "    e.created_by_id,\n"
    + "    (SELECT id FROM public.users WHERE username = 'beulah@wimc') AS last_modified_by_id,\n"
    + "    e.created_date_time,\n"
    + "    CURRENT_TIMESTAMP + (RANDOM() * 1000 * (INTERVAL '1 millisecond')) AS last_modified_date_time,\n"
    + "    e.address_id,\n"
    + "    e.sync_concept_1_value,\n"
    + "    e.sync_concept_2_value,\n"
    + "    append_manual_update_history(e.manual_update_history, ' | Merge encounters as part of data cleanup | #4525'),\n"
    + "    e.filled_by_id\n"
    + "FROM encounter e\n"
    + "INNER JOIN mapped_data\n"
    + "    ON e.individual_id = mapped_data.individual_id\n"
    + "WHERE e.encounter_date_time IS NOT NULL\n"
    + "  AND e.organisation_id = (SELECT id FROM organisation WHERE name = 'Ward Implementation and Management Committee - AKRSP'); -- 1275 rows affected\n")

  /** The `verify_query_after_update` template, cut at its one placeholder. */
  const AfterCountQuery: Template := Template(
    "\n"
    + "-- total number of encounters after the update\n"
    + "SELECT COUNT(*)\n"
    + "    FROM individual i\n"
    + "             JOIN encounter e ON i.id = e.individual_id\n"
    + "    WHERE i.uuid IN (",
    ")\n"
    + "      AND e.encounter_date_time IS NOT NULL; -- 2987\n")

  /** The queries exactly as the script has them. */
  const SourceQueries := Queries(MergedCountQuery, RetainedCountQuery, UpdateQuery, AfterCountQuery)

  // ---------------------------------------------------------------------
  // The script
  // ---------------------------------------------------------------------

  /** What the first write puts in the file. */
  const Prologue := "SET ROLE wimc;\n\nBEGIN TRANSACTION;"

  /** What every later section is preceded by. */
  const SectionBreak := "\n\n"

  /** The expected number of updated rows, stated as a comment. */
  const UpdatesNote := "-- total updates should be 1275"

  /** The expected count after the update, stated before the last query. */
  const TotalNote := TotalHeading + TotalFormula

  /** The first line of the total note. */
  const TotalHeading := "-- Therefore total encounters after update:\n"

  /** The second line of the total note: how the expected total is made up. */
  const TotalFormula := "select (1275*2) + 437; -- = 2987\n"

  /** The last section: the commit is commented out, the rollback is live. */
  const Epilogue := "-- COMMIT;\n\nROLLBACK;"

  /** The whole file: the prologue, then each section preceded by a blank line, in
      the fixed order count of merged, count of retained, expected updates,
      update, expected total with the count after, commit/rollback. */
  function Script(q: Queries, pairs: seq<MergePair>): string
  {
    Prologue
    + SectionBreak + Fill(q.mergedCount, MergedList(pairs))
    + SectionBreak + Fill(q.retainedCount, RetainedList(pairs))
    + SectionBreak + UpdatesNote
    + SectionBreak + Fill(q.update, ValuesClause(pairs))
    + SectionBreak + TotalNote + Fill(q.afterCount, AllList(pairs))
    + SectionBreak + Epilogue
  }

  /** The script starts with the prologue and ends with the commented-out commit
      and the rollback, whatever the table. */
  lemma ScriptFrame(q: Queries, pairs: seq<MergePair>)
    ensures |Script(q, pairs)| >= |Prologue| + |Epilogue|
    ensures Script(q, pairs)[..|Prologue|] == Prologue
    ensures Script(q, pairs)[|Script(q, pairs)| - |Epilogue|..] == Epilogue
  {
    var b0, b1 := Fill(q.mergedCount, MergedList(pairs)), Fill(q.retainedCount, RetainedList(pairs));
    var b3, b4 := Fill(q.update, ValuesClause(pairs)), Fill(q.afterCount, AllList(pairs));
    var p := Prologue;
    KeepsPrefix(p, SectionBreak, b0, p);
    var x1 := p + SectionBreak + b0;
    KeepsPrefix(x1, SectionBreak, b1, p);
    var x2 := x1 + SectionBreak + b1;
    KeepsPrefix(x2, SectionBreak, UpdatesNote, p);
    var x3 := x2 + SectionBreak + UpdatesNote;
    KeepsPrefix(x3, SectionBreak, b3, p);
    var x4 := x3 + SectionBreak + b3;
    KeepsPrefix(x4, SectionBreak, TotalNote, p);
    var x5 := x4 + SectionBreak + TotalNote;
    KeepsPrefix(x5, b4, SectionBreak, p);
    KeepsPrefix(x5 + b4 + SectionBreak, Epilogue, "", p);
    assert Script(q, pairs) == x5 + b4 + SectionBreak + Epilogue + "";
  }

  /** What starts with `p` still starts with `p` after two more appends. */
  lemma KeepsPrefix(x: string, y: string, z: string, p: string)
    requires |p| <= |x| && x[..|p|] == p
    ensures |p| <= |x + y + z| && (x + y + z)[..|p|] == p
  {
    assert (x + y + z)[..|p|] == x[..|p|];
  }

  /** Computes the lists and writes the script: the file is opened with `"w"` and
      receives the prologue, then opened with `"a"` again and again, each time
      receiving `"\n\n"` and the next section. */
  method WriteQueryScript(q: Queries, pairs: seq<MergePair>) returns (file: TextFile)
    ensures fresh(file)
    ensures file.content == Script(q, pairs)
  {
    var valuesClause := ValuesClause(pairs);
    var merged := MergedList(pairs);
    var beforeMerged := Fill(q.mergedCount, merged);
    var retained := RetainedList(pairs);
    var beforeRetained := Fill(q.retainedCount, retained);
    var update := Fill(q.update, valuesClause);
    var all := AllList(pairs);
    var after := Fill(q.afterCount, all);

    file := new TextFile();
    file.Write(Prologue);
    assert file.content == Prologue;
    file.Write(SectionBreak);
    file.Write(beforeMerged);
    file.Write(SectionBreak);
    file.Write(beforeRetained);
    file.Write(SectionBreak);
    file.Write(UpdatesNote);
    file.Write(SectionBreak);
    file.Write(update);
    file.Write(SectionBreak);
    file.Write(TotalNote);
    file.Write(after);
    file.Write(SectionBreak);
    file.Write(Epilogue);
  }

  /** The script as the source writes it, with its own queries. */
  method GenerateQueryScript(pairs: seq<MergePair>) returns (file: TextFile)
    ensures fresh(file)
    ensures file.content == Script(SourceQueries, pairs)
  {
    file := WriteQueryScript(SourceQueries, pairs);
  }

  // ---------------------------------------------------------------------
  // The only COMMIT is the commented-out one
  // ---------------------------------------------------------------------

  const Commit := "COMMIT"

  /** `s` holds no `COMMIT`. */
  ghost predicate CommitFree(s: string)
  {
    NoOccurrence(s, Commit)
  }

  /** A template without `COMMIT` whose text meets the placeholder at characters
      that `COMMIT` does not hold, so that no `COMMIT` can span a seam. */
  ghost predicate Sealed(t: Template)
  {
    CommitFree(t.head) && CommitFree(t.tail)
    && |t.head| > 0 && t.head[|t.head| - 1] !in Commit
    && |t.tail| > 0 && t.tail[0] !in Commit
  }

  /** Every uuid of the table is free of `COMMIT`. */
  ghost predicate UuidsCommitFree(pairs: seq<MergePair>)
  {
    forall i :: 0 <= i < |pairs| ==> CommitFree(pairs[i].source) && CommitFree(pairs[i].target)
  }

  /** A text lacking the letter `C` holds no `COMMIT`. */
  lemma LacksC(s: string)
    requires 'C' !in s
    ensures CommitFree(s)
  {
    assert Commit[0] == 'C';
    forall j | 0 <= j ensures !OccursAt(s, Commit, j) {
      MissingCharNoOccurrence(s, Commit, 0, j);
    }
  }

  /** A text lacking the letter `M` holds no `COMMIT`. */
  lemma LacksM(s: string)
    requires 'M' !in s
    ensures CommitFree(s)
  {
    assert Commit[2] == 'M';
    forall j | 0 <= j ensures !OccursAt(s, Commit, j) {
      MissingCharNoOccurrence(s, Commit, 2, j);
    }
  }

  /** A quoted list of `COMMIT`-free values is `COMMIT`-free. */
  lemma QuotedListCommitFree(xs: seq<string>)
    requires forall i :: 0 <= i < |xs| ==> CommitFree(xs[i])
    ensures CommitFree(QuotedList(xs))
  {
    LacksC(ListSeparator);
    LacksC("'");
    JoinNoOccurrence(xs, ListSeparator, Commit);
    NoOccurrenceConcat("'", Join(xs, ListSeparator), Commit);
    NoOccurrenceConcat("'" + Join(xs, ListSeparator), "'", Commit);
  }

  /** The IN list of a column of `COMMIT`-free values is `COMMIT`-free. */
  lemma ColumnListCommitFree(col: seq<string>)
    requires forall i :: 0 <= i < |col| ==> CommitFree(col[i])
    ensures CommitFree(ColumnList(col))
  {
    var u := Unique(col);
    forall i | 0 <= i < |u| ensures CommitFree(u[i]) {
      assert u[i] in col;
    }
    QuotedListCommitFree(u);
  }

  /** A VALUES entry of `COMMIT`-free uuids is `COMMIT`-free. */
  lemma EntryCommitFree(p: MergePair)
    requires CommitFree(p.source) && CommitFree(p.target)
    ensures CommitFree(ValuesEntry(p))
  {
    var open, mid, close := "('", "', '", "')";
    LacksC(open);
    LacksC(mid);
    LacksC(close);
    NoOccurrenceConcat(open, p.source, Commit);
    NoOccurrenceConcat(open + p.source, mid, Commit);
    NoOccurrenceConcat(open + p.source + mid, p.target, Commit);
    NoOccurrenceConcat(open + p.source + mid + p.target, close, Commit);
  }

  /** The VALUES list of a table of `COMMIT`-free uuids is `COMMIT`-free. */
  lemma ValuesCommitFree(pairs: seq<MergePair>)
    requires UuidsCommitFree(pairs)
    ensures CommitFree(ValuesClause(pairs))
  {
    var es := Entries(pairs);
    forall i | 0 <= i < |es| ensures CommitFree(es[i]) {
      EntryCommitFree(pairs[i]);
    }
    LacksC(ValuesSeparator);
    JoinNoOccurrence(es, ValuesSeparator, Commit);
  }

  /** A sealed template filled with a `COMMIT`-free value is `COMMIT`-free. */
  lemma FillCommitFree(t: Template, value: string)
    requires Sealed(t) && CommitFree(value)
    ensures CommitFree(Fill(t, value))
  {
    NoOccurrenceConcat(t.head, value, Commit);
    NoOccurrenceConcat(t.head + value, t.tail, Commit);
  }

  /** The commented-out commit holds `COMMIT` at one place only: after `-- `. */
  lemma EpilogueCommit(j: int)
    ensures OccursAt(Epilogue, Commit, j) <==> j == 3
  {
    var rest := ";\n\nROLLBACK;";
    assert Epilogue == "-- " + (Commit + rest);
    LacksC("-- ");
    LacksM(rest);
    OccursInConcat("-- ", Commit + rest, Commit, j);
    OccursInConcat(Commit, rest, Commit, j - 3);
  }

  /** Two `COMMIT`-free texts with a blank line between them are `COMMIT`-free. */
  lemma BreakCommitFree(x: string, y: string)
    requires CommitFree(x) && CommitFree(y)
    ensures CommitFree(x + SectionBreak + y)
  {
    LacksC(SectionBreak);
    NoOccurrenceConcat(x, SectionBreak, Commit);
    assert (x + SectionBreak)[|x + SectionBreak| - 1] == '\n';
    NoOccurrenceConcat(x + SectionBreak, y, Commit);
  }

  /** The prologue holds no `COMMIT`. */
  lemma PrologueCommitFree()
    ensures CommitFree(Prologue)
  {
    LacksM(Prologue);
  }

  /** The updates note holds no `COMMIT`. */
  lemma UpdatesNoteCommitFree()
    ensures CommitFree(UpdatesNote)
  {
    LacksC(UpdatesNote);
  }

  /** The first line of the total note holds no `COMMIT`. */
  lemma HeadingCommitFree()
    ensures CommitFree(TotalHeading)
  {
    LacksC(TotalHeading);
  }

  /** The second line of the total note holds no `COMMIT`. */
  lemma FormulaCommitFree()
    ensures CommitFree(TotalFormula)
  {
    LacksC(TotalFormula);
  }

  /** Both lines of the total note end with a line break. */
  lemma TotalNoteEnds()
    ensures TotalHeading[|TotalHeading| - 1] == '\n'
    ensures TotalNote[|TotalNote| - 1] == '\n'
  {
  }

  /** The total note holds no `COMMIT` and ends with a line break. */
  lemma TotalNoteCommitFree()
    ensures CommitFree(TotalNote) && |TotalNote| > 0 && TotalNote[|TotalNote| - 1] == '\n'
  {
    HeadingCommitFree();
    FormulaCommitFree();
    TotalNoteEnds();
    NoOccurrenceConcat(TotalHeading, TotalFormula, Commit);
  }

  /** The total note and a `COMMIT`-free text after a `COMMIT`-free text and a
      blank line are `COMMIT`-free. */
  lemma NoteCommitFree(x: string, y: string)
    requires CommitFree(x) && CommitFree(y)
    ensures CommitFree(x + SectionBreak + TotalNote + y)
  {
    TotalNoteCommitFree();
    BreakCommitFree(x, TotalNote);
    var z := x + SectionBreak + TotalNote;
    assert z[|z| - 1] == TotalNote[|TotalNote| - 1];
    NoOccurrenceConcat(z, y, Commit);
  }

  /** After a `COMMIT`-free text and a blank line, the epilogue adds exactly one
      `COMMIT`, three characters into it. */
  lemma EpilogueOnly(x: string, j: int)
    requires CommitFree(x)
    ensures OccursAt(x + SectionBreak + Epilogue, Commit, j) <==> j == |x| + |SectionBreak| + 3
  {
    LacksC(SectionBreak);
    NoOccurrenceConcat(x, SectionBreak, Commit);
    var z := x + SectionBreak;
    assert z[|z| - 1] == '\n';
    OccursInConcat(z, Epilogue, Commit, j);
    EpilogueCommit(j - |z|);
  }

  /** The text of the four filled queries is `COMMIT`-free when the queries are
      sealed and the uuids are. */
  lemma FilledCommitFree(q: Queries, pairs: seq<MergePair>)
    requires Sealed(q.mergedCount) && Sealed(q.retainedCount) && Sealed(q.update) && Sealed(q.afterCount)
    requires UuidsCommitFree(pairs)
    ensures CommitFree(Fill(q.mergedCount, MergedList(pairs)))
    ensures CommitFree(Fill(q.retainedCount, RetainedList(pairs)))
    ensures CommitFree(Fill(q.update, ValuesClause(pairs)))
    ensures CommitFree(Fill(q.afterCount, AllList(pairs)))
  {
    var src, tgt := Sources(pairs), Targets(pairs);
    assert forall i :: 0 <= i < |src| ==> src[i] == pairs[i].source;
    assert forall i :: 0 <= i < |tgt| ==> tgt[i] == pairs[i].target;
    ColumnListCommitFree(src);
    ColumnListCommitFree(tgt);
    var all := AllUuids(pairs);
    forall i | 0 <= i < |all| ensures CommitFree(all[i]) {
      if i < |Unique(src)| {
        assert all[i] in src;
      } else {
        assert all[i] in Unique(tgt);
        assert all[i] in tgt;
      }
    }
    QuotedListCommitFree(all);
    ValuesCommitFree(pairs);
    FillCommitFree(q.mergedCount, MergedList(pairs));
    FillCommitFree(q.retainedCount, RetainedList(pairs));
    FillCommitFree(q.update, ValuesClause(pairs));
    FillCommitFree(q.afterCount, AllList(pairs));
  }

  /** With sealed queries and `COMMIT`-free uuids, the only `COMMIT` in the
      script is the commented-out one in its last line. */
  lemma OnlyCommitInComment(q: Queries, pairs: seq<MergePair>)
    requires Sealed(q.mergedCount) && Sealed(q.retainedCount) && Sealed(q.update) && Sealed(q.afterCount)
    requires UuidsCommitFree(pairs)
    ensures forall j :: OccursAt(Script(q, pairs), Commit, j) <==>
      j == |Script(q, pairs)| - |Epilogue| + 3
  {
    var b0, b1 := Fill(q.mergedCount, MergedList(pairs)), Fill(q.retainedCount, RetainedList(pairs));
    var b3, b4 := Fill(q.update, ValuesClause(pairs)), Fill(q.afterCount, AllList(pairs));
    FilledCommitFree(q, pairs);
    PrologueCommitFree();
    UpdatesNoteCommitFree();
    var x1 := Prologue + SectionBreak + b0;
    BreakCommitFree(Prologue, b0);
    var x2 := x1 + SectionBreak + b1;
    BreakCommitFree(x1, b1);
    var x3 := x2 + SectionBreak + UpdatesNote;
    BreakCommitFree(x2, UpdatesNote);
    var x4 := x3 + SectionBreak + b3;
    BreakCommitFree(x3, b3);
    var x5 := x4 + SectionBreak + TotalNote + b4;
    NoteCommitFree(x4, b4);
    assert Script(q, pairs) == x5 + SectionBreak + Epilogue;
    forall j ensures OccursAt(Script(q, pairs), Commit, j) <==> j == |x5| + |SectionBreak| + 3 {
      EpilogueOnly(x5, j);
    }
  }
}
