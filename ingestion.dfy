/**
 * The per-file ingestion rules of `process_csv_and_openAI` (t65.py:349-442):
 * which columns play the roles Title, Body and Rating, and what each data row
 * contributes to the upload's result table. The state that the pipeline
 * updates (registry, result tables) lives in module Backend; this module holds
 * the specification of one run over the rows.
 */
module Ingestion {
  import opened Wrappers
  import opened Text
  import opened Reviews
  import opened AnswerParser

  /** One row of an upload's result table: (tbody, status, reason, result). */
  datatype Record = Record(tbody: string, status: string, reason: string, result: string)

  /** A row as `csv.DictReader` yields it: field name to value, None for the
      cells a short row lacks. */
  type Row = map<string, Option<string>>

  /** `row[column]`; DictReader gives every row every field name, and a name
      the map lacks reads as None. */
  function Cell(row: Row, column: string): Option<string> {
    if column in row then row[column] else None
  }

  /** A stored CSV file as `csv.DictReader` sees it: its field names and
      its data rows. */
  datatype CsvFile = CsvFile(fieldnames: seq<string>, rows: seq<Row>)

  /** The column names chosen for the three roles. */
  datatype Roles = Roles(title: string, body: string, rating: string)

  // ---------------------------------------------------------------------------
  // Header resolution (t65.py:353-368)
  // ---------------------------------------------------------------------------

  /** The index of the last column whose lower-cased name is `key`. */
  function LastMatch(columns: seq<string>, key: string): (r: Option<nat>)
    ensures r.Some? ==> r.value < |columns| && Lower(columns[r.value]) == key
    ensures r.Some? ==> forall j :: r.value < j < |columns| ==> Lower(columns[j]) != key
    ensures r.None? <==> forall j :: 0 <= j < |columns| ==> Lower(columns[j]) != key
  {
    if columns == [] then None
    else if Lower(columns[|columns| - 1]) == key then Some(|columns| - 1)
    else LastMatch(columns[..|columns| - 1], key)
  }

  /** The column chosen for a role: the last case-insensitive match. */
  function RoleColumn(columns: seq<string>, key: string): (r: Option<string>)
    ensures r.Some? ==> r.value in columns && Lower(r.value) == key
    ensures r.None? <==> forall j :: 0 <= j < |columns| ==> Lower(columns[j]) != key
  {
    match LastMatch(columns, key)
    case None => None
    case Some(i) => Some(columns[i])
  }

  /** The three roles, or None when any of them has no column. */
  function RolesOf(columns: seq<string>): (r: Option<Roles>)
    ensures r.None? <==>
      RoleColumn(columns, "title").None? || RoleColumn(columns, "body").None? || RoleColumn(columns, "rating").None?
    ensures r.Some? ==>
      && r.value.title in columns && Lower(r.value.title) == "title"
      && r.value.body in columns && Lower(r.value.body) == "body"
      && r.value.rating in columns && Lower(r.value.rating) == "rating"
  {
    match (RoleColumn(columns, "title"), RoleColumn(columns, "body"), RoleColumn(columns, "rating"))
    case (Some(t), Some(b), Some(r)) => Some(Roles(t, b, r))
    case _ => None
  }

  /** The loop of t65.py:357-363 over the field names. */
  method ResolveColumns(fieldnames: seq<string>) returns (title: Option<string>, body: Option<string>, rating: Option<string>)
    ensures title == RoleColumn(fieldnames, "title")
    ensures body == RoleColumn(fieldnames, "body")
    ensures rating == RoleColumn(fieldnames, "rating")
  {
    title, body, rating := None, None, None;
    for i := 0 to |fieldnames|
      invariant title == RoleColumn(fieldnames[..i], "title")
      invariant body == RoleColumn(fieldnames[..i], "body")
      invariant rating == RoleColumn(fieldnames[..i], "rating")
    {
      assert fieldnames[..i + 1][..i] == fieldnames[..i];
      var column := fieldnames[i];
      var lowered := Lower(column);
      if lowered == "title" {
        title := Some(column);
      } else if lowered == "body" {
        body := Some(column);
      } else if lowered == "rating" {
        rating := Some(column);
      }
    }
    assert fieldnames[..|fieldnames|] == fieldnames;
  }

  /** Matching is case-insensitive and the last match wins: a column named
      like the role in any case, with no later such column, is the one chosen. */
  lemma LastCaseInsensitiveMatchWins(columns: seq<string>, key: string, i: nat)
    requires i < |columns| && Lower(columns[i]) == key
    requires forall j :: i < j < |columns| ==> Lower(columns[j]) != key
    ensures RoleColumn(columns, key) == Some(columns[i])
  {
  }

  /** No column fills two roles. */
  lemma RolesAreDistinctColumns(columns: seq<string>)
    requires RolesOf(columns).Some?
    ensures RolesOf(columns).value.title != RolesOf(columns).value.body
    ensures RolesOf(columns).value.title != RolesOf(columns).value.rating
    ensures RolesOf(columns).value.body != RolesOf(columns).value.rating
  {
    var i := LastMatch(columns, "title").value;
    var j := LastMatch(columns, "body").value;
    var k := LastMatch(columns, "rating").value;
    assert Lower(columns[i]) == "title" && Lower(columns[j]) == "body" && Lower(columns[k]) == "rating";
  }

  // ---------------------------------------------------------------------------
  // The row loop (t65.py:374-442)
  // ---------------------------------------------------------------------------

  /** Where a run over the rows stands: the records inserted so far, the
      number of classifier calls made, and whether an exception escaped. */
  datatype Run = Run(records: seq<Record>, calls: nat, aborted: bool)

  /** A rating of exactly "4" or "5" skips the classifier. */
  predicate SkipsClassifier(rating: Option<string>): (b: bool)
    ensures b <==> rating.Some? && |rating.value| == 1 && (rating.value[0] == '4' || rating.value[0] == '5')
  {
    assert rating.Some? && |rating.value| == 1 ==> rating.value == [rating.value[0]];
    rating == Some("4") || rating == Some("5")
  }

  /** The record stored for a skipped (4 or 5 star) review. */
  function NotApplicable(review: string): Record {
    Record(review, "N/A", "N/A", "N/A")
  }

  /** Title and body both present: the only rows that yield a record. */
  predicate HasText(roles: Roles, row: Row): (b: bool)
    ensures b <==> roles.title in row && row[roles.title].Some? && roles.body in row && row[roles.body].Some?
  {
    Cell(row, roles.title).Some? && Cell(row, roles.body).Some?
  }

  function ReviewOf(roles: Roles, row: Row): string
    requires HasText(roles, row)
  {
    ReviewText(Cell(row, roles.title).value, Cell(row, roles.body).value)
  }

  /** A classifier call for `review` whose reply is `reply`: the run ends when
      the call raises or the reply has no second line. */
  function AfterCall(run: Run, review: string, reply: Reply): (r: Run)
    ensures r.calls == run.calls + 1
    ensures r.aborted <==> reply.Raised? || ParseAnswer(reply.text).IndexError?
    ensures r.aborted ==> r.records == run.records
    ensures !r.aborted ==> |r.records| == |run.records| + 1 && r.records[..|run.records|] == run.records
                           && r.records[|run.records|].tbody == review
  {
    match reply
    case Raised => Run(run.records, run.calls + 1, true)
    case Answer(text) =>
      match ParseAnswer(text)
      case IndexError => Run(run.records, run.calls + 1, true)
      case Parsed(v) => Run(run.records + [Record(review, v.status, v.reason, v.result)], run.calls + 1, false)
  }

  /** What one row does to a run that has not aborted. `llm(n, review)` is
      the reply to the n-th classifier call of the run. */
  function Step(run: Run, roles: Roles, row: Row, llm: (nat, string) -> Reply): (r: Run)
    ensures run.calls <= r.calls <= run.calls + 1
    ensures |run.records| <= |r.records| <= |run.records| + 1
  {
    if !HasText(roles, row) then run
    else
      var review := ReviewOf(roles, row);
      if SkipsClassifier(Cell(row, roles.rating)) then run.(records := run.records + [NotApplicable(review)])
      else AfterCall(run, review, llm(run.calls, review))
  }

  /** One step appends at most one record, for the row's own review, and
      makes at most one classifier call. */
  lemma StepShape(run: Run, roles: Roles, row: Row, llm: (nat, string) -> Reply)
    requires !run.aborted
    ensures var after := Step(run, roles, row, llm);
      && after.calls == run.calls + (if HasText(roles, row) && !SkipsClassifier(Cell(row, roles.rating)) then 1 else 0)
      && (after.aborted ==> after.records == run.records)
      && (!after.aborted ==> after.records == run.records + (if HasText(roles, row) then [after.records[|run.records|]] else []))
      && (!after.aborted && HasText(roles, row) ==> after.records[|run.records|].tbody == ReviewOf(roles, row))
  {
  }

  /** The run over `rows` in file order, stopping at the first exception. */
  function RunRows(roles: Roles, rows: seq<Row>, llm: (nat, string) -> Reply): (r: Run)
    ensures r.calls <= |rows| && |r.records| <= |rows|
  {
    if rows == [] then Run([], 0, false)
    else
      var before := RunRows(roles, rows[..|rows| - 1], llm);
      if before.aborted then before else Step(before, roles, rows[|rows| - 1], llm)
  }

  lemma RunRowsSnoc(roles: Roles, rows: seq<Row>, row: Row, llm: (nat, string) -> Reply)
    ensures RunRows(roles, rows + [row], llm)
         == if RunRows(roles, rows, llm).aborted then RunRows(roles, rows, llm)
            else Step(RunRows(roles, rows, llm), roles, row, llm)
  {
    assert (rows + [row])[..|rows|] == rows;
  }

  /** The loop's view of RunRowsSnoc: the run over one more row of the file. */
  lemma RunRowsNext(roles: Roles, rows: seq<Row>, i: nat, llm: (nat, string) -> Reply)
    requires i < |rows|
    ensures RunRows(roles, rows[..i + 1], llm)
         == if RunRows(roles, rows[..i], llm).aborted then RunRows(roles, rows[..i], llm)
            else Step(RunRows(roles, rows[..i], llm), roles, rows[i], llm)
  {
    assert rows[..i + 1] == rows[..i] + [rows[i]];
    RunRowsSnoc(roles, rows[..i], rows[i], llm);
  }

  /** A row with no title or no body yields no record and no classifier call,
      whatever its rating. */
  lemma RowWithoutTextIsSkipped(roles: Roles, rows: seq<Row>, row: Row, llm: (nat, string) -> Reply)
    requires !HasText(roles, row)
    ensures RunRows(roles, rows + [row], llm) == RunRows(roles, rows, llm)
  {
    RunRowsSnoc(roles, rows, row, llm);
  }

  /** A row rated exactly "4" or "5" yields one N/A record and no classifier
      call. */
  lemma HighRatingIsNotClassified(roles: Roles, rows: seq<Row>, row: Row, llm: (nat, string) -> Reply)
    requires HasText(roles, row) && SkipsClassifier(Cell(row, roles.rating))
    requires !RunRows(roles, rows, llm).aborted
    ensures RunRows(roles, rows + [row], llm).records == RunRows(roles, rows, llm).records + [NotApplicable(ReviewOf(roles, row))]
    ensures RunRows(roles, rows + [row], llm).calls == RunRows(roles, rows, llm).calls
    ensures !RunRows(roles, rows + [row], llm).aborted
  {
    RunRowsSnoc(roles, rows, row, llm);
  }

  /** Any other row with text makes exactly one classifier call, for its own
      review, and either yields one record carrying the parsed verdict or ends
      the run. */
  lemma OtherRowIsClassified(roles: Roles, rows: seq<Row>, row: Row, llm: (nat, string) -> Reply)
    requires HasText(roles, row) && !SkipsClassifier(Cell(row, roles.rating))
    requires !RunRows(roles, rows, llm).aborted
    ensures var before, after := RunRows(roles, rows, llm), RunRows(roles, rows + [row], llm);
      var reply := llm(before.calls, ReviewOf(roles, row));
      && after.calls == before.calls + 1
      && (after.aborted <==> reply.Raised? || ParseAnswer(reply.text).IndexError?)
      && (!after.aborted ==>
            var v := ParseAnswer(reply.text).verdict;
            after.records == before.records + [Record(ReviewOf(roles, row), v.status, v.reason, v.result)])
      && (after.aborted ==> after.records == before.records)
  {
    RunRowsSnoc(roles, rows, row, llm);
  }

  /** Once an exception escapes, later rows change nothing. */
  lemma {:induction false} AbortIsFinal(roles: Roles, rows: seq<Row>, k: nat, llm: (nat, string) -> Reply)
    requires k <= |rows| && RunRows(roles, rows[..k], llm).aborted
    ensures RunRows(roles, rows, llm) == RunRows(roles, rows[..k], llm)
    decreases |rows| - k
  {
    if k < |rows| {
      RunRowsSnoc(roles, rows[..k], rows[k], llm);
      assert rows[..k] + [rows[k]] == rows[..k + 1];
      AbortIsFinal(roles, rows, k + 1, llm);
    } else {
      assert rows[..k] == rows;
    }
  }

  /** `a` is a prefix of `b`. */
  predicate Extends(a: seq<Record>, b: seq<Record>) {
    |a| <= |b| && b[..|a|] == a
  }

  /** One more row extends the records and does not lower the call count. */
  lemma OneMoreRow(roles: Roles, rows: seq<Row>, k: nat, llm: (nat, string) -> Reply)
    requires k < |rows|
    ensures Extends(RunRows(roles, rows[..k], llm).records, RunRows(roles, rows[..k + 1], llm).records)
    ensures RunRows(roles, rows[..k], llm).calls <= RunRows(roles, rows[..k + 1], llm).calls
  {
    var before := RunRows(roles, rows[..k], llm);
    assert rows[..k] + [rows[k]] == rows[..k + 1];
    RunRowsSnoc(roles, rows[..k], rows[k], llm);
    if !before.aborted {
      StepShape(before, roles, rows[k], llm);
    }
  }

  /** Records are only ever appended: the records of any prefix of the file
      are a prefix of the records of the whole file. */
  lemma {:induction false} RecordsOnlyGrow(roles: Roles, rows: seq<Row>, k: nat, llm: (nat, string) -> Reply)
    requires k <= |rows|
    ensures Extends(RunRows(roles, rows[..k], llm).records, RunRows(roles, rows, llm).records)
    ensures RunRows(roles, rows[..k], llm).calls <= RunRows(roles, rows, llm).calls
    decreases |rows| - k
  {
    if k < |rows| {
      var prefix := RunRows(roles, rows[..k], llm).records;
      var next := RunRows(roles, rows[..k + 1], llm).records;
      var whole := RunRows(roles, rows, llm).records;
      OneMoreRow(roles, rows, k, llm);
      RecordsOnlyGrow(roles, rows, k + 1, llm);
      assert whole[..|prefix|] == whole[..|next|][..|prefix|];
    } else {
      assert rows[..k] == rows;
    }
  }

  // ---------------------------------------------------------------------------
  // A reference description of a run that completes
  // ---------------------------------------------------------------------------

  /** The review texts of the rows that have a title and a body, in file order. */
  function Reviewed(roles: Roles, rows: seq<Row>): seq<string> {
    if rows == [] then []
    else (if HasText(roles, rows[0]) then [ReviewOf(roles, rows[0])] else []) + Reviewed(roles, rows[1..])
  }

  /** The number of rows that go to the classifier. */
  function ClassifierRows(roles: Roles, rows: seq<Row>): nat {
    if rows == [] then 0
    else (if HasText(roles, rows[0]) && !SkipsClassifier(Cell(rows[0], roles.rating)) then 1 else 0)
         + ClassifierRows(roles, rows[1..])
  }

  function Bodies(records: seq<Record>): seq<string> {
    if records == [] then [] else [records[0].tbody] + Bodies(records[1..])
  }

  lemma BodiesAppend(a: seq<Record>, b: seq<Record>)
    ensures Bodies(a + b) == Bodies(a) + Bodies(b)
  {
    if a == [] {
      assert a + b == b;
    } else {
      assert (a + b)[0] == a[0];
      assert (a + b)[1..] == a[1..] + b;
      BodiesAppend(a[1..], b);
    }
  }

  lemma {:induction false} ReviewedSnoc(roles: Roles, rows: seq<Row>, row: Row)
    ensures Reviewed(roles, rows + [row]) == Reviewed(roles, rows) + (if HasText(roles, row) then [ReviewOf(roles, row)] else [])
    ensures ClassifierRows(roles, rows + [row])
         == ClassifierRows(roles, rows) + (if HasText(roles, row) && !SkipsClassifier(Cell(row, roles.rating)) then 1 else 0)
  {
    if rows == [] {
      assert [] + [row] == [row];
      assert [row][1..] == [];
    } else {
      assert (rows + [row])[1..] == rows[1..] + [row];
      ReviewedSnoc(roles, rows[1..], row);
    }
  }

  /** A step that does not abort adds the row's review to the bodies, if
      the row has text. */
  lemma StepBodies(before: Run, roles: Roles, row: Row, llm: (nat, string) -> Reply)
    requires !before.aborted && !Step(before, roles, row, llm).aborted
    ensures Bodies(Step(before, roles, row, llm).records)
         == Bodies(before.records) + (if HasText(roles, row) then [ReviewOf(roles, row)] else [])
  {
    var after := Step(before, roles, row, llm);
    StepShape(before, roles, row, llm);
    if HasText(roles, row) {
      var added := after.records[|before.records|];
      assert [added][1..] == [];
      BodiesAppend(before.records, [added]);
    }
  }

  /** A run that completes inserts one record per row with a title and a
      body, in file order, and calls the classifier once per such row not
      rated 4 or 5. */
  lemma {:induction false} CompletedRunShape(roles: Roles, rows: seq<Row>, llm: (nat, string) -> Reply)
    requires !RunRows(roles, rows, llm).aborted
    ensures Bodies(RunRows(roles, rows, llm).records) == Reviewed(roles, rows)
    ensures RunRows(roles, rows, llm).calls == ClassifierRows(roles, rows)
  {
    if rows != [] {
      var init, last := rows[..|rows| - 1], rows[|rows| - 1];
      assert rows == init + [last];
      var before := RunRows(roles, init, llm);
      RunRowsSnoc(roles, init, last, llm);
      assert !before.aborted;
      assert RunRows(roles, rows, llm) == Step(before, roles, last, llm);
      CompletedRunShape(roles, init, llm);
      ReviewedSnoc(roles, init, last);
      StepShape(before, roles, last, llm);
      StepBodies(before, roles, last, llm);
    }
  }

  /** The first two rows of the example below. */
  lemma FiveThenTwo(roles: Roles, r1: Row, r2: Row, llm: (nat, string) -> Reply)
    requires HasText(roles, r1) && HasText(roles, r2)
    requires Cell(r1, roles.rating) == Some("5") && Cell(r2, roles.rating) == Some("2")
    requires llm(0, ReviewOf(roles, r2)).Answer? && '\n' in llm(0, ReviewOf(roles, r2)).text
    ensures var run := RunRows(roles, [r1, r2], llm);
      !run.aborted && |run.records| == 2 && run.calls == 1
      && run.records[0] == NotApplicable(ReviewOf(roles, r1)) && run.records[1].tbody == ReviewOf(roles, r2)
  {
    assert [r1] == [] + [r1];
    assert [r1, r2] == [r1] + [r2];
    assert RunRows(roles, [], llm) == Run([], 0, false);
    HighRatingIsNotClassified(roles, [], r1, llm);
    assert RunRows(roles, [r1], llm) == Run([NotApplicable(ReviewOf(roles, r1))], 0, false);
    OtherRowIsClassified(roles, [r1], r2, llm);
  }

  /** Three reviews rated 5, 2 and 3, all with title and body, whose two
      classifier replies have a second line: three records, the first the N/A
      record, and two classifier calls. */
  lemma ThreeRowExample(roles: Roles, r1: Row, r2: Row, r3: Row, llm: (nat, string) -> Reply)
    requires HasText(roles, r1) && HasText(roles, r2) && HasText(roles, r3)
    requires Cell(r1, roles.rating) == Some("5") && Cell(r2, roles.rating) == Some("2") && Cell(r3, roles.rating) == Some("3")
    requires llm(0, ReviewOf(roles, r2)).Answer? && '\n' in llm(0, ReviewOf(roles, r2)).text
    requires llm(1, ReviewOf(roles, r3)).Answer? && '\n' in llm(1, ReviewOf(roles, r3)).text
    ensures var run := RunRows(roles, [r1, r2, r3], llm);
      !run.aborted && |run.records| == 3 && run.calls == 2
      && run.records[0] == NotApplicable(ReviewOf(roles, r1))
      && run.records[1].tbody == ReviewOf(roles, r2) && run.records[2].tbody == ReviewOf(roles, r3)
  {
    assert [r1, r2, r3] == [r1, r2] + [r3];
    FiveThenTwo(roles, r1, r2, llm);
    OtherRowIsClassified(roles, [r1, r2], r3, llm);
  }

  /** A file whose every row has text and is rated 4 or 5 is never sent to
      the classifier: every row becomes an N/A record. */
  lemma {:induction false} AllHighRatings(roles: Roles, rows: seq<Row>, llm: (nat, string) -> Reply)
    requires forall i :: 0 <= i < |rows| ==> HasText(roles, rows[i]) && SkipsClassifier(Cell(rows[i], roles.rating))
    ensures var run := RunRows(roles, rows, llm);
      && !run.aborted && run.calls == 0 && |run.records| == |rows|
      && forall i :: 0 <= i < |rows| ==> run.records[i] == NotApplicable(ReviewOf(roles, rows[i]))
  {
    if rows != [] {
      var init := rows[..|rows| - 1];
      assert rows == init + [rows[|rows| - 1]];
      AllHighRatings(roles, init, llm);
      HighRatingIsNotClassified(roles, init, rows[|rows| - 1], llm);
    }
  }
}
