/**
 * The batch script cloud_storage_reader.py: read a CSV file's rows, find the
 * columns Title, Body, gpt_status and gpt_reason in its header, classify each
 * row's review and append (review, status, reason) to the `analysis` table.
 * The file is given as its rows of cells; the classifier as `llm(i, review)`,
 * the reply for the i-th data row.
 */
module CloudReader {
  import opened Wrappers
  import opened Text
  import opened Reviews

  /** The columns the script needs, in the order it unpacks them. */
  const Wanted: seq<string> := ["Title", "Body", "gpt_status", "gpt_reason"]

  // ---------------------------------------------------------------------------
  // header.index (cloud_storage_reader.py:65)
  // ---------------------------------------------------------------------------

  /** `header.index(name)`: the first exact match, None where Python raises
      ValueError. */
  function IndexOf(header: seq<string>, name: string): (r: Option<nat>)
    ensures r.Some? ==> r.value < |header| && header[r.value] == name
    ensures r.Some? ==> forall j :: 0 <= j < r.value ==> header[j] != name
    ensures r.None? <==> name !in header
  {
    if header == [] then None
    else if header[0] == name then Some(0)
    else match IndexOf(header[1..], name)
      case None => None
      case Some(i) => Some(i + 1)
  }

  /** `[header.index(c) for c in names]`: the first name missing from the
      header raises, and is the error. */
  function ColumnIndices(header: seq<string>, names: seq<string>): (r: Result<seq<nat>, string>)
    ensures r.Ok? <==> forall k :: 0 <= k < |names| ==> names[k] in header
    ensures r.Ok? ==> |r.value| == |names|
    ensures r.Ok? ==> forall k :: 0 <= k < |names| ==> r.value[k] < |header| && header[r.value[k]] == names[k]
    ensures r.Ok? ==> forall k, j :: 0 <= k < |names| && 0 <= j < r.value[k] ==> header[j] != names[k]
    ensures r.Err? ==> exists k :: 0 <= k < |names| && names[k] == r.error && r.error !in header
                              && forall m :: 0 <= m < k ==> names[m] in header
  {
    if names == [] then Ok([])
    else match IndexOf(header, names[0])
      case None => Err(names[0])
      case Some(i) =>
        assert forall k :: 1 <= k < |names| ==> names[k] == names[1..][k - 1];
        match ColumnIndices(header, names[1..])
        case Err(e) => Err(e)
        case Ok(rest) => Ok([i] + rest)
  }

  /** `[row[i] for i in indices]`: None where a row is too short and Python
      raises IndexError. */
  function Pick(row: seq<string>, indices: seq<nat>): (r: Option<seq<string>>)
    ensures r.Some? <==> forall k :: 0 <= k < |indices| ==> indices[k] < |row|
    ensures r.Some? ==> |r.value| == |indices| && forall k :: 0 <= k < |indices| ==> r.value[k] == row[indices[k]]
  {
    if indices == [] then Some([])
    else if indices[0] >= |row| then None
    else match Pick(row, indices[1..])
      case None => None
      case Some(rest) => Some([row[indices[0]]] + rest)
  }

  // ---------------------------------------------------------------------------
  // Splitting the reply into status and reason (cloud_storage_reader.py:109)
  // ---------------------------------------------------------------------------

  const ReasonSeparator: string := "\nReason: "

  datatype UnpackError = NotEnoughValues

  /** The split as written: the separator is looked for in the reply, but
      the split is done on the stripped reply. When stripping removes the
      separator's trailing space or leading newline, the split yields one
      piece and unpacking it into two names raises ValueError. */
  function SplitStatusReasonAsWritten(answer: string): (r: Result<(string, string), UnpackError>)
    ensures !HasSub(answer, ReasonSeparator) ==> r == Ok((answer, ""))
    ensures r.Err? <==> HasSub(answer, ReasonSeparator) && !HasSub(Strip(answer), ReasonSeparator)
    ensures r.Ok? && HasSub(answer, ReasonSeparator) ==>
              r.value.0 + ReasonSeparator + r.value.1 == Strip(answer) && !HasSub(r.value.0, ReasonSeparator)
  {
    if HasSub(answer, ReasonSeparator) then
      var parts := SplitOnce(Strip(answer), ReasonSeparator);
      if |parts| == 2 then Ok((parts[0], parts[1])) else Err(NotEnoughValues)
    else
      Ok((answer, ""))
  }

  /** strip() turns "Compliant\nReason: " into "Compliant\nReason:". */
  lemma EmptyReasonStripped()
    ensures Strip("Compliant\nReason: ") == "Compliant\nReason:"
  {
    var stripped := "Compliant\nReason:";
    assert [] + stripped + " " == "Compliant\nReason: ";
    assert stripped[0] == 'C' && stripped[|stripped| - 1] == ':';
    StripPadded([], stripped, " ");
  }

  lemma SeparatorInEmptyReason()
    ensures HasSub("Compliant\nReason: ", ReasonSeparator)
  {
    assert "Compliant\nReason: "[9..18] == ReasonSeparator;
    assert OccursAt("Compliant\nReason: ", ReasonSeparator, 9);
  }

  lemma NoSeparatorInStripped()
    ensures !HasSub("Compliant\nReason:", ReasonSeparator)
  {
    var stripped := "Compliant\nReason:";
    assert stripped[..9] == "Compliant";
    forall j: nat ensures !OccursAt(stripped, ReasonSeparator, j) {
      if j + 9 <= |stripped| {
        assert stripped[j] == stripped[..9][j];
        assert stripped[j] != ReasonSeparator[0];
      }
    }
  }

  /** A reply whose reason is empty, "Compliant\nReason: ", passes the
      presence test but loses the separator's space to strip(): the as-written
      split fails to unpack. */
  lemma EmptyReasonFailsToUnpack()
    ensures SplitStatusReasonAsWritten("Compliant\nReason: ").Err?
  {
    EmptyReasonStripped();
    SeparatorInEmptyReason();
    NoSeparatorInStripped();
  }

  /** The split with the presence test made on the stripped reply, which is
      the text actually split: it always yields a status and a reason. */
  function SplitStatusReason(answer: string): (r: (string, string))
    ensures HasSub(Strip(answer), ReasonSeparator) ==>
              r.0 + ReasonSeparator + r.1 == Strip(answer) && !HasSub(r.0, ReasonSeparator)
    ensures !HasSub(Strip(answer), ReasonSeparator) ==> r == (answer, "")
  {
    var text := Strip(answer);
    if HasSub(text, ReasonSeparator) then
      var parts := SplitOnce(text, ReasonSeparator);
      (parts[0], parts[1])
    else
      (answer, "")
  }

  lemma SliceOfSlice(s: string, i: nat, k: nat, a: nat, b: nat)
    requires i <= k <= |s| && a <= b <= k - i
    ensures s[i..k][a..b] == s[i + a..i + b]
  {
    var left, right := s[i..k][a..b], s[i + a..i + b];
    forall x | 0 <= x < b - a
      ensures left[x] == right[x]
    {
      assert left[x] == s[i..k][a + x] == s[i + a + x];
    }
  }

  lemma InfixOccurrence(s: string, i: nat, k: nat, pat: string)
    requires i <= k <= |s| && HasSub(s[i..k], pat)
    ensures HasSub(s, pat)
  {
    var t := s[i..k];
    var j: nat :| j <= |t| && OccursAt(t, pat, j);
    assert j + |pat| <= |t|;
    SliceOfSlice(s, i, k, j, j + |pat|);
    var at: nat := i + j;
    assert OccursAt(s, pat, at);
    assert at <= |s|;
  }

  /** The separator can only be found in the stripped reply if it is in the
      reply. */
  lemma StrippedOccurrence(answer: string, pat: string)
    requires HasSub(Strip(answer), pat)
    ensures HasSub(answer, pat)
  {
    var left := StripLeft(answer);
    var start := |answer| - |left|;
    var stripped := Strip(answer);
    assert stripped == left[..|stripped|];
    assert stripped == answer[start..start + |stripped|];
    InfixOccurrence(answer, start, start + |stripped|, pat);
  }

  /** Wherever the as-written split succeeds, the corrected one gives the same
      status and reason. */
  lemma CorrectedSplitAgrees(answer: string)
    requires SplitStatusReasonAsWritten(answer).Ok?
    ensures SplitStatusReasonAsWritten(answer).value == SplitStatusReason(answer)
  {
    if !HasSub(answer, ReasonSeparator) && HasSub(Strip(answer), ReasonSeparator) {
      StrippedOccurrence(answer, ReasonSeparator);
    }
  }

  // ---------------------------------------------------------------------------
  // The row loop (cloud_storage_reader.py:81-119)
  // ---------------------------------------------------------------------------

  /** A row of the `analysis` table. */
  datatype Analysis = Analysis(review: string, status: string, reason: string)

  /** Why the script stops early: an empty file (StopIteration), a missing
      column (ValueError), a short row (IndexError), a failed classifier
      call, or a reply the split cannot unpack into two names (ValueError);
      `row` counts data rows from 0. NoHeader and MissingColumn arise before
      `cursor` is bound (cloud_storage_reader.py:68), so the script's
      `finally` block replaces them with a NameError from `cursor.close()`;
      either way nothing is inserted. */
  datatype Failure =
    | NoHeader
    | MissingColumn(name: string)
    | ShortRow(row: nat)
    | ClassifierRaised(row: nat)
    | CannotUnpack(row: nat)

  /** What data row `i` yields. */
  function RowOutcome(indices: seq<nat>, row: seq<string>, i: nat, llm: (nat, string) -> Reply): (r: Result<Analysis, Failure>)
    requires |indices| == |Wanted|
    ensures r.Err? ==> r.error == ShortRow(i) || r.error == ClassifierRaised(i) || r.error == CannotUnpack(i)
    ensures r == Err(ShortRow(i)) <==> Pick(row, indices).None?
  {
    match Pick(row, indices)
    case None => Err(ShortRow(i))
    case Some(columns) =>
      var review := ReviewText(columns[0], columns[1]);
      match llm(i, review)
      case Raised => Err(ClassifierRaised(i))
      case Answer(text) =>
        match SplitStatusReasonAsWritten(text)
        case Err(_) => Err(CannotUnpack(i))
        case Ok((status, reason)) => Ok(Analysis(review, status, reason))
  }

  /** A successful row stores the review built from its Title and Body cells
      and the classifier's reply split at the separator. */
  lemma RowOutcomeMeaning(indices: seq<nat>, row: seq<string>, i: nat, llm: (nat, string) -> Reply)
    requires |indices| == |Wanted| && RowOutcome(indices, row, i, llm).Ok?
    ensures indices[0] < |row| && indices[1] < |row|
    ensures var a := RowOutcome(indices, row, i, llm).value;
      var reply := llm(i, ReviewText(row[indices[0]], row[indices[1]]));
      && a.review == ReviewText(row[indices[0]], row[indices[1]])
      && reply.Answer?
      && SplitStatusReasonAsWritten(reply.text) == Ok((a.status, a.reason))
      && (HasSub(reply.text, ReasonSeparator) ==>
            a.status + ReasonSeparator + a.reason == Strip(reply.text) && !HasSub(a.status, ReasonSeparator))
      && (!HasSub(reply.text, ReasonSeparator) ==> a.status == reply.text && a.reason == "")
  {
  }

  /** Where the script stands: the rows inserted, and the failure that ended
      it, if any. */
  datatype Reading = Reading(inserted: seq<Analysis>, failure: Option<Failure>)

  /** The script's loop over the data rows: one insert per row until the
      first row that fails, which is a row-level failure. */
  function ReadRows(indices: seq<nat>, rows: seq<seq<string>>, llm: (nat, string) -> Reply): (r: Reading)
    requires |indices| == |Wanted|
    ensures r.failure.None? ==> |r.inserted| == |rows|
    ensures r.failure.Some? ==> |r.inserted| < |rows|
    ensures r.failure.Some? ==>
      (r.failure == Some(ShortRow(|r.inserted|))
       || r.failure == Some(ClassifierRaised(|r.inserted|))
       || r.failure == Some(CannotUnpack(|r.inserted|)))
  {
    if rows == [] then Reading([], None)
    else
      var before := ReadRows(indices, rows[..|rows| - 1], llm);
      if before.failure.Some? then before
      else match RowOutcome(indices, rows[|rows| - 1], |rows| - 1, llm)
        case Err(f) => Reading(before.inserted, Some(f))
        case Ok(a) => Reading(before.inserted + [a], None)
  }

  /** The whole script on a file given as rows of cells, header first. */
  function ReaderRun(lines: seq<seq<string>>, llm: (nat, string) -> Reply): (r: Reading)
    ensures r.failure == Some(NoHeader) <==> lines == []
    ensures (r.failure.Some? && r.failure.value.MissingColumn?) <==>
      lines != [] && exists k :: 0 <= k < |Wanted| && Wanted[k] !in lines[0]
    ensures r.failure.Some? && r.failure.value.MissingColumn? ==>
      r.inserted == [] && r.failure.value.name in Wanted && r.failure.value.name !in lines[0]
    ensures lines != [] ==> |r.inserted| <= |lines| - 1
  {
    if lines == [] then Reading([], Some(NoHeader))
    else match ColumnIndices(lines[0], Wanted)
      case Err(name) => Reading([], Some(MissingColumn(name)))
      case Ok(indices) => ReadRows(indices, lines[1..], llm)
  }

  lemma ReadRowsSnoc(indices: seq<nat>, rows: seq<seq<string>>, k: nat, llm: (nat, string) -> Reply)
    requires |indices| == |Wanted| && k < |rows|
    ensures var before := ReadRows(indices, rows[..k], llm);
      ReadRows(indices, rows[..k + 1], llm)
      == if before.failure.Some? then before
         else match RowOutcome(indices, rows[k], k, llm)
           case Err(f) => Reading(before.inserted, Some(f))
           case Ok(a) => Reading(before.inserted + [a], None)
  {
    var s := rows[..k + 1];
    assert s != [] && |s| - 1 == k && s[..|s| - 1] == rows[..k] && s[|s| - 1] == rows[k];
  }

  /** After a failure, later rows are never read. */
  lemma {:induction false} FailureIsFinal(indices: seq<nat>, rows: seq<seq<string>>, k: nat, llm: (nat, string) -> Reply)
    requires |indices| == |Wanted| && k <= |rows| && ReadRows(indices, rows[..k], llm).failure.Some?
    ensures ReadRows(indices, rows, llm) == ReadRows(indices, rows[..k], llm)
    decreases |rows| - k
  {
    if k < |rows| {
      ReadRowsSnoc(indices, rows, k, llm);
      FailureIsFinal(indices, rows, k + 1, llm);
    } else {
      assert rows[..k] == rows;
    }
  }

  /** The inserted rows are the outcomes of the leading data rows, one each,
      in file order; a run without failure inserts one row per data row, and
      a failure is the outcome of the first row that did not succeed. */
  predicate Shaped(indices: seq<nat>, rows: seq<seq<string>>, reading: Reading, llm: (nat, string) -> Reply)
    requires |indices| == |Wanted|
  {
    && |reading.inserted| <= |rows|
    && (forall i :: 0 <= i < |reading.inserted| ==> RowOutcome(indices, rows[i], i, llm) == Ok(reading.inserted[i]))
    && (reading.failure.None? ==> |reading.inserted| == |rows|)
    && (reading.failure.Some? ==>
          |reading.inserted| < |rows|
          && RowOutcome(indices, rows[|reading.inserted|], |reading.inserted|, llm) == Err(reading.failure.value))
  }

  lemma ShapedSnoc(indices: seq<nat>, prefix: seq<seq<string>>, row: seq<string>, llm: (nat, string) -> Reply)
    requires |indices| == |Wanted|
    requires Shaped(indices, prefix, ReadRows(indices, prefix, llm), llm)
    ensures Shaped(indices, prefix + [row], ReadRows(indices, prefix + [row], llm), llm)
  {
    var rows := prefix + [row];
    assert rows[..|prefix|] == prefix;
    var before := ReadRows(indices, prefix, llm);
    if before.failure.None? {
      match RowOutcome(indices, row, |prefix|, llm)
      case Err(f) =>
        assert ReadRows(indices, rows, llm) == Reading(before.inserted, Some(f));
      case Ok(a) =>
        assert ReadRows(indices, rows, llm) == Reading(before.inserted + [a], None);
    } else {
      assert ReadRows(indices, rows, llm) == before;
    }
  }

  lemma {:induction false} ReadRowsShape(indices: seq<nat>, rows: seq<seq<string>>, llm: (nat, string) -> Reply)
    requires |indices| == |Wanted|
    ensures Shaped(indices, rows, ReadRows(indices, rows, llm), llm)
  {
    if rows != [] {
      var n := |rows| - 1;
      assert rows[..n] + [rows[n]] == rows;
      ReadRowsShape(indices, rows[..n], llm);
      ShapedSnoc(indices, rows[..n], rows[n], llm);
    }
  }

  /** A row whose reply is "Compliant\nReason: " ends the script at that row
      with a ValueError: the rows inserted before it stay, and no later row is
      read. */
  lemma EmptyReasonEndsRun(indices: seq<nat>, rows: seq<seq<string>>, k: nat, llm: (nat, string) -> Reply)
    requires |indices| == |Wanted| && k < |rows|
    requires ReadRows(indices, rows[..k], llm).failure.None?
    requires Pick(rows[k], indices).Some?
    requires llm(k, ReviewText(rows[k][indices[0]], rows[k][indices[1]])) == Answer("Compliant\nReason: ")
    ensures ReadRows(indices, rows, llm) == Reading(ReadRows(indices, rows[..k], llm).inserted, Some(CannotUnpack(k)))
  {
    EmptyReasonFailsToUnpack();
    var columns := Pick(rows[k], indices).value;
    assert columns[0] == rows[k][indices[0]] && columns[1] == rows[k][indices[1]];
    assert RowOutcome(indices, rows[k], k, llm) == Err(CannotUnpack(k));
    ReadRowsSnoc(indices, rows, k, llm);
    FailureIsFinal(indices, rows, k + 1, llm);
  }

  /** The script's table: rows are only ever appended, one INSERT per
      classified row, each committed at once. */
  class AnalysisTable {
    var rows: seq<Analysis>

    constructor ()
      ensures rows == []
    {
      rows := [];
    }

    /** Run the script over `lines`. Rows inserted before a failure stay in
        the table. */
    method Run(lines: seq<seq<string>>, llm: (nat, string) -> Reply) returns (failure: Option<Failure>)
      modifies this
      ensures rows == old(rows) + ReaderRun(lines, llm).inserted
      ensures failure == ReaderRun(lines, llm).failure
    {
      if lines == [] {
        return Some(NoHeader);
      }
      var columnIndices := ColumnIndices(lines[0], Wanted);
      if columnIndices.Err? {
        return Some(MissingColumn(columnIndices.error));
      }
      failure := InsertRows(columnIndices.value, lines[1..], llm);
    }

    /** The loop over the data rows (cloud_storage_reader.py:81-119). */
    method InsertRows(indices: seq<nat>, data: seq<seq<string>>, llm: (nat, string) -> Reply) returns (failure: Option<Failure>)
      requires |indices| == |Wanted|
      modifies this
      ensures rows == old(rows) + ReadRows(indices, data, llm).inserted
      ensures failure == ReadRows(indices, data, llm).failure
    {
      for i := 0 to |data|
        invariant rows == old(rows) + ReadRows(indices, data[..i], llm).inserted
        invariant ReadRows(indices, data[..i], llm).failure.None?
      {
        failure := InsertRow(indices, data, i, llm, old(rows));
        if failure.Some? {
          FailureIsFinal(indices, data, i + 1, llm);
          return;
        }
      }
      assert data[..|data|] == data;
      return None;
    }
  
    /** One pass of the loop: classify data row `i` and insert it, or stop
        with the row's failure. */
    method InsertRow(indices: seq<nat>, data: seq<seq<string>>, i: nat, llm: (nat, string) -> Reply, ghost base: seq<Analysis>)
        returns (failure: Option<Failure>)
      requires |indices| == |Wanted| && i < |data|
      requires ReadRows(indices, data[..i], llm).failure.None?
      requires rows == base + ReadRows(indices, data[..i], llm).inserted
      modifies this
      ensures rows == base + ReadRows(indices, data[..i + 1], llm).inserted
      ensures failure == ReadRows(indices, data[..i + 1], llm).failure
    {
      ReadRowsSnoc(indices, data, i, llm);
      var columns := Pick(data[i], indices);
      if columns.None? {
        assert RowOutcome(indices, data[i], i, llm) == Err(ShortRow(i));
        return Some(ShortRow(i));
      }
      var review := ReviewText(columns.value[0], columns.value[1]);
      var answer := llm(i, review);
      if answer.Raised? {
        assert RowOutcome(indices, data[i], i, llm) == Err(ClassifierRaised(i));
        return Some(ClassifierRaised(i));
      }
      var split := SplitStatusReasonAsWritten(answer.text);
      if split.Err? {
        assert RowOutcome(indices, data[i], i, llm) == Err(CannotUnpack(i));
        return Some(CannotUnpack(i));
      }
      var (status, reason) := split.value;
      rows := rows + [Analysis(review, status, reason)];
      failure := None;
    }
  }
}
