/**
 * The Flask service of t65.py as one object: the storage bucket, the
 * `csv_upload` registry, one result table per upload id, and a counter
 * standing for the registry's id column. The table's definition is not part
 * of the repository; the model assumes an integer SERIAL id, which the
 * handlers receive as its decimal text. Each route handler is a method
 * returning the HTTP status code and the JSON body it sends. An exception the
 * handler does not catch is the 500 response with body `Uncaught`.
 */
module Backend {
  import opened Wrappers
  import opened Text
  import opened Reviews
  import opened Ingestion
  import opened Upload
  import opened AnswerParser

  const Processing: string := "processing"
  const Completed: string := "completed"
  const PlaceholderMessage: string := "CSV contains 4-5 ratings only, no data has been processed."
  const MissingIdMessage: string := "File not found or no UUID on payload."

  /** A row of `csv_upload`. */
  datatype UploadRow = UploadRow(filename: string, status: string)

  /** One element of `gpt_data`. */
  datatype GptEntry = GptEntry(status: string, reason: string, result: string)

  /** The `gpt_data` field: the entries, or the placeholder sentence. */
  datatype GptData = Entries(entries: seq<GptEntry>) | Placeholder(message: string)

  datatype Body =
    | Accepted(id: string)      // {"status": "processing", "id": id}
    | Failure(message: string)  // {"error": message}
    | StillProcessing           // {"status": "processing"}
    | Complete(data: GptData)   // {"status": "complete", "gpt_data": data}
    | Uncaught                  // an exception escaped the handler

  datatype Response = Response(code: nat, body: Body)

  /** How `process_csv_and_openAI` ends. */
  datatype Outcome = Finished | MissingColumns | Aborted

  /** The entries `get_gpt_data` builds from a result table, in table order,
      with the result lower-cased. */
  function GptRows(records: seq<Record>): (r: seq<GptEntry>)
    ensures |r| == |records|
    ensures forall i :: 0 <= i < |records| ==>
              r[i] == GptEntry(records[i].status, records[i].reason, Lower(records[i].result))
  {
    seq(|records|, i requires 0 <= i < |records| =>
      GptEntry(records[i].status, records[i].reason, Lower(records[i].result)))
  }

  /** `get_gpt_data(id)` (t65.py:231-256): None when the table has no rows,
      which the handlers turn into the placeholder sentence. */
  method GetGptData(records: seq<Record>) returns (data: Option<seq<GptEntry>>)
    ensures data.None? <==> records == []
    ensures data.Some? ==> data.value == GptRows(records)
  {
    if records == [] {
      return None;
    }
    var result: seq<GptEntry> := [];
    for i := 0 to |records|
      invariant |result| == i
      invariant forall k :: 0 <= k < i ==> result[k] == GptEntry(records[k].status, records[k].reason, Lower(records[k].result))
    {
      var row := records[i];
      result := result + [GptEntry(row.status, row.reason, Lower(row.result))];
    }
    return Some(result);
  }

  /** The `gpt_data` a completed request reports for a result table. */
  function PayloadOf(records: seq<Record>): (r: GptData)
    ensures r.Placeholder? <==> records == []
    ensures r.Placeholder? ==> r.message == PlaceholderMessage
    ensures r.Entries? ==> r.entries == GptRows(records)
  {
    if records == [] then Placeholder(PlaceholderMessage) else Entries(GptRows(records))
  }

  /** Despite its wording, the placeholder is not what a file of 4 and 5 star
      reviews gets: each of its rows is reported as an "n/a" entry. */
  lemma HighRatingsAreNotPlaceholder(roles: Roles, rows: seq<Row>, llm: (nat, string) -> Reply)
    requires rows != []
    requires forall i :: 0 <= i < |rows| ==> HasText(roles, rows[i]) && SkipsClassifier(Cell(rows[i], roles.rating))
    ensures var data := PayloadOf(RunRows(roles, rows, llm).records);
      data.Entries? && |data.entries| == |rows|
      && forall i :: 0 <= i < |rows| ==> data.entries[i] == GptEntry("N/A", "N/A", "n/a")
  {
    AllHighRatings(roles, rows, llm);
    assert Lower("N/A") == "n/a";
  }

  /** The registry after `UPDATE csv_upload SET status = 'completed'`. */
  function MarkCompleted(registry: map<string, UploadRow>, id: string): (r: map<string, UploadRow>)
    ensures r.Keys == registry.Keys
    ensures id in registry ==> r[id] == UploadRow(registry[id].filename, Completed)
    ensures forall other :: other in registry && other != id ==> r[other] == registry[other]
  {
    if id in registry then registry[id := registry[id].(status := Completed)] else registry
  }

  /** Completing twice is completing once. */
  lemma MarkCompletedIdempotent(registry: map<string, UploadRow>, id: string)
    ensures MarkCompleted(MarkCompleted(registry, id), id) == MarkCompleted(registry, id)
  {
  }

  /** Text Postgres reads as a value of the integer id column (signs,
      surrounding blanks and leading zeros aside). */
  predicate ReadsAsInteger(id: string): (b: bool)
    ensures (exists n: nat :: id == NatToString(n)) ==> b
  {
    id != [] && forall i :: 0 <= i < |id| ==> IsDigit(id[i])
  }

  /** The ids handed out so far: the SERIAL column starts at 1. */
  ghost function Issued(serial: nat): set<string> {
    set k: nat | 1 <= k < serial :: NatToString(k)
  }

  /** Every issued id is read by Postgres as an integer. */
  lemma IssuedReadAsIntegers(serial: nat, id: string)
    requires id in Issued(serial)
    ensures ReadsAsInteger(id)
  {
    var k: nat :| 1 <= k < serial && NatToString(k) == id;
  }

  /** The next id is new, and issuing it adds exactly it. */
  lemma IssueNext(serial: nat)
    requires serial >= 1
    ensures NatToString(serial) !in Issued(serial)
    ensures Issued(serial + 1) == Issued(serial) + {NatToString(serial)}
  {
    if NatToString(serial) in Issued(serial) {
      var k: nat :| 1 <= k < serial && NatToString(k) == NatToString(serial);
      NatToStringInjective(k, serial);
    }
  }

  /** What an accepted upload does: the next id is registered as
      processing, under the first free blob name, and the file is stored
      there. */
  ghost predicate UploadAccepted(file: FileField, serial0: nat, registry0: map<string, UploadRow>, blobs0: map<string, CsvFile>,
                                 response: Response, registry: map<string, UploadRow>, blobs: map<string, CsvFile>)
  {
    var id := NatToString(serial0);
    && response == Response(200, Accepted(id))
    && id !in registry0
    && id in registry
    && var name := registry[id].filename;
       var (root, ext) := SplitExt(file.filename);
       && registry == registry0[id := UploadRow(name, Processing)]
       && FirstFreeProbe(name, root, ext, blobs0.Keys)
       && blobs == blobs0[name := file.content]
  }

  /** The result table an id has before processing starts. */
  function TableBefore(tables: map<string, seq<Record>>, id: string): seq<Record> {
    if id in tables then tables[id] else []
  }

  /** What `process_csv_and_openAI` does to the result tables and the
      registry: a file without the three columns leaves the (possibly new)
      table as it was; otherwise the run's records are appended, and only a
      run that reaches the end marks the upload completed. */
  ghost predicate FileProcessed(id: string, file: CsvFile, llm: (nat, string) -> Reply,
                                tables0: map<string, seq<Record>>, registry0: map<string, UploadRow>,
                                outcome: Outcome, tables: map<string, seq<Record>>, registry: map<string, UploadRow>)
  {
    var base := TableBefore(tables0, id);
    match RolesOf(file.fieldnames)
    case None => outcome == MissingColumns && tables == tables0[id := base] && registry == registry0
    case Some(roles) =>
      var run := RunRows(roles, file.rows, llm);
      && tables == tables0[id := base + run.records]
      && if run.aborted then outcome == Aborted && registry == registry0
         else outcome == Finished && registry == MarkCompleted(registry0, id)
  }

  lemma UpdateTwice(m: map<string, seq<Record>>, k: string, a: seq<Record>, b: seq<Record>)
    ensures m[k := a][k := b] == m[k := b]
  {
  }

  lemma ProcessedWithoutColumns(id: string, file: CsvFile, llm: (nat, string) -> Reply,
                                tables0: map<string, seq<Record>>, registry0: map<string, UploadRow>, tables: map<string, seq<Record>>)
    requires RolesOf(file.fieldnames).None? && tables == tables0[id := TableBefore(tables0, id)]
    ensures FileProcessed(id, file, llm, tables0, registry0, MissingColumns, tables, registry0)
  {
  }

  lemma ProcessedWithColumns(id: string, file: CsvFile, llm: (nat, string) -> Reply, roles: Roles,
                             tables0: map<string, seq<Record>>, registry0: map<string, UploadRow>,
                             outcome: Outcome, tables: map<string, seq<Record>>, registry: map<string, UploadRow>)
    requires RolesOf(file.fieldnames) == Some(roles)
    requires tables == tables0[id := TableBefore(tables0, id) + RunRows(roles, file.rows, llm).records]
    requires RunRows(roles, file.rows, llm).aborted ==> outcome == Aborted && registry == registry0
    requires !RunRows(roles, file.rows, llm).aborted ==> outcome == Finished && registry == MarkCompleted(registry0, id)
    ensures FileProcessed(id, file, llm, tables0, registry0, outcome, tables, registry)
  {
  }

  /** The answer of `GET /process/<id>`: 500 for an unknown id, a missing blob
      or a run that raised; otherwise 200 "complete" with the table's data,
      even when the file lacked the three columns. */
  ghost predicate ProcessAnswered(id: string, llm: (nat, string) -> Reply,
                                  registry0: map<string, UploadRow>, blobs0: map<string, CsvFile>, tables0: map<string, seq<Record>>,
                                  response: Response)
  {
    if id !in registry0 || registry0[id].filename !in blobs0 then response == Response(500, Uncaught)
    else
      var file := blobs0[registry0[id].filename];
      var base := TableBefore(tables0, id);
      match RolesOf(file.fieldnames)
      case None => response == Response(200, Complete(PayloadOf(base)))
      case Some(roles) =>
        var run := RunRows(roles, file.rows, llm);
        response == if run.aborted then Response(500, Uncaught) else Response(200, Complete(PayloadOf(base + run.records)))
  }

  /** Every registered id was issued by the counter and its file is in the
      bucket, every result table belongs to a registered id, and an upload is
      marked completed only once its result table exists. */
  ghost predicate Consistent(registry: map<string, UploadRow>, tables: map<string, seq<Record>>,
                             blobs: map<string, CsvFile>, serial: nat) {
    && serial >= 1
    && registry.Keys <= Issued(serial)
    && tables.Keys <= registry.Keys
    && (forall id :: id in registry ==> registry[id].filename in blobs)
    && (forall id :: id in registry && registry[id].status == Completed ==> id in tables)
  }

  /** Processing a file keeps the service consistent: only the processed
      id, which is registered, gains a table, and only it may become
      completed. */
  lemma ProcessingKeepsConsistent(id: string, serial: nat, blobs: map<string, CsvFile>,
                                  registry0: map<string, UploadRow>, tables0: map<string, seq<Record>>,
                                  registry: map<string, UploadRow>, table: seq<Record>)
    requires Consistent(registry0, tables0, blobs, serial)
    requires id in registry0
    requires registry == registry0 || registry == MarkCompleted(registry0, id)
    ensures Consistent(registry, tables0[id := table], blobs, serial)
  {
  }

  /** Registering the next id under a new blob keeps the service
      consistent. */
  lemma UploadKeepsConsistent(registry: map<string, UploadRow>, tables: map<string, seq<Record>>,
                              blobs: map<string, CsvFile>, serial: nat, name: string, content: CsvFile)
    requires Consistent(registry, tables, blobs, serial)
    ensures Consistent(registry[NatToString(serial) := UploadRow(name, Processing)], tables,
                       blobs[name := content], serial + 1)
  {
    IssueNext(serial);
  }

  class Service {
    /** The bucket: blob name to stored file. */
    var blobs: map<string, CsvFile>
    /** The `csv_upload` table, by id. */
    var registry: map<string, UploadRow>
    /** The per-upload result tables, by id. */
    var tables: map<string, seq<Record>>
    /** The next value of the registry's SERIAL id. */
    var serial: nat

    ghost predicate Valid()
      reads this
    {
      Consistent(registry, tables, blobs, serial)
    }

    constructor ()
      ensures Valid()
      ensures blobs == map[] && registry == map[] && tables == map[] && serial == 1
    {
      blobs, registry, tables, serial := map[], map[], map[], 1;
    }

    /** `POST /upload-to-gcs` (t65.py:106-163). */
    method UploadToGcs(file: Option<FileField>) returns (response: Response)
      requires Valid()
      modifies this
      ensures Valid()
      ensures CheckUpload(file).Some? ==>
                response == Response(400, Failure(RejectionMessage(CheckUpload(file).value))) && unchanged(this)
      ensures CheckUpload(file).None? ==>
                && UploadAccepted(file.value, old(serial), old(registry), old(blobs), response, registry, blobs)
                && serial == old(serial) + 1 && tables == old(tables)
    {
      var rejection := CheckUpload(file);
      if rejection.Some? {
        return Response(400, Failure(RejectionMessage(rejection.value)));
      }
      var field := file.value;
      var (root, ext) := SplitExt(field.filename);
      var name := ChooseBlobName(root, ext, blobs.Keys);
      var id := Register(name, field.content);
      return Response(200, Accepted(id));
    }

    /** Store the file under `name`, insert its registry row with the next
        SERIAL id, and set that row's status to processing
        (t65.py:139-158). */
    method Register(name: string, content: CsvFile) returns (id: string)
      requires Valid()
      modifies this
      ensures Valid()
      ensures id == NatToString(old(serial)) && id !in old(registry)
      ensures blobs == old(blobs)[name := content]
      ensures registry == old(registry)[id := UploadRow(name, Processing)]
      ensures serial == old(serial) + 1 && tables == old(tables)
    {
      id := NatToString(serial);
      IssueNext(serial);
      UploadKeepsConsistent(registry, tables, blobs, serial, name, content);
      blobs := blobs[name := content];
      serial := serial + 1;
      registry := registry[id := UploadRow(name, Processing)];
      registry := registry[id := registry[id].(status := Processing)];
      assert registry == old(registry)[id := UploadRow(name, Processing)];
    }

    /** `process_csv_and_openAI` (t65.py:321-458) on a file already fetched
        from the bucket: create the result table if absent, resolve the
        columns, and run the rows; only a run that reaches the end marks the
        upload completed. */
    method ProcessCsvAndOpenAI(id: string, file: CsvFile, llm: (nat, string) -> Reply) returns (outcome: Outcome)
      requires Valid() && id in registry
      modifies this
      ensures Valid()
      ensures blobs == old(blobs) && serial == old(serial)
      ensures FileProcessed(id, file, llm, old(tables), old(registry), outcome, tables, registry)
    {
      if id !in tables {
        tables := tables[id := []];
      }
      ghost var base := TableBefore(old(tables), id);
      assert tables == old(tables)[id := base];
      var title, body, rating := ResolveColumns(file.fieldnames);
      if title.None? || body.None? || rating.None? {
        outcome := MissingColumns;
        ProcessedWithoutColumns(id, file, llm, old(tables), old(registry), tables);
        ProcessingKeepsConsistent(id, serial, blobs, old(registry), old(tables), registry, base);
      } else {
        var roles := Roles(title.value, body.value, rating.value);
        assert RolesOf(file.fieldnames) == Some(roles);
        outcome := RunAndComplete(id, roles, file.rows, llm, base);
        ghost var run := RunRows(roles, file.rows, llm);
        UpdateTwice(old(tables), id, base, base + run.records);
        ProcessedWithColumns(id, file, llm, roles, old(tables), old(registry), outcome, tables, registry);
        ProcessingKeepsConsistent(id, serial, blobs, old(registry), old(tables), registry, base + run.records);
      }
    }

    /** The row loop followed by the completed update (t65.py:370-452): the
        update is made only when no exception escaped the loop. */
    method RunAndComplete(id: string, roles: Roles, rows: seq<Row>, llm: (nat, string) -> Reply, ghost base: seq<Record>)
      returns (outcome: Outcome)
      requires id in tables && tables[id] == base
      modifies this
      ensures tables == old(tables)[id := base + RunRows(roles, rows, llm).records]
      ensures RunRows(roles, rows, llm).aborted ==> outcome == Aborted && registry == old(registry)
      ensures !RunRows(roles, rows, llm).aborted ==> outcome == Finished && registry == MarkCompleted(old(registry), id)
      ensures blobs == old(blobs) && serial == old(serial)
    {
      var raised := ProcessRows(id, roles, rows, llm, base);
      if raised {
        outcome := Aborted;
      } else {
        registry := MarkCompleted(registry, id);
        outcome := Finished;
      }
    }

    /** The loop over the data rows (t65.py:374-442), in file order, stopping
        at the first exception; `raised` tells whether one escaped. */
    method ProcessRows(id: string, roles: Roles, rows: seq<Row>, llm: (nat, string) -> Reply, ghost base: seq<Record>)
      returns (raised: bool)
      requires id in tables && tables[id] == base
      modifies this
      ensures raised == RunRows(roles, rows, llm).aborted
      ensures tables == old(tables)[id := base + RunRows(roles, rows, llm).records]
      ensures registry == old(registry) && blobs == old(blobs) && serial == old(serial)
    {
      var calls: nat := 0;
      assert rows[..0] == [];
      assert RunRows(roles, rows[..0], llm).records == [];
      assert base + [] == base;
      assert old(tables)[id := base] == old(tables);
      for i := 0 to |rows|
        invariant tables == old(tables)[id := base + RunRows(roles, rows[..i], llm).records]
        invariant calls == RunRows(roles, rows[..i], llm).calls
        invariant !RunRows(roles, rows[..i], llm).aborted
        invariant registry == old(registry) && blobs == old(blobs) && serial == old(serial)
      {
        ghost var before := RunRows(roles, rows[..i], llm);
        RunRowsNext(roles, rows, i, llm);
        raised, calls := ProcessRow(id, roles, rows[i], calls, llm, base, before);
        if raised {
          AbortIsFinal(roles, rows, i + 1, llm);
          return;
        }
      }
      assert rows[..|rows|] == rows;
      return false;
    }

    /** One data row of the loop (t65.py:374-442): a row without title or
        body is skipped, a 4 or 5 star row gets the N/A record, and any other
        row is classified; `raised` tells whether an exception escaped. */
    method ProcessRow(id: string, roles: Roles, row: Row, calls: nat, llm: (nat, string) -> Reply,
                      ghost base: seq<Record>, ghost before: Run)
      returns (raised: bool, callsAfter: nat)
      requires id in tables && tables[id] == base + before.records
      requires !before.aborted && calls == before.calls
      modifies this
      ensures var after := Step(before, roles, row, llm);
        && raised == after.aborted && callsAfter == after.calls
        && tables == old(tables)[id := base + after.records]
      ensures registry == old(registry) && blobs == old(blobs) && serial == old(serial)
    {
      callsAfter := calls;
      raised := false;
      assert old(tables)[id := base + before.records] == old(tables);
      var titleCell, bodyCell, ratingCell := Cell(row, roles.title), Cell(row, roles.body), Cell(row, roles.rating);
      if titleCell.None? || bodyCell.None? {
        assert Step(before, roles, row, llm) == before;
        return;
      }
      var review := ReviewText(titleCell.value, bodyCell.value);
      assert review == ReviewOf(roles, row);
      if ratingCell == Some("4") || ratingCell == Some("5") {
        var record := NotApplicable(review);
        assert Step(before, roles, row, llm).records == before.records + [record];
        assert (base + before.records) + [record] == base + (before.records + [record]);
        tables := tables[id := tables[id] + [record]];
        return;
      }
      var reply := llm(calls, review);
      assert Step(before, roles, row, llm) == AfterCall(before, review, reply);
      callsAfter := calls + 1;
      raised := InsertReply(id, review, reply, base, before);
    }

    /** The classifier's reply for `review` (t65.py:416-442): a raised call,
        or a reply without a second line, escapes; otherwise the parsed
        verdict is inserted. */
    method InsertReply(id: string, review: string, reply: Reply, ghost base: seq<Record>, ghost before: Run)
      returns (raised: bool)
      requires id in tables && tables[id] == base + before.records
      modifies this
      ensures raised == AfterCall(before, review, reply).aborted
      ensures tables == old(tables)[id := base + AfterCall(before, review, reply).records]
      ensures registry == old(registry) && blobs == old(blobs) && serial == old(serial)
    {
      assert old(tables)[id := base + before.records] == old(tables);
      if reply.Raised? {
        return true;
      }
      var parsed := ParseAnswer(reply.text);
      if parsed.IndexError? {
        return true;
      }
      var v := parsed.verdict;
      var record := Record(review, v.status, v.reason, v.result);
      assert AfterCall(before, review, reply).records == before.records + [record];
      assert (base + before.records) + [record] == base + (before.records + [record]);
      tables := tables[id := tables[id] + [record]];
      return false;
    }

    /** `GET /process/<id>` (t65.py:166-188). An unknown id makes
        `get_filename` index None, which escapes as 500. A missing blob would
        make the download fail the same way, but the service keeps every
        registered file in its bucket (`Valid`). The outcome of the processing step is ignored, so
        a file without the three columns still answers 200 "complete". */
    method ProcessCsv(id: string, llm: (nat, string) -> Reply) returns (response: Response)
      requires Valid()
      modifies this
      ensures Valid()
      ensures ProcessAnswered(id, llm, old(registry), old(blobs), old(tables), response)
      ensures blobs == old(blobs) && serial == old(serial)
      ensures id !in old(registry) || old(registry)[id].filename !in old(blobs) ==> unchanged(this)
      ensures id in old(registry) && old(registry)[id].filename in old(blobs) ==>
                exists outcome :: FileProcessed(id, old(blobs)[old(registry)[id].filename], llm, old(tables), old(registry), outcome, tables, registry)
    {
      if id !in registry {
        return Response(500, Uncaught);
      }
      var file := blobs[registry[id].filename];
      var outcome := ProcessCsvAndOpenAI(id, file, llm);
      if outcome == Aborted {
        return Response(500, Uncaught);
      }
      var data := GetGptData(tables[id]);
      var gptData := if data.None? then Placeholder(PlaceholderMessage) else Entries(data.value);
      return Response(200, Complete(gptData));
    }

    /** `GET /status/<id>` (t65.py:259-284). An id that is not an integer
        makes the SELECT fail; `get_file_details` catches that and returns an
        error pair, which is not "completed", so the answer is "processing".
        An unknown integer id makes `get_file_details` index None, which
        escapes as 500. */
    method GetStatus(id: string) returns (response: Response)
      ensures id == "" ==> response == Response(404, Failure(MissingIdMessage))
      ensures id != "" && !ReadsAsInteger(id) ==> response == Response(200, StillProcessing)
      ensures ReadsAsInteger(id) && id !in registry ==> response == Response(500, Uncaught)
      ensures ReadsAsInteger(id) && id in registry && registry[id].status != Completed ==> response == Response(200, StillProcessing)
      ensures ReadsAsInteger(id) && id in registry && registry[id].status == Completed ==>
                response == if id in tables then Response(200, Complete(PayloadOf(tables[id]))) else Response(500, Uncaught)
    {
      if id == "" {
        return Response(404, Failure(MissingIdMessage));
      }
      if !ReadsAsInteger(id) {
        return Response(200, StillProcessing);
      }
      if id !in registry {
        return Response(500, Uncaught);
      }
      if registry[id].status != Completed {
        return Response(200, StillProcessing);
      }
      if id !in tables {
        return Response(500, Uncaught);
      }
      var data := GetGptData(tables[id]);
      var gptData := if data.None? then Placeholder(PlaceholderMessage) else Entries(data.value);
      return Response(200, Complete(gptData));
    }
  }
}
