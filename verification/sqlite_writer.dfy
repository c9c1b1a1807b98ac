/**
  The SQLite writer: open the store, ensure the chunk table, project the
  surviving chunks into a batch of records, and insert the batch in one
  call when it is not empty. The first failing step ends the write with
  its error.

  The database library is represented by a `Faults` value that says, for
  this run, whether opening, migrating and inserting succeed, and by the
  store value found at the writer's path.
 */
module SqliteWriter {
  import opened Model
  import opened Wrappers
  import Transform
  import ChunkStore

  /** What one library step does in this run. */
  datatype StepOutcome = Succeeds | Fails(cause: string)

  /** The outcome of each library step the writer may perform. */
  datatype Faults = Faults(open: StepOutcome, migrate: StepOutcome, insert: StepOutcome)

  /** The library steps, as recorded in the order the writer attempts them. */
  datatype Step = Open | Migrate | Insert

  /** The writer's errors, each wrapping the library's cause. */
  datatype WriteError = OpenError(cause: string) | MigrateError(cause: string) | InsertError(cause: string)

  /** The message the writer reports for an error. */
  function Message(e: WriteError): string
  {
    match e
    case OpenError(cause) => "error opening database: " + cause
    case MigrateError(cause) => "error migrating database: " + cause
    case InsertError(cause) => "error inserting chunks: " + cause
  }

  /**
    The record batch, branch for branch as the writer builds it: a thought
    is skipped, and otherwise a record with an unset id is appended when
    the text is not the empty string. It holds one record per surviving
    chunk, carrying exactly the texts the text transform joins.
   */
  method BuildRecords(chunks: seq<Chunk>) returns (records: seq<ChunkStore.ChunkRecord>)
    ensures |records| <= |chunks|
    ensures |records| == |Transform.Texts(chunks)|
    ensures forall k :: 0 <= k < |records| ==> records[k] == ChunkStore.ChunkRecord(0, Transform.Texts(chunks)[k])
  {
    records := [];
    var i := 0;
    while i < |chunks|
      invariant 0 <= i <= |chunks|
      invariant |records| == |Transform.Texts(chunks[..i])|
      invariant forall k :: 0 <= k < |records| ==> records[k] == ChunkStore.ChunkRecord(0, Transform.Texts(chunks[..i])[k])
    {
      var chunk := chunks[i];
      assert chunks[..i + 1][..i] == chunks[..i];
      if chunk.isThought {
        i := i + 1;
        continue;
      }
      if chunk.text != "" {
        records := records + [ChunkStore.ChunkRecord(0, chunk.text)];
      }
      i := i + 1;
    }
    assert chunks[..i] == chunks;
  }

  /**
    One write of `root` into the store `existing`. It returns the store it
    leaves on success, or the first step's error, together with the steps
    it attempted.
   */
  method Write(root: Root, existing: ChunkStore.Store, faults: Faults)
    returns (result: Result<ChunkStore.Store, WriteError>, steps: seq<Step>)
    // A failed open: nothing else is attempted.
    ensures faults.open.Fails? ==>
      result == Failure(OpenError(faults.open.cause)) && steps == [Open]
    // A failed migration: no insert is attempted.
    ensures faults.open.Succeeds? && faults.migrate.Fails? ==>
      result == Failure(MigrateError(faults.migrate.cause)) && steps == [Open, Migrate]
    // Nothing survives: no insert, and the rows and the id counter are untouched.
    ensures faults.open.Succeeds? && faults.migrate.Succeeds? && Transform.Texts(root.chunkedPrompt.chunks) == [] ==>
      && steps == [Open, Migrate]
      && result.Success?
      && result.value.hasTable
      && result.value.rows == existing.rows
      && result.value.nextId == existing.nextId
    // Something survives: exactly one insert attempt.
    ensures faults.open.Succeeds? && faults.migrate.Succeeds? && Transform.Texts(root.chunkedPrompt.chunks) != [] ==>
      steps == [Open, Migrate, Insert]
    ensures faults.open.Succeeds? && faults.migrate.Succeeds? && Transform.Texts(root.chunkedPrompt.chunks) != []
            && faults.insert.Fails? ==>
      result == Failure(InsertError(faults.insert.cause))
    // A successful insert appends the surviving texts in chunk order under increasing new ids.
    ensures faults.open.Succeeds? && faults.migrate.Succeeds? && Transform.Texts(root.chunkedPrompt.chunks) != []
            && faults.insert.Succeeds? ==>
      result.Success? &&
      ChunkStore.AppendsTexts(ChunkStore.Migrate(existing), result.value, Transform.Texts(root.chunkedPrompt.chunks))
    // The write succeeds exactly when no attempted step fails.
    ensures result.Success? <==>
      faults.open.Succeeds? && faults.migrate.Succeeds? &&
      (Transform.Texts(root.chunkedPrompt.chunks) == [] || faults.insert.Succeeds?)
    // A valid store stays valid.
    ensures result.Success? && ChunkStore.Valid(existing) ==> ChunkStore.Valid(result.value)
  {
    steps := [Open];
    if faults.open.Fails? {
      return Failure(OpenError(faults.open.cause)), steps;
    }
    var db := existing;

    steps := steps + [Migrate];
    if faults.migrate.Fails? {
      return Failure(MigrateError(faults.migrate.cause)), steps;
    }
    if ChunkStore.Valid(db) {
      ChunkStore.MigratePreservesValid(db);
    }
    db := ChunkStore.Migrate(db);

    var records := BuildRecords(root.chunkedPrompt.chunks);

    if |records| > 0 {
      steps := steps + [Insert];
      if faults.insert.Fails? {
        return Failure(InsertError(faults.insert.cause)), steps;
      }
      ChunkStore.InsertAppendsBatch(db, records);
      assert ChunkStore.TextsOf(records) == Transform.Texts(root.chunkedPrompt.chunks);
      if ChunkStore.Valid(db) {
        ChunkStore.InsertPreservesValid(db, records);
      }
      db := ChunkStore.Insert(db, records);
    }

    return Success(db), steps;
  }
}
