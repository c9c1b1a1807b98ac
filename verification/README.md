# aistudio-exporter: the chunk transform and the SQLite writer, in Dafny

The exporter reads an AI Studio prompt export. The export is a root object holding a
chunked prompt, which holds an ordered list of chunks. Each chunk has a `text` and an
`isThought` flag. The exporter writes the visible text either to a text file or to a
SQLite table.

This project models the two pieces of real logic and proves properties about them:

- **`ProcessChunks`** drops every thought and every chunk whose text is exactly the empty
  string. It keeps the other texts verbatim and in chunk order, and joins them with the
  fixed separator `"\n---\n"` using the semantics of Go's `strings.Join`.
- **`SQLiteWriter.Write`** opens the store and ensures the chunk table exists. It then
  projects the same surviving chunks into a batch of `ChunkRecord`s with unset ids. It
  inserts the batch in one call, but only when the batch is not empty. The first failing
  step ends the write with a wrapped error.

Files and modules:

- `model.dfy`, module `Model`: the datatypes `Chunk`, `ChunkedPrompt` and `Root`
  (`internal/exporter/model.go:3-14`).
- `join.dfy`, module `Join`: `strings.Join`, with its length and an exact layout
  characterisation.
- `export.dfy`, module `Transform`:
  - the filter `Survives`;
  - the surviving-text list `Texts` and its index characterisation `SurvivorIndices`;
  - `ProcessChunks`;
  - `CollectTexts`, the source loop written branch for branch.
- `store.dfy`, module `ChunkStore`: an abstract store.
  - `ChunkRecord` is a row (`internal/exporter/sqlite_writer.go:11-14`).
  - `Store` holds a table flag, rows in insertion order and the next id the store assigns.
  - `Migrate` creates the schema idempotently.
  - `Insert` is the bulk insert, which numbers rows itself.
  - `Valid` is the store's invariant: ids are positive, strictly increasing and below the
    counter.
- `sqlite_writer.dfy`, module `SqliteWriter`:
  - `BuildRecords` is the record loop, written branch for branch.
  - `Write` is the whole write, against a `Faults` value that says whether the library's
    open, migrate and insert steps succeed in this run.
  - `Write` also returns the steps it attempted, so "no insert was attempted" is a
    checkable statement.
- `scenarios.dfy`, module `Scenarios`: the repository's test cases, as facts about the
  model.
- `wrappers.dfy`, module `Wrappers`: the `Result` type that stands for Go's `error` return.

The two filters in the source are separate loops: one in `export.go` and one in
`sqlite_writer.go`. Each is modelled by its own method, `CollectTexts` and `BuildRecords`.
Both methods are proved equal to the single reference list `Transform.Texts`. So "the
record texts are the list `ProcessChunks` joins" is a theorem, not a consequence of sharing
code.

Two points about the source itself:

- Only the exact empty string is dropped (`internal/exporter/export.go:38`,
  `internal/exporter/sqlite_writer.go:37`). A whitespace-only text survives, as
  `Transform.Survives` states.
- In `internal/exporter/export.go`, `ExportChunks` takes an output path. The tests
  (`export_test.go:112-113`) and `cmd/main.go:40` instead pass a `Writer`. `ExportChunks`
  is not part of this model (see below), so nothing here depends on which is right.

Schema creation is idempotent by construction: `ChunkStore.Migrate` only sets the table
flag. `MigrateIdempotent` and `MigratePreservesValid` record this fact rather than prove
anything deep.

## Model

| member | source | states |
|---|---|---|
| Join.Join | internal/exporter/export.go:43 | joining no parts gives `""`; joining n ≥ 1 parts gives a string whose length is the parts' total length plus n − 1 separator lengths |
| Join.JoinLayout | internal/exporter/export.go:43 | in the joined string, part i sits verbatim at offset (lengths of parts before i) + i·\|sep\|; exactly one separator fills each gap between consecutive parts; the string ends right after the last part |
| Join.JoinSnoc | internal/exporter/export.go:43 | appending one more part adds exactly one separator and that part at the end (the left-to-right way the join is built) |
| Join.JoinAppend | internal/exporter/export.go:43 | joining the concatenation of two non-empty lists gives the two joins with one separator between them |
| Transform.Survives | internal/exporter/export.go:35-40 | the inclusion test shared by both outputs: a chunk is kept iff it is not a thought and its text is not exactly `""` (the same test as internal/exporter/sqlite_writer.go:34-37) |
| Transform.Texts | internal/exporter/export.go:33-41 | the surviving-text list is never longer than the chunk list, and none of its entries is the empty string |
| Transform.SurvivorIndices | internal/exporter/export.go:34-40 | the survivor positions are in range and strictly increasing; every position they list is a non-thought chunk with non-empty text; every such position is listed |
| Transform.TextsAreSurvivorTexts | internal/exporter/export.go:33-41 | entry k of the list is the text of the k-th surviving chunk in chunk order: nothing reordered, altered, added or taken from a dropped chunk |
| Transform.TextsMembership | internal/exporter/export.go:34-40 | a string is in the list iff some non-thought chunk with non-empty text carries it (both directions) |
| Transform.TextsAppend | internal/exporter/export.go:34-41 | inclusion depends only on each chunk itself: the list for `a + b` is the list for `a` followed by the list for `b` |
| Transform.TextsSingleton | internal/exporter/export.go:35-40 | one chunk contributes `[text]` if it is not a thought and its text is not `""`, and nothing otherwise (whitespace-only text is kept) |
| Transform.TextsEmptyIff | internal/exporter/export.go:33-41 | the list is empty iff no chunk survives |
| Transform.ProcessChunks | internal/exporter/export.go:32-44 | no survivors give `""`; one survivor gives its text with no separator; n ≥ 1 survivors give total text length plus 5·(n − 1) |
| Transform.ProcessChunksEmptyIff | internal/exporter/export.go:32-44 | the output is `""` iff every chunk is a thought or has empty text |
| Transform.ProcessChunksLayout | internal/exporter/export.go:43 | the k-th surviving text appears verbatim at its offset in the output, with exactly one `"\n---\n"` between consecutive survivors and nothing after the last |
| Transform.DroppedChunkIgnored | internal/exporter/export.go:35-40 | inserting a thought or an empty-text chunk anywhere in the chunk list leaves the output unchanged |
| Transform.SurvivorContributes | internal/exporter/export.go:38-40 | a surviving chunk contributes its own text, unchanged, exactly between its neighbours' contributions |
| Transform.ProcessChunksConcat | internal/exporter/export.go:32-44 | the output for `a + b` is the two outputs joined by one separator, or just one of them when the other list has no survivor |
| Transform.AlternatingKeepsHalf | internal/exporter/export_test.go:347-386 | chunks alternating thought / non-thought, all with non-empty text, keep exactly half of them (rounded down) |
| Transform.CollectTexts | internal/exporter/export.go:33-41 | the source loop (skip thoughts, append non-empty texts) builds exactly the reference list `Texts` |
| ChunkStore.AssignNumbers | internal/exporter/sqlite_writer.go:11-14 | the rows a bulk insert writes keep the batch's texts in order under consecutive ids starting at the store's counter |
| ChunkStore.Migrate | internal/exporter/sqlite_writer.go:28 | `AutoMigrate`: afterwards the chunk table exists, and the rows and the id counter are as before |
| ChunkStore.MigrateIdempotent | internal/exporter/sqlite_writer.go:27-29 | ensuring the schema twice is the same as ensuring it once |
| ChunkStore.MigratePreservesValid | internal/exporter/sqlite_writer.go:27-29 | ensuring the schema keeps a valid store valid |
| ChunkStore.Insert | internal/exporter/sqlite_writer.go:46 | `Create` on the batch: one bulk insert that appends the batch after the existing rows and numbers the new rows itself (stated by `InsertAppendsBatch`) |
| ChunkStore.InsertAppendsBatch | internal/exporter/sqlite_writer.go:44-49 | a bulk insert leaves the old rows as they were and appends one row per record, in batch order, with ids from the counter upward; the counter advances by the batch size |
| ChunkStore.InsertPreservesValid | internal/exporter/sqlite_writer.go:44-49 | inserting into a valid store that has its table keeps ids positive, below the counter and strictly increasing |
| ChunkStore.AssignAppend | internal/exporter/sqlite_writer.go:44-49 | numbering a concatenated batch numbers the second part from where the first stops |
| ChunkStore.InsertAppend | internal/exporter/sqlite_writer.go:44-49 | one bulk insert of `a + b` leaves the same store as inserting `a` and then `b` |
| SqliteWriter.BuildRecords | internal/exporter/sqlite_writer.go:32-42 | the batch has at most one record per chunk; every record has an unset id (0); the record texts in batch order are exactly the list `ProcessChunks` joins |
| SqliteWriter.Message | internal/exporter/sqlite_writer.go:25-47 | the wrapped error texts: `error opening database: `, `error migrating database: ` and `error inserting chunks: `, each followed by the library's cause |
| SqliteWriter.Write | internal/exporter/sqlite_writer.go:22-52 | a failed open returns the open error with only the open attempted; a failed migrate returns the migrate error with no insert attempted; an empty batch attempts no insert and leaves rows and id counter unchanged; a non-empty batch is inserted once, and a failed insert returns the insert error; a successful insert appends the surviving texts in chunk order under strictly increasing new ids; the write succeeds iff no attempted step fails; a valid store stays valid |
| Scenarios.RegularChunks | internal/exporter/export_test.go:19-30 | two visible chunks `Hello` and `How are you?` give `"Hello\n---\nHow are you?"` |
| Scenarios.ThoughtIgnored | internal/exporter/export_test.go:31-42 | a thought followed by `Answer` gives `"Answer"` |
| Scenarios.EmptyTextDropped | internal/exporter/export_test.go:43-54 | an empty-text chunk followed by `Text` gives `"Text"` |
| Scenarios.AllThoughtsGiveEmpty | internal/exporter/export_test.go:55-66 | two thoughts give `""` |
| Scenarios.ThoughtBetweenLines | internal/exporter/export_test.go:139-162 | `Line 1`, a thought and `Line 2` give `"Line 1\n---\nLine 2"` |
| Scenarios.StoreBatchTexts | internal/exporter/export_test.go:184-220 | `Chunk 1`, a thought, `Chunk 2` and an empty text give the batch texts `["Chunk 1", "Chunk 2"]` |
| Scenarios.LargeDatasetKeepsHalf | internal/exporter/export_test.go:351-385 | the 1000 chunks `Chunk 0` … `Chunk 999`, with every even one a thought, give 500 records |

## Left out

- `ExportChunks` (internal/exporter/export.go:11-29): reading the input file, decoding the
  JSON with Go's library decoder, and writing the output file. This is all file I/O and
  foreign code. The model starts from an already-decoded `Root`.
- `TextWriter.Write` (internal/exporter/text_writer.go): it is `ProcessChunks` followed by
  writing the file with mode 0644. It adds only file-system I/O.
- The `Writer` interface is not part of this model. Its declaration is not in the source
  files, and this model does not guess its signature.
- `cmd/main.go`: command-line glue. This covers argument counts, the `--format` switch
  (`txt`/`text`/`sqlite`/`db`, lower-cased) and the success message.
- JSON decoding defaults: a missing `chunkedPrompt` or `chunks` gives an empty list. This
  belongs to the library decoder.
- The database library (`gorm.Open`, `AutoMigrate`, `Create`) is represented by the
  `Faults` value and the store found at the writer's path. The path itself is not
  modelled: those two values stand for what the file system holds.
- SqliteWriter.Write: after a failed step it returns only the error and says nothing about
  the store file. Whether a failed bulk insert rolls back is SQLite's transaction
  behaviour, which is not modelled.
- ChunkStore.Insert: the store's id choice is abstracted as a counter that only grows.
  How the storage engine picks a row id is not modelled beyond that.
- ChunkStore.Insert: it numbers every record in the batch, whatever id the record
  carries. The library would keep a preset non-zero id, but the writer only ever builds
  records with id 0 (proved in `BuildRecords`).
- ChunkStore.ChunkRecord: the Go `uint` id is an unbounded `nat`, so 64-bit wrap-around of
  the id is not modelled.
- The library writes the assigned ids back into the caller's record slice. This is not
  modelled, because `Write` discards the slice.
- `SqliteWriter.Message` gives the text of the wrapped error prefixes. The library's cause
  is an opaque string.
- Go strings are byte strings; the model uses `seq<char>`, so the lengths in
  `ProcessChunks`'s contract count characters. The laws carry over to bytes: the separator
  is ASCII, and the transform only compares with `""` and concatenates.
- Concurrent writers to one store file: the source assumes a single writer and provides
  no locking.
