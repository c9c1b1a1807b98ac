/**
  An abstract model of the single-table record store the SQLite writer
  fills: whether the chunk table exists, its rows in insertion order, and
  the next surrogate id the store will hand out. The storage engine itself
  is not modelled; only what the writer relies on.
 */
module ChunkStore {

  /**
    One persisted chunk. An `id` of 0 means "not assigned yet": the writer
    builds records that way and the store assigns identity on insert.
   */
  datatype ChunkRecord = ChunkRecord(id: nat, text: string)

  /** The store file as the writer finds and leaves it. */
  datatype Store = Store(hasTable: bool, rows: seq<ChunkRecord>, nextId: nat)

  /**
    The store's own invariant: no rows without a table, every id positive
    and below `nextId`, and ids strictly increasing in row order.
   */
  predicate Valid(s: Store)
  {
    && 1 <= s.nextId
    && (!s.hasTable ==> s.rows == [])
    && (forall i :: 0 <= i < |s.rows| ==> 1 <= s.rows[i].id < s.nextId)
    && (forall i, j :: 0 <= i < j < |s.rows| ==> s.rows[i].id < s.rows[j].id)
  }

  /**
    `after` is `before` with one new row per text appended, in order, whose
    ids continue from `before.nextId` one by one.
   */
  predicate AppendsTexts(before: Store, after: Store, texts: seq<string>)
  {
    && after.hasTable == before.hasTable
    && |after.rows| == |before.rows| + |texts|
    && after.rows[..|before.rows|] == before.rows
    && (forall k :: 0 <= k < |texts| ==>
          after.rows[|before.rows| + k] == ChunkRecord(before.nextId + k, texts[k]))
    && after.nextId == before.nextId + |texts|
  }

  /** The texts of a batch, in batch order. */
  function TextsOf(batch: seq<ChunkRecord>): (r: seq<string>)
    ensures |r| == |batch|
    ensures forall k :: 0 <= k < |batch| ==> r[k] == batch[k].text
  {
    if |batch| == 0 then [] else [batch[0].text] + TextsOf(batch[1..])
  }

  /** The rows a bulk insert writes: the batch's texts under consecutive ids from `first`. */
  function Assign(batch: seq<ChunkRecord>, first: nat): seq<ChunkRecord>
  {
    if |batch| == 0 then [] else [ChunkRecord(first, batch[0].text)] + Assign(batch[1..], first + 1)
  }

  /** Row k of a numbered batch carries record k's text under id `first + k`. */
  lemma {:induction false} AssignNumbers(batch: seq<ChunkRecord>, first: nat)
    ensures |Assign(batch, first)| == |batch|
    ensures forall k :: 0 <= k < |batch| ==> Assign(batch, first)[k] == ChunkRecord(first + k, batch[k].text)
  {
    if |batch| > 0 {
      AssignNumbers(batch[1..], first + 1);
    }
  }

  /**
    Idempotent schema creation: afterwards the table exists, and the rows
    and the id counter are what they were.
   */
  function Migrate(s: Store): Store
  {
    Store(true, s.rows, s.nextId)
  }

  /** Migrating twice is migrating once. */
  lemma {:induction false} MigrateIdempotent(s: Store)
    ensures Migrate(Migrate(s)) == Migrate(s)
  {
  }

  /** Schema creation keeps the store valid. */
  lemma {:induction false} MigratePreservesValid(s: Store)
    requires Valid(s)
    ensures Valid(Migrate(s))
  {
  }

  /**
    One bulk insert: the batch is appended after the existing rows in batch
    order, and the store numbers the new rows itself.
   */
  function Insert(s: Store, batch: seq<ChunkRecord>): Store
  {
    Store(s.hasTable, s.rows + Assign(batch, s.nextId), s.nextId + |batch|)
  }

  /** What a bulk insert does to the store, in terms of the batch's texts. */
  lemma {:induction false} InsertAppendsBatch(s: Store, batch: seq<ChunkRecord>)
    ensures AppendsTexts(s, Insert(s, batch), TextsOf(batch))
  {
    AssignNumbers(batch, s.nextId);
    assert (s.rows + Assign(batch, s.nextId))[..|s.rows|] == s.rows;
  }

  /** Inserting into a store that has its table keeps the store valid. */
  lemma {:induction false} InsertPreservesValid(s: Store, batch: seq<ChunkRecord>)
    requires Valid(s) && s.hasTable
    ensures Valid(Insert(s, batch))
  {
    var r := Insert(s, batch);
    var n := |s.rows|;
    AssignNumbers(batch, s.nextId);
    forall i, j | 0 <= i < j < |r.rows|
      ensures r.rows[i].id < r.rows[j].id
    {
      if j < n {
        assert r.rows[i] == s.rows[i] && r.rows[j] == s.rows[j];
      } else if i < n {
        assert r.rows[i] == s.rows[i];
      }
    }
  }

  /** Numbering a concatenated batch numbers the second part where the first stops. */
  lemma {:induction false} AssignAppend(a: seq<ChunkRecord>, b: seq<ChunkRecord>, first: nat)
    ensures Assign(a + b, first) == Assign(a, first) + Assign(b, first + |a|)
  {
    if |a| > 0 {
      assert (a + b)[1..] == a[1..] + b;
      AssignAppend(a[1..], b, first + 1);
    } else {
      assert a + b == b;
    }
  }

  /** One bulk insert of `a + b` leaves the same store as inserting `a` and then `b`. */
  lemma {:induction false} InsertAppend(s: Store, a: seq<ChunkRecord>, b: seq<ChunkRecord>)
    ensures Insert(s, a + b) == Insert(Insert(s, a), b)
  {
    var first := Assign(a, s.nextId);
    var second := Assign(b, s.nextId + |a|);
    AssignAppend(a, b, s.nextId);
    assert Insert(s, a + b) == Store(s.hasTable, s.rows + (first + second), s.nextId + |a| + |b|);
    assert Insert(Insert(s, a), b) == Store(s.hasTable, (s.rows + first) + second, s.nextId + |a| + |b|);
    assert s.rows + (first + second) == (s.rows + first) + second;
  }
}
