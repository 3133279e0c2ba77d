/**
 * `Database`: the `books` and `users` tables behind JPA, kept as in-memory
 * tables keyed by their identity column. `merge` is an upsert, a batch of
 * merges commits as a whole or not at all, and the queries list rows by
 * ascending id.
 */
module Persistence {
  import opened Wrappers
  import opened JavaLang
  import opened BookModel
  import opened UserModel

  // ---------------------------------------------------------------------
  // Tables
  // ---------------------------------------------------------------------

  /** A table: its rows by id, the ids in ascending order, and the next
      value of the identity column. */
  datatype Table<R> = Table(rows: map<int, R>, order: seq<int>, nextId: nat)

  /** The ids listed in `order` are exactly the stored ones, ascending, and
      all below the identity column's next value, which has not run past
      the largest `Integer`. */
  ghost predicate WellFormed<R>(t: Table<R>) {
    && 1 <= t.nextId <= MaxInt + 1
    && (forall i, j | 0 <= i < j < |t.order| :: t.order[i] < t.order[j])
    && (forall i | 0 <= i < |t.order| :: t.order[i] in t.rows)
    && (forall k | k in t.rows :: k in t.order && 1 <= k < t.nextId)
  }

  /** The rows in ascending id order: `SELECT ... ORDER BY id`. */
  function Listing<R>(t: Table<R>): (r: seq<R>)
    requires forall i | 0 <= i < |t.order| :: t.order[i] in t.rows
    ensures |r| == |t.order|
  {
    seq(|t.order|, i requires 0 <= i < |t.order| => t.rows[t.order[i]])
  }

  /** The row `merge` writes: the stored row of the entity's id when there
      is one; otherwise a new row under the identity column's next value,
      whatever id the entity carried; `None` once that column is exhausted. */
  function Place<R>(t: Table<R>, id: Option<Int32>): (k: Option<Int32>)
    ensures k.Some? ==> k.value in t.rows || k.value == t.nextId
  {
    if id.Some? && id.value in t.rows then Some(id.value)
    else if t.nextId <= MaxInt then Some(t.nextId as Int32)
    else None
  }

  /** Writes `row` under `k`: an update of a stored row, or an insert that
      appends `k` to the order and advances the identity column. */
  function Store<R>(t: Table<R>, k: int, row: R): Table<R>
    requires k in t.rows || k == t.nextId
  {
    if k in t.rows then t.(rows := t.rows[k := row])
    else Table(t.rows[k := row], t.order + [k], t.nextId + 1)
  }

  /** Writing keeps a table well formed and keeps every stored id; an
      insert appends its row to the listing and an update replaces the row
      in its place. */
  lemma StoreKeeps<R>(t: Table<R>, k: Int32, row: R)
    requires WellFormed(t)
    requires k in t.rows || k == t.nextId
    ensures var s := Store(t, k, row);
      WellFormed(s) && t.rows.Keys <= s.rows.Keys && t.nextId <= s.nextId
      && |t.order| <= |s.order| && s.order[..|t.order|] == t.order
      && s.rows[k] == row
      && (forall j | j in t.rows && j != k :: s.rows[j] == t.rows[j])
      && (k in t.rows ==> s.order == t.order && s.nextId == t.nextId)
      && (k !in t.rows ==> s.order == t.order + [k] && s.nextId == k + 1)
  {
    var s := Store(t, k, row);
    if k !in t.rows {
      InsertKeepsOrder(t, k, row);
      assert s.order[..|t.order|] == t.order;
    }
  }

  lemma InsertKeepsOrder<R>(t: Table<R>, k: Int32, row: R)
    requires WellFormed(t) && k == t.nextId && k !in t.rows
    ensures WellFormed(Table(t.rows[k := row], t.order + [k], t.nextId + 1))
  {
    var s := Table(t.rows[k := row], t.order + [k], t.nextId + 1);
    forall j | j in s.rows
      ensures j in s.order && 1 <= j < s.nextId
    {
      if j != k {
        assert j in t.order;
      }
    }
    forall i, j | 0 <= i < j < |s.order|
      ensures s.order[i] < s.order[j]
    {
      if j == |t.order| {
        assert t.order[i] in t.rows;
      }
    }
  }

  /** The row `merge` writes is not the row of any other stored id. */
  lemma PlaceOthers<R>(t: Table<R>, id: Option<Int32>, row: R)
    requires WellFormed(t)
    requires Place(t, id).Some?
    ensures var s := Store(t, Place(t, id).value, row);
      forall j | j in t.rows && (id.None? || id.value != j) :: j in s.rows && s.rows[j] == t.rows[j]
  {
  }

  // ---------------------------------------------------------------------
  // The books table
  // ---------------------------------------------------------------------

  const IsbnLength: nat := 20
  const TitleLength: nat := 255
  const AuthorLength: nat := 255

  /** The column constraints of `books`: isbn, title and author present and
      within their declared lengths, and no isbn stored twice. */
  predicate BookConstraints(t: Table<BookState>) {
    && (forall k | k in t.rows ::
          BookModel.Complete(t.rows[k])
          && |t.rows[k].isbn.value| <= IsbnLength
          && |t.rows[k].title.value| <= TitleLength
          && |t.rows[k].author.value| <= AuthorLength)
    && (forall k, j | k in t.rows && j in t.rows && k != j :: t.rows[k].isbn != t.rows[j].isbn)
  }

  /** Every stored book carries the id it is stored under. */
  ghost predicate BooksKeyed(t: Table<BookState>) {
    forall k | k in t.rows :: t.rows[k].id.Some? && t.rows[k].id.value == k
  }

  /** A state of the `books` table. */
  ghost predicate BookTable(t: Table<BookState>) {
    WellFormed(t) && BooksKeyed(t) && BookConstraints(t)
  }

  /** `em.merge(book)`: the book's fields are written to the row `Place`
      chooses, under that row's id; the step fails when the identity column
      is exhausted or the table would break a column constraint. */
  function MergeBook(t: Table<BookState>, b: BookState): (r: Option<Table<BookState>>)
    ensures r.Some? ==> BookConstraints(r.value)
  {
    match Place(t, b.id)
    case None => None
    case Some(k) =>
      var stored := Store(t, k, b.(id := Some(k)));
      if BookConstraints(stored) then Some(stored) else None
  }

  /** A batch of merges in one transaction: each book in turn, stopping at
      the first that fails. */
  function ApplyBooks(t: Table<BookState>, batch: seq<BookState>): Option<Table<BookState>>
    decreases |batch|
  {
    if batch == [] then Some(t)
    else
      match ApplyBooks(t, batch[..|batch| - 1])
      case None => None
      case Some(t1) => MergeBook(t1, batch[|batch| - 1])
  }

  /** The table after the transaction: committed, or rolled back to where
      it started. */
  function Outcome(t: Table<BookState>, batch: seq<BookState>): (r: Table<BookState>)
    ensures BookConstraints(t) ==> BookConstraints(r)
  {
    match ApplyBooks(t, batch)
    case None => t
    case Some(t1) => t1
  }

  /** The book written last under the stored id `k` in the batch, if any. */
  function LastWrite(batch: seq<BookState>, k: int): Option<BookState>
    decreases |batch|
  {
    if batch == [] then None
    else if batch[|batch| - 1].id.Some? && batch[|batch| - 1].id.value == k then Some(batch[|batch| - 1])
    else LastWrite(batch[..|batch| - 1], k)
  }

  /** One merge keeps the table valid, keeps every stored id, and changes
      no row other than the one it writes. */
  lemma MergeBookKeeps(t: Table<BookState>, b: BookState)
    requires BookTable(t)
    requires MergeBook(t, b).Some?
    ensures var t1 := MergeBook(t, b).value;
      BookTable(t1) && t.rows.Keys <= t1.rows.Keys && t.nextId <= t1.nextId
      && |t.order| <= |t1.order| && t1.order[..|t.order|] == t.order
      && (b.id.Some? && b.id.value in t.rows ==>
            t1.rows[b.id.value] == b && t1.order == t.order && t1.nextId == t.nextId)
      && (forall j | j in t.rows && (b.id.None? || b.id.value != j) :: t1.rows[j] == t.rows[j])
  {
    var k := Place(t, b.id).value;
    var row := b.(id := Some(k));
    assert MergeBook(t, b) == Some(Store(t, k, row));
    StoreKeeps(t, k, row);
    StoreBookKeyed(t, k, row);
    PlaceOthers(t, b.id, row);
  }

  /** A book written under its own id keeps every book under its id. */
  lemma StoreBookKeyed(t: Table<BookState>, k: int, row: BookState)
    requires BooksKeyed(t)
    requires k in t.rows || k == t.nextId
    requires row.id == Some(k)
    ensures BooksKeyed(Store(t, k, row))
  {
  }

  /** A failed step fails the whole batch. */
  lemma {:induction false} ApplyFailureStays(t: Table<BookState>, a: seq<BookState>, b: seq<BookState>)
    requires ApplyBooks(t, a).None?
    ensures ApplyBooks(t, a + b).None?
    decreases |b|
  {
    if b == [] {
      assert a + b == a;
    } else {
      ApplyFailureStays(t, a, b[..|b| - 1]);
      assert (a + b)[..|a + b| - 1] == a + b[..|b| - 1];
    }
  }

  /** Running a batch in two parts is running it whole: the second part
      starts from the table the first part commits, and a failed first
      part fails the whole. */
  lemma {:induction false} ApplyBooksAppend(t: Table<BookState>, a: seq<BookState>, b: seq<BookState>)
    ensures ApplyBooks(t, a + b) == match ApplyBooks(t, a) case None => None case Some(t1) => ApplyBooks(t1, b)
    decreases |b|
  {
    if b == [] {
      assert a + b == a;
    } else {
      ApplyBooksAppend(t, a, b[..|b| - 1]);
      assert (a + b)[..|a + b| - 1] == a + b[..|b| - 1];
      assert (a + b)[|a + b| - 1] == b[|b| - 1];
    }
  }

  /** A merge that fails after a committed prefix fails the whole batch. */
  lemma FailedMergeRollsBack(t: Table<BookState>, batch: seq<BookState>, i: nat, current: Table<BookState>)
    requires i < |batch|
    requires ApplyBooks(t, batch[..i]) == Some(current)
    requires MergeBook(current, batch[i]).None?
    ensures ApplyBooks(t, batch).None?
  {
    assert batch[..i + 1][..i] == batch[..i];
    ApplyFailureStays(t, batch[..i + 1], batch[i + 1..]);
    assert batch[..i + 1] + batch[i + 1..] == batch;
  }

  /** A committed batch leaves a valid table that still holds every row id
      it held before, listed in the same order ahead of any new rows. */
  lemma {:induction false} ApplyKeepsTable(t: Table<BookState>, batch: seq<BookState>)
    requires BookTable(t)
    requires ApplyBooks(t, batch).Some?
    ensures var t1 := ApplyBooks(t, batch).value;
      BookTable(t1) && t.rows.Keys <= t1.rows.Keys && t.nextId <= t1.nextId
      && |t.order| <= |t1.order| && t1.order[..|t.order|] == t.order
    decreases |batch|
  {
    if batch != [] {
      var init := batch[..|batch| - 1];
      ApplyKeepsTable(t, init);
      var t0 := ApplyBooks(t, init).value;
      MergeBookKeeps(t0, batch[|batch| - 1]);
    }
  }

  /** After a committed batch every row that was stored holds the last
      book the batch wrote under its id, or is unchanged when the batch
      wrote nothing there. */
  lemma {:induction false} LastWriteWins(t: Table<BookState>, batch: seq<BookState>, k: int)
    requires BookTable(t)
    requires ApplyBooks(t, batch).Some?
    requires k in t.rows
    ensures var t1 := ApplyBooks(t, batch).value;
      k in t1.rows
      && t1.rows[k] == match LastWrite(batch, k) case None => t.rows[k] case Some(b) => b
    decreases |batch|
  {
    if batch != [] {
      var init := batch[..|batch| - 1];
      LastWriteWins(t, init, k);
      ApplyKeepsTable(t, init);
      var t0 := ApplyBooks(t, init).value;
      MergeBookKeeps(t0, batch[|batch| - 1]);
    }
  }

  /** A batch whose every book carries a stored id only updates: the same
      ids in the same order and the identity column untouched. */
  lemma {:induction false} UpdatesOnly(t: Table<BookState>, batch: seq<BookState>)
    requires BookTable(t)
    requires forall i | 0 <= i < |batch| :: batch[i].id.Some? && batch[i].id.value in t.rows
    requires ApplyBooks(t, batch).Some?
    ensures var t1 := ApplyBooks(t, batch).value;
      t1.rows.Keys == t.rows.Keys && t1.order == t.order && t1.nextId == t.nextId
    decreases |batch|
  {
    if batch != [] {
      var init := batch[..|batch| - 1];
      UpdatesOnly(t, init);
      ApplyKeepsTable(t, init);
      var t0 := ApplyBooks(t, init).value;
      MergeBookKeeps(t0, batch[|batch| - 1]);
    }
  }

  /** Saving the same batch of stored ids twice leaves the store as saving
      it once: no row is added, and every row holds the same book. */
  lemma SaveTwiceIsSaveOnce(t: Table<BookState>, batch: seq<BookState>)
    requires BookTable(t)
    requires forall i | 0 <= i < |batch| :: batch[i].id.Some? && batch[i].id.value in t.rows
    ensures Outcome(Outcome(t, batch), batch) == Outcome(t, batch)
  {
    if ApplyBooks(t, batch).Some? {
      var t1 := ApplyBooks(t, batch).value;
      UpdatesOnly(t, batch);
      ApplyKeepsTable(t, batch);
      if ApplyBooks(t1, batch).Some? {
        var t2 := ApplyBooks(t1, batch).value;
        UpdatesOnly(t1, batch);
        forall k | k in t.rows
          ensures t2.rows[k] == t1.rows[k]
        {
          LastWriteWins(t, batch, k);
          LastWriteWins(t1, batch, k);
        }
        assert t2.rows == t1.rows;
      }
    }
  }

  /** A batch holding a book with the isbn of a stored row that the batch
      does not write to is rejected as a whole. */
  lemma DuplicateIsbnRejected(t: Table<BookState>, batch: seq<BookState>, i: nat, k: int)
    requires BookTable(t)
    requires i < |batch| && k in t.rows
    requires batch[i].isbn == t.rows[k].isbn
    requires forall j | 0 <= j < |batch| :: batch[j].id.None? || batch[j].id.value != k
    ensures ApplyBooks(t, batch).None?
  {
    var init := batch[..i];
    assert batch[..i + 1][..i] == init;
    if ApplyBooks(t, init).Some? {
      var t0 := ApplyBooks(t, init).value;
      LastWriteWins(t, init, k);
      NoWriteTo(init, k);
      ApplyKeepsTable(t, init);
      var b := batch[i];
      assert b == batch[..i + 1][i];
      IsbnClashFails(t0, b, k);
    }
    ApplyFailureStays(t, batch[..i + 1], batch[i + 1..]);
    assert batch[..i + 1] + batch[i + 1..] == batch;
  }

  /** Merging a book with the isbn of a stored row it does not write fails. */
  lemma IsbnClashFails(t: Table<BookState>, b: BookState, k: int)
    requires BookTable(t) && k in t.rows
    requires b.isbn == t.rows[k].isbn
    requires b.id.None? || b.id.value != k
    ensures MergeBook(t, b).None?
  {
    var p := Place(t, b.id);
    if p.Some? {
      var row := b.(id := Some(p.value));
      var stored := Store(t, p.value, row);
      PlaceOthers(t, b.id, row);
      assert p.value != k && k in stored.rows && stored.rows[k] == t.rows[k];
      assert stored.rows[p.value] == row;
      assert !BookConstraints(stored);
    }
  }

  /** A batch that never names `k` writes nothing under it. */
  lemma {:induction false} NoWriteTo(batch: seq<BookState>, k: int)
    requires forall j | 0 <= j < |batch| :: batch[j].id.None? || batch[j].id.value != k
    ensures LastWrite(batch, k).None?
    decreases |batch|
  {
    if batch != [] {
      NoWriteTo(batch[..|batch| - 1], k);
    }
  }

  /** The i-th book of a batch is new to the table: it has no id, or an id
      that is neither stored nor one of the ids the batch's earlier books
      are inserted under when they are all new. */
  ghost predicate NewAt(t: Table<BookState>, batch: seq<BookState>, i: nat)
    requires i < |batch|
  {
    batch[i].id.None?
    || (batch[i].id.value !in t.rows && !(t.nextId <= batch[i].id.value < t.nextId + i))
  }

  /** From position `from` on, `all` holds the books of `batch` in order,
      under consecutive ids starting at `firstId`. */
  ghost predicate RowsFrom(all: seq<BookState>, from: nat, firstId: int, batch: seq<BookState>) {
    from + |batch| == |all|
    && forall i | 0 <= i < |batch| :: RowAt(all, from, firstId, batch, i)
  }

  /** Position `from + i` of `all` holds the i-th book of `batch` under id
      `firstId + i`. */
  ghost predicate RowAt(all: seq<BookState>, from: nat, firstId: int, batch: seq<BookState>, i: nat)
    requires i < |batch| && from + |batch| == |all|
  {
    all[from + i].id.Some? && all[from + i].id.value == firstId + i
    && all[from + i] == batch[i].(id := all[from + i].id)
  }

  lemma RowsFromSnoc(all: seq<BookState>, from: nat, firstId: int, batch: seq<BookState>, row: BookState, b: BookState)
    requires RowsFrom(all, from, firstId, batch)
    requires row.id.Some? && row.id.value == firstId + |batch| && row == b.(id := row.id)
    ensures RowsFrom(all + [row], from, firstId, batch + [b])
  {
    var all1, batch1 := all + [row], batch + [b];
    forall i | 0 <= i < |batch1|
      ensures RowAt(all1, from, firstId, batch1, i)
    {
      if i < |batch| {
        assert RowAt(all, from, firstId, batch, i);
        assert all1[from + i] == all[from + i];
        assert batch1[i] == batch[i];
      } else {
        assert all1[from + i] == row;
        assert batch1[i] == b;
      }
    }
  }

  /** What a committed batch of new books did to `t`, as seen in `t1`. */
  ghost predicate AppendedTo(t: Table<BookState>, t1: Table<BookState>, batch: seq<BookState>) {
    BookTable(t) && BookTable(t1) && t1.nextId == t.nextId + |batch|
    && RowsFrom(Listing(t1), |t.order|, t.nextId, batch)
    && Listing(t1)[..|t.order|] == Listing(t)
  }

  /** A committed batch of new books appends them to the listing in batch
      order, under consecutive ids from the identity column's next value,
      and leaves the rows already listed as they were. */
  lemma {:induction false} NewBooksAppended(t: Table<BookState>, batch: seq<BookState>)
    requires BookTable(t)
    requires forall i | 0 <= i < |batch| :: NewAt(t, batch, i)
    requires ApplyBooks(t, batch).Some?
    ensures AppendedTo(t, ApplyBooks(t, batch).value, batch)
    decreases |batch|
  {
    if batch == [] {
      assert Listing(t)[..|t.order|] == Listing(t);
    } else {
      var n := |batch| - 1;
      var init, b := batch[..n], batch[n];
      assert init + [b] == batch;
      assert ApplyBooks(t, init).Some?;
      NewPrefix(t, batch, n);
      NewBooksAppended(t, init);
      assert NewAt(t, batch, n);
      NewBookNext(t, init, b);
    }
  }

  /** Every book of a prefix of a new batch is new at its position. */
  lemma NewPrefix(t: Table<BookState>, batch: seq<BookState>, n: nat)
    requires n <= |batch|
    requires forall i | 0 <= i < n :: NewAt(t, batch, i)
    ensures forall i | 0 <= i < n :: NewAt(t, batch[..n], i)
  {
    forall i | 0 <= i < n
      ensures NewAt(t, batch[..n], i)
    {
      assert batch[..n][i] == batch[i];
      assert NewAt(t, batch, i);
    }
  }

  lemma NewBookNext(t: Table<BookState>, init: seq<BookState>, b: BookState)
    requires BookTable(t)
    requires b.id.None? || (b.id.value !in t.rows && !(t.nextId <= b.id.value < t.nextId + |init|))
    requires ApplyBooks(t, init).Some? && ApplyBooks(t, init + [b]).Some?
    requires AppendedTo(t, ApplyBooks(t, init).value, init)
    ensures AppendedTo(t, ApplyBooks(t, init + [b]).value, init + [b])
  {
    var t0 := ApplyBooks(t, init).value;
    assert (init + [b])[..|init|] == init;
    assert ApplyBooks(t, init + [b]) == MergeBook(t0, b);
    assert b.id.None? || b.id.value !in t0.rows by {
      if b.id.Some? && b.id.value in t0.rows {
        NewKeysAboveNext(t, init, b.id.value);
      }
    }
    NewBookStep(t, t0, init, b);
  }

  /** A catalogue numbered 1, 2, 3, ... imported into an empty books table
      is listed exactly as it was read: every book under its own id. */
  lemma NumberedImportListed(batch: seq<BookState>)
    requires forall i | 0 <= i < |batch| :: batch[i].id.Some? && batch[i].id.value == i + 1
    requires ApplyBooks(Table(map[], [], 1), batch).Some?
    ensures var t1 := ApplyBooks(Table(map[], [], 1), batch).value;
      (forall i | 0 <= i < |t1.order| :: t1.order[i] in t1.rows) && Listing(t1) == batch
  {
    var t := Table(map[], [], 1);
    assert BookTable(t);
    forall i | 0 <= i < |batch|
      ensures NewAt(t, batch, i)
    {
    }
    NewBooksAppended(t, batch);
    var t1 := ApplyBooks(t, batch).value;
    RowsFromStart(Listing(t1), batch);
  }

  /** A run of appended rows that starts at the top of the listing under
      id 1, of books numbered 1, 2, 3, ..., is those books. */
  lemma RowsFromStart(listed: seq<BookState>, batch: seq<BookState>)
    requires RowsFrom(listed, 0, 1, batch)
    requires forall i | 0 <= i < |batch| :: batch[i].id.Some? && batch[i].id.value == i + 1
    ensures listed == batch
  {
    forall i | 0 <= i < |batch|
      ensures listed[i] == batch[i]
    {
      assert RowAt(listed, 0, 1, batch, i);
    }
  }

  /** A batch book that carries the id an earlier new book of the batch was
      inserted under overwrites that book: the row now holds the later book
      and no row is added, so the earlier book is lost. */
  lemma CollidingIdOverwrites(t: Table<BookState>, batch: seq<BookState>, j: nat)
    requires BookTable(t)
    requires |batch| >= 2 && j < |batch| - 1
    requires forall i | 0 <= i < |batch| - 1 :: NewAt(t, batch, i)
    requires batch[|batch| - 1].id.Some? && batch[|batch| - 1].id.value == t.nextId + j
    requires ApplyBooks(t, batch).Some?
    ensures var t1 := ApplyBooks(t, batch).value;
      t.nextId + j in t1.rows && t1.rows[t.nextId + j] == batch[|batch| - 1]
      && t1.nextId == t.nextId + |batch| - 1 && |t1.order| == |t.order| + |batch| - 1
  {
    var n := |batch| - 1;
    var init, b := batch[..n], batch[n];
    assert init + [b] == batch;
    assert ApplyBooks(t, init).Some?;
    NewPrefix(t, batch, n);
    NewBooksAppended(t, init);
    var t0 := ApplyBooks(t, init).value;
    AppendedKey(t, t0, init, j);
    assert ApplyBooks(t, batch) == MergeBook(t0, b);
    MergeBookKeeps(t0, b);
  }

  /** The j-th book of an appended run is stored under the j-th id from the
      identity column's old value. */
  lemma AppendedKey(t: Table<BookState>, t0: Table<BookState>, init: seq<BookState>, j: nat)
    requires AppendedTo(t, t0, init) && j < |init|
    ensures t.nextId + j in t0.rows
  {
    var listed := Listing(t0);
    var p := |t.order| + j;
    assert RowAt(listed, |t.order|, t.nextId, init, j);
    var k := t0.order[p];
    assert k in t0.rows;
    assert listed[p] == t0.rows[k];
    assert t0.rows[k].id == Some(k);
    assert k == t.nextId + j;
  }

  lemma NewBookStep(t: Table<BookState>, t0: Table<BookState>, init: seq<BookState>, b: BookState)
    requires AppendedTo(t, t0, init)
    requires b.id.None? || b.id.value !in t0.rows
    requires MergeBook(t0, b).Some?
    ensures AppendedTo(t, MergeBook(t0, b).value, init + [b])
  {
    InsertAppends(t0, b);
    var t1 := MergeBook(t0, b).value;
    var before, after := Listing(t0), Listing(t1);
    assert after[..|t.order|] == before[..|t.order|];
    RowsFromSnoc(before, |t.order|, t.nextId, init, t1.rows[t0.nextId], b);
  }

  /** Merging a book that names no stored row appends it to the listing
      under the identity column's next value. */
  lemma InsertAppends(t: Table<BookState>, b: BookState)
    requires BookTable(t)
    requires b.id.None? || b.id.value !in t.rows
    requires MergeBook(t, b).Some?
    ensures var t1 := MergeBook(t, b).value;
      BookTable(t1) && t1.nextId == t.nextId + 1
      && Listing(t1) == Listing(t) + [b.(id := t1.rows[t.nextId].id)]
      && t1.rows[t.nextId].id.Some? && t1.rows[t.nextId].id.value == t.nextId
  {
    var k := Place(t, b.id).value;
    StoreKeeps(t, k, b.(id := Some(k)));
    MergeBookKeeps(t, b);
    var t1 := MergeBook(t, b).value;
    var before, after := Listing(t), Listing(t1);
    forall i | 0 <= i < |t.order|
      ensures after[i] == before[i]
    {
      assert t.order[i] in t.rows;
    }
  }

  /** In a committed batch, a book that is new to the table the batch has
      reached before it (no id, or an id not stored there) is inserted under
      that table's identity value, fresh to the starting table, and keeps
      that row unless a later book of the batch names the same id. */
  lemma NewBookInserted(t: Table<BookState>, batch: seq<BookState>, i: nat)
    requires BookTable(t)
    requires i < |batch|
    requires ApplyBooks(t, batch).Some?
    requires batch[i].id.None? || batch[i].id.value !in Outcome(t, batch[..i]).rows
    requires forall j | i < j < |batch| :: batch[j].id.None? || batch[j].id.value != Outcome(t, batch[..i]).nextId
    ensures ApplyBooks(t, batch[..i]).Some?
    ensures var k := Outcome(t, batch[..i]).nextId; var t1 := ApplyBooks(t, batch).value;
      t.nextId <= k && k !in t.rows && k in t1.rows
      && t1.rows[k].id.Some? && t1.rows[k].id.value == k && t1.rows[k] == batch[i].(id := t1.rows[k].id)
  {
    var ti, t2 := CommittedAt(t, batch, i);
    ApplyKeepsTable(t, batch[..i]);
    InsertAppends(ti, batch[i]);
    var k := ti.nextId;
    var rest := batch[i + 1..];
    forall j | 0 <= j < |rest|
      ensures rest[j].id.None? || rest[j].id.value != k
    {
      assert rest[j] == batch[i + 1 + j];
    }
    UntouchedRow(t2, rest, k);
  }

  /** A committed batch passes, at each position, through the table its
      prefix commits and the merge of the book there. */
  lemma CommittedAt(t: Table<BookState>, batch: seq<BookState>, i: nat) returns (ti: Table<BookState>, t2: Table<BookState>)
    requires i < |batch|
    requires ApplyBooks(t, batch).Some?
    ensures ApplyBooks(t, batch[..i]) == Some(ti) && MergeBook(ti, batch[i]) == Some(t2)
    ensures ApplyBooks(t2, batch[i + 1..]) == ApplyBooks(t, batch)
  {
    var upto, rest := batch[..i + 1], batch[i + 1..];
    assert upto + rest == batch;
    ApplyBooksAppend(t, upto, rest);
    assert upto[..i] == batch[..i] && upto[i] == batch[i];
    ti := ApplyBooks(t, batch[..i]).value;
    t2 := ApplyBooks(t, upto).value;
  }

  /** A committed batch that never names the stored id `k` leaves its row. */
  lemma UntouchedRow(t: Table<BookState>, batch: seq<BookState>, k: int)
    requires BookTable(t)
    requires ApplyBooks(t, batch).Some?
    requires k in t.rows
    requires forall j | 0 <= j < |batch| :: batch[j].id.None? || batch[j].id.value != k
    ensures k in ApplyBooks(t, batch).value.rows && ApplyBooks(t, batch).value.rows[k] == t.rows[k]
  {
    NoWriteTo(batch, k);
    LastWriteWins(t, batch, k);
  }

  /** Every row a committed batch adds has an id at or above the identity
      column's value before the batch. */
  lemma NewKeysAboveNext(t: Table<BookState>, batch: seq<BookState>, k: int)
    requires BookTable(t)
    requires ApplyBooks(t, batch).Some?
    requires k in ApplyBooks(t, batch).value.rows && k !in t.rows
    ensures k >= t.nextId
  {
    var t1 := ApplyBooks(t, batch).value;
    ApplyKeepsTable(t, batch);
    assert k in t1.order;
    assert forall j | 0 <= j < |t.order| :: t1.order[j] == t.order[j] && t.order[j] in t.rows;
    var i :| 0 <= i < |t1.order| && t1.order[i] == k;
    assert i >= |t.order|;
    NewRowsAbove(t, batch, i);
  }

  /** The ids a committed batch appends to the order are at or above the
      identity column's value before the batch. */
  lemma {:induction false} NewRowsAbove(t: Table<BookState>, batch: seq<BookState>, i: nat)
    requires BookTable(t)
    requires ApplyBooks(t, batch).Some?
    requires |t.order| <= i < |ApplyBooks(t, batch).value.order|
    ensures ApplyBooks(t, batch).value.order[i] >= t.nextId
    decreases |batch|
  {
    if batch == [] {
      assert false;
    } else {
      var init := batch[..|batch| - 1];
      ApplyKeepsTable(t, init);
      var t0 := ApplyBooks(t, init).value;
      var b := batch[|batch| - 1];
      var k := Place(t0, b.id).value;
      StoreKeeps(t0, k, b.(id := Some(k)));
      var t1 := ApplyBooks(t, batch).value;
      if i < |t0.order| {
        NewRowsAbove(t, init, i);
        assert t1.order[i] == t0.order[i];
      } else {
        ApplyKeepsTable(t, init);
        assert t1.order[i] == t0.nextId;
      }
    }
  }

  // ---------------------------------------------------------------------
  // The users table
  // ---------------------------------------------------------------------

  const NameLength: nat := 100
  const EmailLength: nat := 255
  const SecretLength: nat := 500

  /** The column constraints of `users`: every column but the id present,
      names, email, hash and salt within their declared lengths, and no
      email stored twice. */
  predicate UserConstraints(t: Table<UserState>) {
    && (forall k | k in t.rows ::
          UserModel.Complete(t.rows[k])
          && |t.rows[k].firstname.value| <= NameLength
          && |t.rows[k].lastname.value| <= NameLength
          && |t.rows[k].email.value| <= EmailLength
          && |t.rows[k].passwordHash.value| <= SecretLength
          && |t.rows[k].passwordSalt.value| <= SecretLength)
    && (forall k, j | k in t.rows && j in t.rows && k != j :: t.rows[k].email != t.rows[j].email)
  }

  /** Every stored user carries the id it is stored under. */
  ghost predicate UsersKeyed(t: Table<UserState>) {
    forall k | k in t.rows :: t.rows[k].id.Some? && t.rows[k].id.value == k
  }

  /** A state of the `users` table. */
  ghost predicate UserTable(t: Table<UserState>) {
    WellFormed(t) && UsersKeyed(t) && UserConstraints(t)
  }

  /** `em.merge(user)`, as `MergeBook` for books. */
  function MergeUser(t: Table<UserState>, u: UserState): (r: Option<Table<UserState>>)
    ensures r.Some? ==> UserConstraints(r.value)
  {
    match Place(t, u.id)
    case None => None
    case Some(k) =>
      var stored := Store(t, k, u.(id := Some(k)));
      if UserConstraints(stored) then Some(stored) else None
  }

  /** A committed merge keeps the users table valid and leaves every
      other user as it was. */
  lemma MergeUserKeeps(t: Table<UserState>, u: UserState)
    requires UserTable(t)
    requires MergeUser(t, u).Some?
    ensures var t1 := MergeUser(t, u).value;
      UserTable(t1)
      && (forall j | j in t.rows && (u.id.None? || u.id.value != j) :: j in t1.rows && t1.rows[j] == t.rows[j])
  {
    var k := Place(t, u.id).value;
    var row := u.(id := Some(k));
    assert MergeUser(t, u) == Some(Store(t, k, row));
    StoreKeeps(t, k, row);
    StoreUserKeyed(t, k, row);
    PlaceOthers(t, u.id, row);
  }

  /** A user written under its own id keeps every user under its id. */
  lemma StoreUserKeyed(t: Table<UserState>, k: int, row: UserState)
    requires UsersKeyed(t)
    requires k in t.rows || k == t.nextId
    requires row.id == Some(k)
    ensures UsersKeyed(Store(t, k, row))
  {
  }

  /** A committed user is afterwards listed with exactly the fields it was
      saved with, under a stored id; a user without an id gets one no other
      user had. */
  lemma SavedUserListed(t: Table<UserState>, u: UserState)
    requires UserTable(t)
    requires MergeUser(t, u).Some?
    ensures var t1 := MergeUser(t, u).value;
      UserTable(t1)
      && exists i | 0 <= i < |Listing(t1)| ::
           Listing(t1)[i] == u.(id := Listing(t1)[i].id)
           && (u.id.None? ==> Listing(t1)[i].id.value !in t.rows)
  {
    var k := Place(t, u.id).value;
    MergeUserKeeps(t, u);
    var t1 := MergeUser(t, u).value;
    StoreKeeps(t, k, u.(id := Some(k)));
    assert t1.rows[k] == u.(id := Some(k));
    assert u.id.None? ==> k !in t.rows;
    var i := ListedAt(t1, k);
    assert Listing(t1)[i].id == Some(k);
  }

  /** A stored row is listed: the position of its id in the order. */
  lemma ListedAt<R>(t: Table<R>, k: int) returns (i: nat)
    requires WellFormed(t) && k in t.rows
    ensures i < |Listing(t)| && Listing(t)[i] == t.rows[k]
  {
    assert k in t.order;
    i :| 0 <= i < |t.order| && t.order[i] == k;
  }

  /** A user whose email another stored user already has is refused. */
  lemma DuplicateEmailRejected(t: Table<UserState>, u: UserState, k: int)
    requires UserTable(t)
    requires k in t.rows && u.email == t.rows[k].email
    requires u.id.None? || u.id.value != k
    ensures MergeUser(t, u).None?
  {
    var p := Place(t, u.id);
    if p.Some? {
      var row := u.(id := Some(p.value));
      var stored := Store(t, p.value, row);
      PlaceOthers(t, u.id, row);
      assert k != p.value && k in stored.rows && stored.rows[k] == t.rows[k];
      assert stored.rows[p.value] == row;
      assert !UserConstraints(stored);
    }
  }

  // ---------------------------------------------------------------------
  // The store
  // ---------------------------------------------------------------------

  /** The database the app talks to through one `EntityManagerFactory`. */
  class Database {
    var books: Table<BookState>
    var users: Table<UserState>

    ghost predicate Valid()
      reads this
    {
      BookTable(books) && UserTable(users)
    }

    /** A database holding the given tables. */
    constructor (books: Table<BookState>, users: Table<UserState>)
      requires BookTable(books) && UserTable(users)
      ensures Valid() && this.books == books && this.users == users
    {
      this.books := books;
      this.users := users;
    }

    /** `getAllBooks()`: every stored book, once, by ascending id. */
    function GetAllBooks(): (r: seq<BookState>)
      reads this
      requires Valid()
      ensures forall i | 0 <= i < |r| :: r[i].id.Some? && r[i].id.value in books.rows && books.rows[r[i].id.value] == r[i]
      ensures forall i, j | 0 <= i < j < |r| :: r[i].id.value < r[j].id.value
      ensures forall k | k in books.rows :: books.rows[k] in r
    {
      ListingAscending(books);
      Listing(books)
    }

    /** `getAllBooks(limit)`: the first `limit` books of `getAllBooks()` for
        a positive limit, all of them otherwise. */
    function GetAllBooksLimited(limit: Int32): (r: seq<BookState>)
      reads this
      requires Valid()
      ensures r <= GetAllBooks()
      ensures limit > 0 ==> |r| == Min(limit, |GetAllBooks()|)
      ensures limit <= 0 ==> r == GetAllBooks()
    {
      var all := GetAllBooks();
      if limit > 0 && limit < |all| then all[..limit] else all
    }

    /** `getAllUsers()`: every stored user, once, by ascending id. */
    function GetAllUsers(): (r: seq<UserState>)
      reads this
      requires Valid()
      ensures forall i | 0 <= i < |r| :: r[i].id.Some? && r[i].id.value in users.rows && users.rows[r[i].id.value] == r[i]
      ensures forall i, j | 0 <= i < j < |r| :: r[i].id.value < r[j].id.value
      ensures forall k | k in users.rows :: users.rows[k] in r
    {
      UserListingAscending(users);
      Listing(users)
    }

    /** `saveBooks(books)`: every merge of the batch in one transaction; the
        books table is the batch's result when every step succeeds and is
        rolled back otherwise, and the failure is swallowed. */
    method SaveBooks(batch: seq<BookState>)
      requires Valid()
      modifies this
      ensures Valid()
      ensures books == Outcome(old(books), batch)
      ensures users == old(users)
    {
      var current := books;
      var i := 0;
      while i < |batch|
        invariant 0 <= i <= |batch|
        invariant ApplyBooks(books, batch[..i]) == Some(current)
      {
        var merged := MergeBook(current, batch[i]);
        if merged.None? {
          FailedMergeRollsBack(books, batch, i, current);
          return;
        }
        assert batch[..i + 1][..i] == batch[..i];
        current := merged.value;
        i := i + 1;
      }
      assert batch[..i] == batch;
      ApplyKeepsTable(books, batch);
      books := current;
    }

    /** `saveUser(user)`: one merge in one transaction. It commits and
        answers true, or rolls back and answers false, which stands for
        the exception passed on to the caller. The user object itself is
        not changed: `merge` does not give it the id it was stored under. */
    method SaveUser(user: User) returns (saved: bool)
      requires Valid()
      modifies this
      ensures Valid()
      ensures saved <==> MergeUser(old(users), user.State()).Some?
      ensures saved ==> users == MergeUser(old(users), user.State()).value
      ensures !saved ==> users == old(users)
      ensures books == old(books)
    {
      var merged := MergeUser(users, user.State());
      if merged.None? {
        return false;
      }
      MergeUserKeeps(users, user.State());
      users := merged.value;
      saved := true;
    }
  }

  /** The smaller of two numbers. */
  function Min(a: int, b: int): int {
    if a < b then a else b
  }

  /** Listed books carry ascending ids, each the id of its row. */
  lemma ListingAscending(t: Table<BookState>)
    requires BookTable(t)
    ensures var r := Listing(t);
      (forall i | 0 <= i < |r| :: r[i].id.Some? && r[i].id.value in t.rows && t.rows[r[i].id.value] == r[i])
      && (forall i, j | 0 <= i < j < |r| :: r[i].id.value < r[j].id.value)
      && (forall k | k in t.rows :: t.rows[k] in r)
  {
    var r := Listing(t);
    forall k | k in t.rows
      ensures t.rows[k] in r
    {
      var i :| 0 <= i < |t.order| && t.order[i] == k;
      assert r[i] == t.rows[k];
    }
  }

  /** Listed users carry ascending ids, each the id of its row. */
  lemma UserListingAscending(t: Table<UserState>)
    requires UserTable(t)
    ensures var r := Listing(t);
      (forall i | 0 <= i < |r| :: r[i].id.Some? && r[i].id.value in t.rows && t.rows[r[i].id.value] == r[i])
      && (forall i, j | 0 <= i < j < |r| :: r[i].id.value < r[j].id.value)
      && (forall k | k in t.rows :: t.rows[k] in r)
  {
    var r := Listing(t);
    forall k | k in t.rows
      ensures t.rows[k] in r
    {
      var i :| 0 <= i < |t.order| && t.order[i] == k;
      assert r[i] == t.rows[k];
    }
  }
}
