/** The translation queue (`AITranslator\Translation\Queue`): a table of
    (post, language) jobs that a scheduled task works through in batches.
    The table is a sequence of rows in table order; each SQL statement is
    a pure function from the table to the new table. */
module TranslationQueue {
  import opened Php
  import opened WordPress

  const InvalidInput := WpError("invalid_input", "Invalid post IDs or languages")
  const DbError := WpError("db_error", "Failed to add items to queue")
  const SecondsPerDay := 86400

  datatype Status = Pending | Processing | Completed | Failed

  /** A row of the queue table; `error` and `completedAt` are SQL NULL until
      the row is processed. */
  datatype Item = Item(id: nat, postId: int, lang: string, status: Status,
                       error: Option<string>, createdAt: int, completedAt: Option<int>)

  /** `id` is the table's primary key. */
  predicate UniqueIds(s: seq<Item>)
  {
    forall i, j | 0 <= i < j < |s| :: s[i].id != s[j].id
  }

  lemma UniqueIdsCons(x: Item, s: seq<Item>)
    ensures UniqueIds([x] + s) <==> (forall y | y in s :: y.id != x.id) && UniqueIds(s)
  {
    var t := [x] + s;
    if (forall y | y in s :: y.id != x.id) && UniqueIds(s) {
      forall i, j | 0 <= i < j < |t| ensures t[i].id != t[j].id {
        if i > 0 {
          assert t[i] == s[i - 1] && t[j] == s[j - 1];
        } else {
          assert t[j] == s[j - 1];
        }
      }
    }
    if UniqueIds(t) {
      forall i, j | 0 <= i < j < |s| ensures s[i].id != s[j].id {
        assert s[i] == t[i + 1] && s[j] == t[j + 1];
      }
      forall y | y in s ensures y.id != x.id {
        var j :| 0 <= j < |s| && s[j] == y;
        assert t[j + 1] == y && t[0] == x;
      }
    }
  }

  // ---------------------------------------------------------------------
  // add_to_queue

  /** The rows inserted for one post: one per language, in language order. */
  function PostRows(postId: int, langs: seq<string>, now: int, firstId: nat): (r: seq<Item>)
  {
    seq(|langs|, j requires 0 <= j < |langs| => Item(firstId + j, postId, langs[j], Pending, None, now, None))
  }

  /** The rows of one `INSERT`: post-major, language-minor, with consecutive
      auto-increment ids. */
  function NewItems(postIds: seq<int>, langs: seq<string>, now: int, firstId: nat): (r: seq<Item>)
    ensures |r| == |postIds| * |langs|
    decreases postIds
  {
    if postIds == [] then []
    else
      var rest := NewItems(postIds[1..], langs, now, firstId + |langs|);
      assert |postIds| * |langs| == |langs| + (|postIds| - 1) * |langs|;
      PostRows(postIds[0], langs, now, firstId) + rest
  }

  /** The row for post `i` and language `j` sits at `i * |langs| + j`: a
      pending row for that pair, stamped with the insertion time. */
  lemma {:induction false} NewItemsAt(postIds: seq<int>, langs: seq<string>, now: int, firstId: nat, i: nat, j: nat)
    requires i < |postIds| && j < |langs|
    ensures i * |langs| + j < |NewItems(postIds, langs, now, firstId)|
    ensures NewItems(postIds, langs, now, firstId)[i * |langs| + j] ==
      Item(firstId + i * |langs| + j, postIds[i], langs[j], Pending, None, now, None)
    decreases i
  {
    var r := NewItems(postIds, langs, now, firstId);
    var head := PostRows(postIds[0], langs, now, firstId);
    var rest := NewItems(postIds[1..], langs, now, firstId + |langs|);
    assert r == head + rest;
    if i == 0 {
      assert r[j] == head[j];
    } else {
      NewItemsAt(postIds[1..], langs, now, firstId + |langs|, i - 1, j);
      assert i * |langs| + j == |langs| + ((i - 1) * |langs| + j);
      assert r[i * |langs| + j] == rest[(i - 1) * |langs| + j];
    }
  }

  /** Every inserted row is pending, stamped `now`, for a listed post and a
      listed language, with an id from `firstId` on. */
  lemma {:induction false} NewItemsShape(postIds: seq<int>, langs: seq<string>, now: int, firstId: nat)
    ensures forall x | x in NewItems(postIds, langs, now, firstId) ::
      && x.status == Pending && x.createdAt == now && x.error.None? && x.completedAt.None?
      && x.postId in postIds && x.lang in langs
      && firstId <= x.id < firstId + |postIds| * |langs|
    ensures UniqueIds(NewItems(postIds, langs, now, firstId))
    decreases postIds
  {
    if postIds != [] {
      NewItemsShape(postIds[1..], langs, now, firstId + |langs|);
      var head := PostRows(postIds[0], langs, now, firstId);
      var rest := NewItems(postIds[1..], langs, now, firstId + |langs|);
      var r := head + rest;
      assert |postIds| * |langs| == |langs| + (|postIds| - 1) * |langs|;
      forall x: Item | x in r
        ensures x.postId in postIds && firstId <= x.id < firstId + |postIds| * |langs|
      {
        if x in rest {
          assert x.postId in postIds[1..];
        }
      }
      forall i, j | 0 <= i < j < |r| ensures r[i].id != r[j].id {
        if j < |head| {
        } else if i < |head| {
          assert r[j] in rest;
        } else {
          assert r[i] == rest[i - |head|] && r[j] == rest[j - |head|];
        }
      }
    }
  }

  datatype AddResult =
    | AddFailed(error: WpError)
    | Added(table: seq<Item>, nextId: nat, scheduleRequested: bool)

  /** `add_to_queue`: `invalid_input` for an empty post or language list,
      before anything is written; `db_error` when the insert fails;
      otherwise the table grows by the cross product of posts and languages
      and a run is scheduled unless one already is. `insertOk` is the
      outcome of the `INSERT`, `scheduled` whether a run is pending. */
  function AddToQueue(table: seq<Item>, nextId: nat, postIds: seq<int>, langs: seq<string>, now: int,
                      insertOk: bool, scheduled: bool): (r: AddResult)
    ensures postIds == [] || langs == [] ==> r == AddFailed(InvalidInput)
    ensures postIds != [] && langs != [] && !insertOk ==> r == AddFailed(DbError)
    ensures r.Added? <==> postIds != [] && langs != [] && insertOk
    ensures r.Added? ==>
      && |r.table| == |table| + |postIds| * |langs|
      && r.table[..|table|] == table
      && r.nextId == nextId + |postIds| * |langs|
      && (r.scheduleRequested <==> !scheduled)
    ensures r.Added? ==> forall k | |table| <= k < |r.table| ::
      && r.table[k].status == Pending && r.table[k].createdAt == now
      && r.table[k].postId in postIds && r.table[k].lang in langs
    ensures r.Added? && UniqueIds(table) && IdsBelow(table, nextId) ==>
      UniqueIds(r.table) && IdsBelow(r.table, r.nextId)
  {
    if postIds == [] || langs == [] then AddFailed(InvalidInput)
    else if !insertOk then AddFailed(DbError)
    else
      var rows := NewItems(postIds, langs, now, nextId);
      assert (table + rows)[..|table|] == table;
      AppendFresh(table, rows, nextId, postIds, langs, now);
      Added(table + rows, nextId + |rows|, !scheduled)
  }

  /** The auto-increment counter stays ahead of every id. */
  predicate IdsBelow(table: seq<Item>, nextId: nat)
  {
    forall x | x in table :: x.id < nextId
  }

  /** Appending the new rows keeps ids unique and below the advanced
      counter, and every appended row is a pending job for a listed post and
      language. */
  lemma AppendFresh(table: seq<Item>, rows: seq<Item>, nextId: nat, postIds: seq<int>, langs: seq<string>, now: int)
    requires rows == NewItems(postIds, langs, now, nextId)
    ensures forall k | |table| <= k < |table + rows| ::
      && (table + rows)[k].status == Pending && (table + rows)[k].createdAt == now
      && (table + rows)[k].postId in postIds && (table + rows)[k].lang in langs
    ensures UniqueIds(table) && IdsBelow(table, nextId) ==>
      UniqueIds(table + rows) && IdsBelow(table + rows, nextId + |rows|)
  {
    var t := table + rows;
    NewItemsShape(postIds, langs, now, nextId);
    forall k | |table| <= k < |t|
      ensures t[k].status == Pending && t[k].createdAt == now
      ensures t[k].postId in postIds && t[k].lang in langs
    {
      assert t[k] == rows[k - |table|];
    }
    if UniqueIds(table) && IdsBelow(table, nextId) {
      forall i, j | 0 <= i < j < |t| ensures t[i].id != t[j].id {
        if j < |table| {
          assert t[i] == table[i] && t[j] == table[j];
        } else if i < |table| {
          assert t[i] in table && t[j] in rows;
        } else {
          assert t[i] == rows[i - |table|] && t[j] == rows[j - |table|];
        }
      }
    }
  }

  // ---------------------------------------------------------------------
  // process_queue: selecting the batch

  predicate SortedByCreated(s: seq<Item>)
  {
    forall i, j | 0 <= i < j < |s| :: s[i].createdAt <= s[j].createdAt
  }

  /** Insert after every row created no later: rows created at the same
      time stay in table order. */
  function InsertByCreated(x: Item, s: seq<Item>): (r: seq<Item>)
    ensures |r| == |s| + 1
    ensures forall y :: y in r <==> y == x || y in s
  {
    if s == [] || x.createdAt < s[0].createdAt then [x] + s
    else [s[0]] + InsertByCreated(x, s[1..])
  }

  lemma {:induction false} InsertKeepsSorted(x: Item, s: seq<Item>)
    requires SortedByCreated(s)
    ensures SortedByCreated(InsertByCreated(x, s))
  {
    if s != [] && x.createdAt >= s[0].createdAt {
      var tail := InsertByCreated(x, s[1..]);
      InsertKeepsSorted(x, s[1..]);
      var r := [s[0]] + tail;
      forall j | 0 < j < |r| ensures s[0].createdAt <= r[j].createdAt {
        assert r[j] in tail;
        if r[j] != x {
          var m :| 0 <= m < |s[1..]| && s[1..][m] == r[j];
          assert s[m + 1] == r[j];
        }
      }
    }
  }

  lemma {:induction false} InsertKeepsIdsUnique(x: Item, s: seq<Item>)
    requires UniqueIds(s) && forall y | y in s :: y.id != x.id
    ensures UniqueIds(InsertByCreated(x, s))
  {
    if s == [] || x.createdAt < s[0].createdAt {
      UniqueIdsCons(x, s);
    } else {
      UniqueIdsCons(s[0], s[1..]);
      InsertKeepsIdsUnique(x, s[1..]);
      UniqueIdsCons(s[0], InsertByCreated(x, s[1..]));
    }
  }

  /** The pending rows ordered by creation time, rows created together in
      table order (the order the database returns ties in is not fixed). */
  function SortByCreated(s: seq<Item>): (r: seq<Item>)
    ensures |r| == |s|
    ensures forall y :: y in r <==> y in s
  {
    if s == [] then []
    else InsertByCreated(s[|s| - 1], SortByCreated(s[..|s| - 1]))
  }

  lemma {:induction false} SortIsSorted(s: seq<Item>)
    ensures SortedByCreated(SortByCreated(s))
  {
    if s != [] {
      SortIsSorted(s[..|s| - 1]);
      InsertKeepsSorted(s[|s| - 1], SortByCreated(s[..|s| - 1]));
    }
  }

  lemma {:induction false} SortKeepsIdsUnique(s: seq<Item>)
    requires UniqueIds(s)
    ensures UniqueIds(SortByCreated(s))
  {
    if s != [] {
      var init := s[..|s| - 1];
      assert UniqueIds(init) by {
        forall i, j | 0 <= i < j < |init| ensures init[i].id != init[j].id {
          assert init[i] == s[i] && init[j] == s[j];
        }
      }
      SortKeepsIdsUnique(init);
      forall y | y in SortByCreated(init) ensures y.id != s[|s| - 1].id {
        var m :| 0 <= m < |init| && init[m] == y;
        assert s[m] == y;
      }
      InsertKeepsIdsUnique(s[|s| - 1], SortByCreated(init));
    }
  }

  /** `WHERE status = 'pending'`, in table order. */
  function PendingItems(s: seq<Item>): (r: seq<Item>)
    ensures forall y :: y in r <==> y in s && y.status == Pending
    ensures |r| <= |s|
  {
    if s == [] then []
    else (if s[0].status == Pending then [s[0]] else []) + PendingItems(s[1..])
  }

  lemma {:induction false} PendingKeepsIdsUnique(s: seq<Item>)
    requires UniqueIds(s)
    ensures UniqueIds(PendingItems(s))
  {
    if s != [] {
      assert s == [s[0]] + s[1..];
      UniqueIdsCons(s[0], s[1..]);
      PendingKeepsIdsUnique(s[1..]);
      if s[0].status == Pending {
        UniqueIdsCons(s[0], PendingItems(s[1..]));
      }
    }
  }

  /** The batch: at most `batchSize` pending rows, oldest first. A size of
      zero or less selects nothing (`LIMIT 0`, or a query the database
      rejects). The batch is taken first in, first out: it is ordered by
      creation time, no pending row left out was created before a selected
      one, and no row is selected twice. */
  function SelectBatch(table: seq<Item>, batchSize: int): (r: seq<Item>)
    ensures |r| == if batchSize <= 0 then 0 else if batchSize < |PendingItems(table)| then batchSize else |PendingItems(table)|
    ensures forall y | y in r :: y in table && y.status == Pending
    ensures SortedByCreated(r)
    ensures forall x, y | x in table && x.status == Pending && x !in r && y in r :: y.createdAt <= x.createdAt
    ensures UniqueIds(table) ==> UniqueIds(r)
  {
    var sorted := SortByCreated(PendingItems(table));
    var n := if batchSize <= 0 then 0 else if batchSize < |sorted| then batchSize else |sorted|;
    OldestFirst(table, n);
    sorted[..n]
  }

  /** The first `n` pending rows by creation time are ordered, are no newer
      than any pending row after them, and keep ids unique. */
  lemma OldestFirst(table: seq<Item>, n: nat)
    requires n <= |PendingItems(table)|
    ensures var r := SortByCreated(PendingItems(table))[..n];
      && SortedByCreated(r)
      && (forall x, y | x in table && x.status == Pending && x !in r && y in r :: y.createdAt <= x.createdAt)
      && (UniqueIds(table) ==> UniqueIds(r))
  {
    var sorted := SortByCreated(PendingItems(table));
    SortIsSorted(PendingItems(table));
    PrefixIsOldest(sorted, n);
    if UniqueIds(table) {
      PendingKeepsIdsUnique(table);
      SortKeepsIdsUnique(PendingItems(table));
      PrefixKeepsIdsUnique(sorted, n);
    }
  }

  /** A prefix of a list ordered by creation time is ordered, and none of
      its rows is newer than a row after it. */
  lemma PrefixIsOldest(s: seq<Item>, n: nat)
    requires SortedByCreated(s) && n <= |s|
    ensures SortedByCreated(s[..n])
    ensures forall x, y | x in s && x !in s[..n] && y in s[..n] :: y.createdAt <= x.createdAt
  {
  }

  lemma PrefixKeepsIdsUnique(s: seq<Item>, n: nat)
    requires UniqueIds(s) && n <= |s|
    ensures UniqueIds(s[..n])
  {
  }

  // ---------------------------------------------------------------------
  // process_queue: running the batch

  /** What `translate_post` returns: the new post's id, `false` when there
      is no such post, or a `WP_Error`. */
  datatype ManagerResult = PostCreated(newId: int) | NoPost | WpErr(message: string)

  /** A processed row: failed, with the error message, exactly when the
      translation returned an error; completed with an empty message
      otherwise; stamped with the completion time either way. */
  function Finished(x: Item, result: ManagerResult, now: int): (r: Item)
    ensures r.id == x.id && r.postId == x.postId && r.lang == x.lang && r.createdAt == x.createdAt
    ensures r.status == Failed <==> result.WpErr?
    ensures r.status == Completed <==> !result.WpErr?
    ensures r.error == Some(if result.WpErr? then result.message else "")
    ensures r.completedAt == Some(now)
  {
    if result.WpErr? then x.(status := Failed, error := Some(result.message), completedAt := Some(now))
    else x.(status := Completed, error := Some(""), completedAt := Some(now))
  }

  /** `UPDATE … SET status = 'processing' WHERE id = …` */
  function MarkProcessing(table: seq<Item>, id: nat): (r: seq<Item>)
  {
    seq(|table|, k requires 0 <= k < |table| => if table[k].id == id then table[k].(status := Processing) else table[k])
  }

  /** `UPDATE … SET status, error_message, completed_at WHERE id = …` */
  function FinishRow(table: seq<Item>, id: nat, result: ManagerResult, now: int): (r: seq<Item>)
  {
    seq(|table|, k requires 0 <= k < |table| => if table[k].id == id then Finished(table[k], result, now) else table[k])
  }

  /** The two updates per selected row, in batch order, each row translated
      by `run(post id, language)`. */
  function RunBatch(table: seq<Item>, batch: seq<Item>, run: (int, string) -> ManagerResult, now: int): (r: seq<Item>)
    ensures |r| == |table|
    decreases |batch|
  {
    if batch == [] then table
    else
      var x := batch[0];
      RunBatch(FinishRow(MarkProcessing(table, x.id), x.id, run(x.postId, x.lang), now), batch[1..], run, now)
  }

  /** Row by row, running a batch of rows of the table finishes exactly the
      rows of the batch, each with its own translation result, and leaves
      every other row as it was. */
  lemma {:induction false} RunBatchEffect(table: seq<Item>, batch: seq<Item>, run: (int, string) -> ManagerResult,
                                          now: int, k: int)
    requires UniqueIds(table) && UniqueIds(batch)
    requires forall x | x in batch :: x in table
    requires 0 <= k < |table|
    ensures RunBatch(table, batch, run, now)[k] ==
      if table[k] in batch then Finished(table[k], run(table[k].postId, table[k].lang), now) else table[k]
    decreases |batch|
  {
    if batch != [] {
      var x := batch[0];
      var next := FinishRow(MarkProcessing(table, x.id), x.id, run(x.postId, x.lang), now);
      assert UniqueIds(next) by {
        forall i, j | 0 <= i < j < |next| ensures next[i].id != next[j].id {
          assert next[i].id == table[i].id && next[j].id == table[j].id;
        }
      }
      assert batch == [x] + batch[1..];
      UniqueIdsCons(x, batch[1..]);
      forall y | y in batch[1..] ensures y in next {
        assert y in batch;
        var m :| 0 <= m < |table| && table[m] == y;
        assert next[m] == y;
      }
      RunBatchEffect(next, batch[1..], run, now, k);
      if table[k].id == x.id {
        assert x in batch;
        var m :| 0 <= m < |table| && table[m] == x;
        assert m == k;
        assert next[k] !in batch[1..];
      } else {
        assert next[k] == table[k];
      }
    }
  }

  datatype BatchOutcome = BatchOutcome(table: seq<Item>, rescheduled: bool)

  predicate HasPending(table: seq<Item>)
  {
    exists k | 0 <= k < |table| :: table[k].status == Pending
  }

  /** `process_queue`: nothing happens when no row is selected; otherwise
      the batch is run and another run is scheduled when rows are still
      pending afterwards. */
  function ProcessQueue(table: seq<Item>, batchSize: int, run: (int, string) -> ManagerResult, now: int): (r: BatchOutcome)
    ensures |r.table| == |table|
    ensures SelectBatch(table, batchSize) == [] ==> r == BatchOutcome(table, false)
  {
    var batch := SelectBatch(table, batchSize);
    if batch == [] then BatchOutcome(table, false)
    else
      var t := RunBatch(table, batch, run, now);
      BatchOutcome(t, HasPending(t))
  }

  /** On a table with a primary key, every row of the batch ends failed
      (with the error's message) exactly when its translation returned an
      error and completed otherwise; no row is left processing by the run;
      rows outside the batch are unchanged. */
  lemma ProcessQueueEffect(table: seq<Item>, batchSize: int, run: (int, string) -> ManagerResult, now: int, k: int)
    requires UniqueIds(table) && 0 <= k < |table|
    ensures var r := ProcessQueue(table, batchSize, run, now);
      var x := table[k];
      if x in SelectBatch(table, batchSize) then
        && x.status == Pending
        && r.table[k] == Finished(x, run(x.postId, x.lang), now)
        && (r.table[k].status == Failed <==> run(x.postId, x.lang).WpErr?)
      else r.table[k] == x
  {
    var batch := SelectBatch(table, batchSize);
    if batch != [] {
      RunBatchEffect(table, batch, run, now, k);
    }
  }

  /** Another run is scheduled exactly when some pending row was left out of
      a non-empty batch. */
  lemma RescheduledIffPendingLeft(table: seq<Item>, batchSize: int, run: (int, string) -> ManagerResult, now: int)
    requires UniqueIds(table)
    ensures ProcessQueue(table, batchSize, run, now).rescheduled <==>
      SelectBatch(table, batchSize) != [] &&
      exists k | 0 <= k < |table| :: table[k].status == Pending && table[k] !in SelectBatch(table, batchSize)
  {
    var batch := SelectBatch(table, batchSize);
    var r := ProcessQueue(table, batchSize, run, now);
    if batch != [] {
      if r.rescheduled {
        var k :| 0 <= k < |r.table| && r.table[k].status == Pending;
        ProcessQueueEffect(table, batchSize, run, now, k);
      }
      if exists k | 0 <= k < |table| :: table[k].status == Pending && table[k] !in batch {
        var k :| 0 <= k < |table| && table[k].status == Pending && table[k] !in batch;
        ProcessQueueEffect(table, batchSize, run, now, k);
        assert r.table[k].status == Pending;
      }
    }
  }

  // ---------------------------------------------------------------------
  // process_queue when translate_post throws

  /** One call of `translate_post`: it returns a result, or something it
      calls throws. `process_queue` has no `try`, so a throw ends the run. */
  datatype Attempt = Returned(result: ManagerResult) | Threw

  datatype Attempted = Attempted(table: seq<Item>, aborted: bool)

  /** The batch loop with throwing calls: the row is marked processing,
      then either finished with the returned result or, on a throw, left
      as it is while the run stops. */
  function RunUntilThrow(table: seq<Item>, batch: seq<Item>, attempt: (int, string) -> Attempt, now: int): (r: Attempted)
    ensures |r.table| == |table|
    ensures r.aborted <==> exists i | 0 <= i < |batch| :: attempt(batch[i].postId, batch[i].lang).Threw?
    decreases |batch|
  {
    if batch == [] then Attempted(table, false)
    else
      var x := batch[0];
      var marked := MarkProcessing(table, x.id);
      var r := match attempt(x.postId, x.lang)
        case Threw => Attempted(marked, true)
        case Returned(res) => RunUntilThrow(FinishRow(marked, x.id, res, now), batch[1..], attempt, now);
      assert attempt(x.postId, x.lang).Returned? ==>
        forall i | 0 <= i < |batch[1..]| :: batch[1..][i] == batch[i + 1];
      r
  }

  /** `process_queue` with throwing calls: a throw ends the request before
      the pending count is read, so nothing is rescheduled. */
  function ProcessQueueAttempts(table: seq<Item>, batchSize: int, attempt: (int, string) -> Attempt, now: int): (r: BatchOutcome)
    ensures |r.table| == |table|
    ensures SelectBatch(table, batchSize) == [] ==> r == BatchOutcome(table, false)
    ensures (exists i | 0 <= i < |SelectBatch(table, batchSize)| ::
               attempt(SelectBatch(table, batchSize)[i].postId, SelectBatch(table, batchSize)[i].lang).Threw?)
            ==> !r.rescheduled
  {
    var batch := SelectBatch(table, batchSize);
    if batch == [] then BatchOutcome(table, false)
    else
      var a := RunUntilThrow(table, batch, attempt, now);
      if a.aborted then BatchOutcome(a.table, false) else BatchOutcome(a.table, HasPending(a.table))
  }

  /** The first call of the batch that throws is the one at `j`. */
  predicate FirstThrow(batch: seq<Item>, attempt: (int, string) -> Attempt, j: int)
  {
    && 0 <= j < |batch|
    && attempt(batch[j].postId, batch[j].lang).Threw?
    && forall i | 0 <= i < j :: attempt(batch[i].postId, batch[i].lang).Returned?
  }

  /** When no call throws, the run is the total one of `ProcessQueue`. */
  lemma {:induction false} NoThrowRunsBatch(table: seq<Item>, batch: seq<Item>, attempt: (int, string) -> Attempt,
                                            run: (int, string) -> ManagerResult, now: int)
    requires forall p, l :: attempt(p, l) == Returned(run(p, l))
    ensures RunUntilThrow(table, batch, attempt, now) == Attempted(RunBatch(table, batch, run, now), false)
    decreases |batch|
  {
    if batch != [] {
      var x := batch[0];
      NoThrowRunsBatch(FinishRow(MarkProcessing(table, x.id), x.id, run(x.postId, x.lang), now), batch[1..], attempt, run, now);
    }
  }

  lemma NoThrowIsProcessQueue(table: seq<Item>, batchSize: int, attempt: (int, string) -> Attempt,
                              run: (int, string) -> ManagerResult, now: int)
    requires forall p, l :: attempt(p, l) == Returned(run(p, l))
    ensures ProcessQueueAttempts(table, batchSize, attempt, now) == ProcessQueue(table, batchSize, run, now)
  {
    NoThrowRunsBatch(table, SelectBatch(table, batchSize), attempt, run, now);
  }

  /** Row by row, a run whose first throw is at `j`: the rows before `j`
      are finished, the row at `j` stays processing, and the rows after it
      and outside the batch are untouched. */
  lemma {:induction false} RunUntilThrowEffect(table: seq<Item>, batch: seq<Item>, attempt: (int, string) -> Attempt,
                                               now: int, j: int, k: int)
    requires UniqueIds(table) && UniqueIds(batch)
    requires forall x | x in batch :: x in table
    requires FirstThrow(batch, attempt, j)
    requires 0 <= k < |table|
    ensures var r := RunUntilThrow(table, batch, attempt, now);
      r.table[k] ==
        if table[k] in batch[..j] then Finished(table[k], attempt(table[k].postId, table[k].lang).result, now)
        else if table[k] == batch[j] then table[k].(status := Processing)
        else table[k]
    decreases |batch|
  {
    var x := batch[0];
    assert batch == [x] + batch[1..];
    UniqueIdsCons(x, batch[1..]);
    var marked := MarkProcessing(table, x.id);
    if table[k].id == x.id {
      assert x in batch;
      var m :| 0 <= m < |table| && table[m] == x;
      assert m == k;
    }
    if j > 0 {
      var res := attempt(x.postId, x.lang).result;
      var next := FinishRow(marked, x.id, res, now);
      assert UniqueIds(next) by {
        forall a, b | 0 <= a < b < |next| ensures next[a].id != next[b].id {
          assert next[a].id == table[a].id && next[b].id == table[b].id;
        }
      }
      forall y | y in batch[1..] ensures y in next {
        assert y in batch;
        var m :| 0 <= m < |table| && table[m] == y;
        assert next[m] == y;
      }
      assert FirstThrow(batch[1..], attempt, j - 1) by {
        forall i | 0 <= i < j - 1
          ensures attempt(batch[1..][i].postId, batch[1..][i].lang).Returned?
        {
          assert batch[1..][i] == batch[i + 1];
        }
      }
      RunUntilThrowEffect(next, batch[1..], attempt, now, j - 1, k);
      assert batch[1..][..j - 1] == batch[1..j];
      assert batch[1..][j - 1] == batch[j];
      assert batch[..j] == [x] + batch[1..j];
      if table[k].id == x.id {
        assert next[k] !in batch[1..];
        assert batch[j] in batch[1..];
      } else {
        assert next[k] == table[k];
      }
    }
  }

  /** A throw in the middle of a batch: the rows processed before it are
      finished, its own row is left `processing`, the later rows of the
      batch stay `pending`, the rest of the table is untouched, and no
      further run is scheduled. */
  lemma ThrowStopsTheRun(table: seq<Item>, batchSize: int, attempt: (int, string) -> Attempt, now: int, j: int, k: int)
    requires UniqueIds(table) && 0 <= k < |table|
    requires FirstThrow(SelectBatch(table, batchSize), attempt, j)
    ensures var batch := SelectBatch(table, batchSize);
      var r := ProcessQueueAttempts(table, batchSize, attempt, now);
      && !r.rescheduled
      && (table[k] in batch[..j] ==> r.table[k] == Finished(table[k], attempt(table[k].postId, table[k].lang).result, now))
      && (table[k] == batch[j] ==> r.table[k].status == Processing && r.table[k].completedAt == table[k].completedAt)
      && (table[k] in batch[j + 1..] ==> r.table[k] == table[k] && r.table[k].status == Pending)
      && (table[k] !in batch ==> r.table[k] == table[k])
  {
    var batch := SelectBatch(table, batchSize);
    RunUntilThrowEffect(table, batch, attempt, now, j, k);
    if table[k] in batch[j + 1..] {
      var m :| j + 1 <= m < |batch| && batch[m] == table[k];
    }
    if table[k] !in batch {
      assert table[k] !in batch[..j];
    }
  }

  /** `translate_post` (`AITranslator\Translation\Manager`) seen through its
      return value when it returns: `false` without a post, and otherwise
      what `wp_insert_post` gives back for a draft whose title and content
      are the translation service's result arrays, not strings. That value
      is taken as an id here (0 when the insert fails); an insert that
      throws on the arrays is a `Threw` attempt above. The `is_wp_error`
      checks test those arrays and the insert's result without
      `$wp_error`, so none of them ever fires. */
  function TranslatePost(post: Option<Post>, insertedId: int): (r: ManagerResult)
    ensures post.None? <==> r == NoPost
    ensures !r.WpErr?
  {
    if post.None? then NoPost else PostCreated(insertedId)
  }

  /** With the plugin's own `translate_post`, processing never fails a row:
      a missing post or a failed translation still ends completed. */
  lemma ManagerNeverFailsRows(table: seq<Item>, batchSize: int, run: (int, string) -> ManagerResult,
                              posts: int -> Option<Post>, insertedId: (int, string) -> int, now: int, k: int)
    requires UniqueIds(table) && 0 <= k < |table|
    requires forall p, l :: run(p, l) == TranslatePost(posts(p), insertedId(p, l))
    ensures ProcessQueue(table, batchSize, run, now).table[k].status == Failed ==> table[k].status == Failed
  {
    ProcessQueueEffect(table, batchSize, run, now, k);
  }

  // ---------------------------------------------------------------------
  // get_queue_status

  /** The number of rows in a given status. */
  function CountStatus(s: seq<Item>, st: Status): (n: nat)
    ensures n <= |s|
  {
    if s == [] then 0
    else CountStatus(s[..|s| - 1], st) + (if s[|s| - 1].status == st then 1 else 0)
  }

  lemma {:induction false} CountsAddUp(s: seq<Item>)
    ensures CountStatus(s, Pending) + CountStatus(s, Processing) + CountStatus(s, Completed) + CountStatus(s, Failed) == |s|
  {
    if s != [] {
      CountsAddUp(s[..|s| - 1]);
    }
  }

  /** The status report: all four statuses, 0 when no row has it. */
  datatype StatusCounts = StatusCounts(pending: nat, processing: nat, completed: nat, failed: nat)

  /** `get_queue_status`: one pass over the table, counting each status. */
  method GetQueueStatus(table: seq<Item>) returns (c: StatusCounts)
    ensures c.pending == CountStatus(table, Pending) && c.processing == CountStatus(table, Processing)
    ensures c.completed == CountStatus(table, Completed) && c.failed == CountStatus(table, Failed)
    ensures c.pending + c.processing + c.completed + c.failed == |table|
  {
    c := StatusCounts(0, 0, 0, 0);
    var i := 0;
    while i < |table|
      invariant 0 <= i <= |table|
      invariant c.pending == CountStatus(table[..i], Pending) && c.processing == CountStatus(table[..i], Processing)
      invariant c.completed == CountStatus(table[..i], Completed) && c.failed == CountStatus(table[..i], Failed)
    {
      assert table[..i + 1][..i] == table[..i];
      match table[i].status {
        case Pending => c := c.(pending := c.pending + 1);
        case Processing => c := c.(processing := c.processing + 1);
        case Completed => c := c.(completed := c.completed + 1);
        case Failed => c := c.(failed := c.failed + 1);
      }
      i := i + 1;
    }
    assert table[..|table|] == table;
    CountsAddUp(table);
  }

  // ---------------------------------------------------------------------
  // clear_old_items

  /** A finished row whose completion time is set and before the cutoff
      (a NULL completion time compares as unknown, so it never expires). */
  predicate Expired(x: Item, cutoff: int)
  {
    (x.status == Completed || x.status == Failed) && x.completedAt.Some? && x.completedAt.value < cutoff
  }

  datatype Cleared = Cleared(table: seq<Item>, removed: nat)

  function KeepUnexpired(s: seq<Item>, cutoff: int): (r: seq<Item>)
    ensures |r| <= |s|
  {
    if s == [] then []
    else (if Expired(s[0], cutoff) then [] else [s[0]]) + KeepUnexpired(s[1..], cutoff)
  }

  /** `clear_old_items`: delete the finished rows completed more than
      `daysOld` days before `now`, and count them. */
  function ClearOldItems(table: seq<Item>, now: int, daysOld: int): (r: Cleared)
    ensures |r.table| + r.removed == |table|
  {
    var kept := KeepUnexpired(table, now - daysOld * SecondsPerDay);
    Cleared(kept, |table| - |kept|)
  }

  /** A row survives exactly when it has not expired, rows keep their
      order, and pending or processing rows are never deleted. */
  lemma {:induction false} ClearKeepsExactly(table: seq<Item>, now: int, daysOld: int)
    ensures var r := ClearOldItems(table, now, daysOld);
      && (forall x :: x in r.table <==> x in table && !Expired(x, now - daysOld * SecondsPerDay))
      && (forall x | x in table && (x.status == Pending || x.status == Processing) :: x in r.table)
  {
    KeepUnexpiredExactly(table, now - daysOld * SecondsPerDay);
  }

  lemma {:induction false} KeepUnexpiredExactly(s: seq<Item>, cutoff: int)
    ensures forall x :: x in KeepUnexpired(s, cutoff) <==> x in s && !Expired(x, cutoff)
  {
    if s != [] {
      KeepUnexpiredExactly(s[1..], cutoff);
      assert s == [s[0]] + s[1..];
    }
  }

  /** Clearing twice with the same cutoff removes nothing the second time. */
  lemma ClearIsIdempotent(table: seq<Item>, now: int, daysOld: int)
    ensures var once := ClearOldItems(table, now, daysOld).table;
      ClearOldItems(once, now, daysOld) == Cleared(once, 0)
  {
    var cutoff := now - daysOld * SecondsPerDay;
    KeepUnexpiredExactly(table, cutoff);
    KeepUnexpiredFixed(KeepUnexpired(table, cutoff), cutoff);
  }

  lemma {:induction false} KeepUnexpiredFixed(s: seq<Item>, cutoff: int)
    requires forall x | x in s :: !Expired(x, cutoff)
    ensures KeepUnexpired(s, cutoff) == s
  {
    if s != [] {
      assert s[0] in s;
      KeepUnexpiredFixed(s[1..], cutoff);
      assert s == [s[0]] + s[1..];
    }
  }

  // ---------------------------------------------------------------------
  // retry_failed

  /** A failed row put back in the queue; any other row as it is. */
  function Retried(x: Item): (r: Item)
    ensures x.status != Failed ==> r == x
    ensures x.status == Failed ==>
      r == Item(x.id, x.postId, x.lang, Pending, Some(""), x.createdAt, None)
  {
    if x.status == Failed then x.(status := Pending, error := Some(""), completedAt := None) else x
  }

  datatype RetryOutcome = RetryOutcome(table: seq<Item>, reset: nat)

  /** `retry_failed`: every failed row back to pending, and the number of
      rows reset. */
  function RetryFailed(table: seq<Item>): (r: RetryOutcome)
    ensures |r.table| == |table|
    ensures forall k | 0 <= k < |table| :: r.table[k] == Retried(table[k])
    ensures r.reset == CountStatus(table, Failed)
  {
    RetryOutcome(seq(|table|, k requires 0 <= k < |table| => Retried(table[k])), CountStatus(table, Failed))
  }

  /** After a retry no row is failed, the pending rows are the old pending
      rows plus the old failed ones, and the other counts do not move. */
  lemma {:induction false} RetryMovesFailedToPending(table: seq<Item>)
    ensures var t := RetryFailed(table).table;
      && CountStatus(t, Failed) == 0
      && CountStatus(t, Pending) == CountStatus(table, Pending) + CountStatus(table, Failed)
      && CountStatus(t, Processing) == CountStatus(table, Processing)
      && CountStatus(t, Completed) == CountStatus(table, Completed)
  {
    if table != [] {
      var init := table[..|table| - 1];
      RetryMovesFailedToPending(init);
      var t := RetryFailed(table).table;
      assert t[..|t| - 1] == RetryFailed(init).table;
    }
  }

  /** Retrying again changes nothing and resets nothing. */
  lemma RetryIsIdempotent(table: seq<Item>)
    ensures var once := RetryFailed(table).table;
      RetryFailed(once) == RetryOutcome(once, 0)
  {
    var once := RetryFailed(table).table;
    RetryMovesFailedToPending(table);
    assert RetryFailed(once).table == once;
  }

  // ---------------------------------------------------------------------
  // get_items_by_posts

  function RowsOfPosts(s: seq<Item>, postIds: seq<int>): (r: seq<Item>)
    ensures |r| <= |s|
  {
    if s == [] then []
    else (if s[0].postId in postIds then [s[0]] else []) + RowsOfPosts(s[1..], postIds)
  }

  /** `get_items_by_posts`: nothing for an empty list, otherwise the rows of
      the listed posts (in table order, as the query does not order them). */
  function GetItemsByPosts(table: seq<Item>, postIds: seq<int>): (r: seq<Item>)
    ensures postIds == [] ==> r == []
  {
    if postIds == [] then [] else RowsOfPosts(table, postIds)
  }

  /** A row is returned exactly when it belongs to a listed post. */
  lemma {:induction false} ItemsByPostsExactly(table: seq<Item>, postIds: seq<int>)
    ensures forall x :: x in GetItemsByPosts(table, postIds) <==> x in table && x.postId in postIds
  {
    if postIds != [] {
      RowsOfPostsExactly(table, postIds);
    }
  }

  lemma {:induction false} RowsOfPostsExactly(s: seq<Item>, postIds: seq<int>)
    ensures forall x :: x in RowsOfPosts(s, postIds) <==> x in s && x.postId in postIds
  {
    if s != [] {
      RowsOfPostsExactly(s[1..], postIds);
      assert s == [s[0]] + s[1..];
    }
  }
}
