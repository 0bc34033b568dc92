/**
 * What a clone does, as read off its specification: which rows reach the
 * target and in which batches, when the commit happens, when the target is
 * truncated or created, and what happens when the target is missing.
 */
module CloneProperties {
  import opened Wrappers
  import opened Text
  import opened Descriptors
  import opened Ddl
  import opened Transfer
  import opened Endpoint
  import opened CloneObj

  // ---------------------------------------------------------------------------
  // What the target receives

  /** The rows handed to `executemany`, in call order. */
  function InsertedRows(events: seq<Event>): seq<Row>
    decreases |events|
  {
    if events == [] then []
    else (if events[0].ExecutedMany? then events[0].batch else []) + InsertedRows(events[1..])
  }

  /** The number of commits among the calls. */
  function Commits(events: seq<Event>): nat
  {
    multiset(events)[Committed]
  }

  /** A commit, when there is one, is the last call: nothing is inserted after it. */
  predicate CommitIsLast(events: seq<Event>)
  {
    Commits(events) > 0 ==> |events| > 0 && events[|events| - 1] == Committed
  }

  /** Calls without a commit, put in front, keep a commit last. */
  lemma CommitIsLastAppend(a: seq<Event>, b: seq<Event>)
    requires Commits(a) == 0 && CommitIsLast(b)
    ensures CommitIsLast(a + b)
  {
    assert multiset(a + b) == multiset(a) + multiset(b);
    if Commits(b) > 0 {
      assert (a + b)[|a + b| - 1] == b[|b| - 1];
    }
  }

  lemma {:induction false} InsertedRowsAppend(a: seq<Event>, b: seq<Event>)
    ensures InsertedRows(a + b) == InsertedRows(a) + InsertedRows(b)
    decreases |a|
  {
    if a == [] {
      assert a + b == b;
    } else {
      assert (a + b)[1..] == a[1..] + b;
      InsertedRowsAppend(a[1..], b);
      AppendAssoc(if a[0].ExecutedMany? then a[0].batch else [], InsertedRows(a[1..]), InsertedRows(b));
    }
  }

  /** One `executemany` per batch inserts the batches put back together. */
  lemma {:induction false} InsertedBatches(bs: seq<seq<Row>>)
    ensures InsertedRows(BatchEvents(bs)) == Flatten(bs)
    decreases |bs|
  {
    if bs != [] {
      assert BatchEvents(bs) == [ExecutedMany(bs[0])] + BatchEvents(bs[1..]);
      InsertedRowsAppend([ExecutedMany(bs[0])], BatchEvents(bs[1..]));
      InsertedBatches(bs[1..]);
      assert InsertedRows([ExecutedMany(bs[0])]) == bs[0] + InsertedRows([]);
    }
  }

  /** Calls that insert nothing. */
  lemma NothingInserted(events: seq<Event>)
    requires forall i :: 0 <= i < |events| ==> !events[i].ExecutedMany?
    ensures InsertedRows(events) == []
    decreases |events|
  {
    if events != [] {
      NothingInserted(events[1..]);
    }
  }

  /** What is sent before the transfer stops is the start of the rows, in order. */
  lemma SentRowsPrefix(rows: seq<Row>, insert: string, refused: set<(string, seq<Row>)>)
    ensures InsertedRows(BatchEvents(SentBatches(Batches(rows), insert, refused))) <= rows
    ensures AllAccepted(Batches(rows), insert, refused) ==>
              InsertedRows(BatchEvents(SentBatches(Batches(rows), insert, refused))) == rows
  {
    var bs := Batches(rows);
    var j := SentBatchesFirstRefused(bs, insert, refused);
    var sent := SentBatches(bs, insert, refused);
    assert Flatten(bs) == rows by { BatchesChunk(rows); }
    InsertedBatches(sent);
    if !AllAccepted(bs, insert, refused) {
      FlattenPrefix(bs, j + 1);
    }
  }

  /** The first batches put back together are the start of all of them put back together. */
  lemma FlattenPrefix(bs: seq<seq<Row>>, k: nat)
    requires k <= |bs|
    ensures Flatten(bs[..k]) <= Flatten(bs)
  {
    SplitJoin(bs, k);
    FlattenAppend(bs[..k], bs[k..]);
    PrefixOfJoin(Flatten(bs[..k]), Flatten(bs[k..]));
  }

  /** Cutting a sequence and joining the pieces gives it back. */
  lemma SplitJoin<T>(s: seq<T>, k: nat)
    requires k <= |s|
    ensures s[..k] + s[k..] == s
  {
  }

  /** The front of a join is a prefix of it. */
  lemma PrefixOfJoin<T>(f: seq<T>, g: seq<T>)
    ensures f <= f + g
  {
    assert (f + g)[..|f|] == f;
  }

  // ---------------------------------------------------------------------------
  // The part from the select onwards

  /** The events on the target of a transfer whose every batch is accepted. */
  function Delivered(to: Descriptor, result: QueryResult): seq<Event>
    requires to.owner.Some? && to.name.Some?
  {
    [Prepared(InsertFor(to, result))] + BatchEvents(Batches(result.rows)) + [Committed]
  }

  /**
   * A load that succeeds has run the select, optionally truncated, prepared
   * the insert for the select's columns, sent the rows in the loop's batches
   * and committed once; the batches are exactly the rows, in order.
   */
  lemma LoadPassed(src: Database, tgt: Database, from: Descriptor, to: Descriptor, select0: Option<string>)
    requires from.owner.Some? && from.name.Some? && to.owner.Some? && to.name.Some?
    requires HasOptionKeys(to.opts)
    requires LoadSpec(src, tgt, from, to, select0).outcome.Pass?
    ensures var run := LoadSpec(src, tgt, from, to, select0);
            var truncate := TruncateStatement(to);
            && run.select.Some? && run.select.value in src.results
            && run.source == [Executed(run.select.value, None)]
            && run.target == (if Truthy(to.opts[TruncateKey]) then [Executed(truncate, None)] else [])
                             + Delivered(to, src.results[run.select.value])
            && IsChunking(Batches(src.results[run.select.value].rows), src.results[run.select.value].rows)
  {
    var run := LoadSpec(src, tgt, from, to, select0);
    var result := src.results[run.select.value];
    var insert := InsertFor(to, result);
    var _ := SentBatchesFirstRefused(Batches(result.rows), insert, tgt.refusedBatches);
    BatchesChunk(result.rows);
  }

  /**
   * The calls of a transfer after an accepted prepare: one commit exactly
   * when every batch is accepted; the rows inserted are always a prefix of
   * the rows, and all of them when the commit is reached.
   */
  lemma TransferEventsDeliver(rows: seq<Row>, insert: string, refused: set<(string, seq<Row>)>)
    ensures var events := TransferEvents(rows, insert, refused);
            && Commits(events) == (if AllAccepted(Batches(rows), insert, refused) then 1 else 0)
            && InsertedRows(events) <= rows
            && (AllAccepted(Batches(rows), insert, refused) ==> InsertedRows(events) == rows)
            && CommitIsLast(events)
  {
    var stream := BatchEvents(SentBatches(Batches(rows), insert, refused));
    var tail: seq<Event> := if AllAccepted(Batches(rows), insert, refused) then [Committed] else [];
    assert TransferEvents(rows, insert, refused) == [Prepared(insert)] + stream + tail;
    StreamCommits([Prepared(insert)], SentBatches(Batches(rows), insert, refused), tail);
    QuietEnds([Prepared(insert)], stream, tail);
    SentRowsPrefix(rows, insert, refused);
    if AllAccepted(Batches(rows), insert, refused) {
      var events := [Prepared(insert)] + stream + tail;
      assert events[|events| - 1] == Committed;
    }
  }

  /** Calls around a stream that insert nothing leave its inserted rows as they are. */
  lemma QuietEnds(head: seq<Event>, stream: seq<Event>, tail: seq<Event>)
    requires forall i :: 0 <= i < |head| ==> !head[i].ExecutedMany?
    requires forall i :: 0 <= i < |tail| ==> !tail[i].ExecutedMany?
    ensures InsertedRows(head + stream + tail) == InsertedRows(stream)
  {
    InsertedRowsAppend(head + stream, tail);
    InsertedRowsAppend(head, stream);
    NothingInserted(head);
    NothingInserted(tail);
  }

  /** Batches sent between a prepare and a commit add no commit. */
  lemma StreamCommits(head: seq<Event>, bs: seq<seq<Row>>, tail: seq<Event>)
    requires Committed !in head
    ensures Commits(head + BatchEvents(bs) + tail) == Commits(tail)
  {
    var stream := BatchEvents(bs);
    assert Committed !in stream;
    assert multiset(head + stream + tail) == multiset(head) + multiset(stream) + multiset(tail);
  }

  /**
   * The select and the transfer together: at most one commit; the transfer
   * succeeds exactly when it commits and the commit is accepted; a commit
   * is made only after every row has been inserted; and whatever is
   * inserted is the start of the select's rows, in order.
   */
  lemma TransferDelivers(src: Database, tgt: Database, to: Descriptor, select: string)
    requires to.owner.Some? && to.name.Some?
    ensures var p := TransferSpec(src, tgt, to, select);
            && Commits(p.target) <= 1
            && (p.outcome.Pass? <==> Commits(p.target) == 1 && !tgt.commitRefused)
            && (Commits(p.target) == 1 ==> select in src.results && InsertedRows(p.target) == src.results[select].rows)
            && (select in src.results ==> InsertedRows(p.target) <= src.results[select].rows)
            && CommitIsLast(p.target)
  {
    if select in src.results {
      var result := src.results[select];
      var insert := InsertFor(to, result);
      if insert in tgt.rejects {
        NothingInserted([Prepared(insert)]);
      } else {
        TransferEventsDeliver(result.rows, insert, tgt.refusedBatches);
      }
    }
  }

  /** No statement runs on the target during the transfer: only prepare, `executemany` and commit. */
  lemma TransferRunsNoStatement(src: Database, tgt: Database, to: Descriptor, select: string)
    requires to.owner.Some? && to.name.Some?
    ensures forall e :: e in TransferSpec(src, tgt, to, select).target ==> !e.Executed?
  {
  }

  /** Calls that neither insert nor commit, put in front, change neither count. */
  lemma QuietPrefix(a: seq<Event>, b: seq<Event>)
    requires forall i :: 0 <= i < |a| ==> a[i].Executed?
    ensures InsertedRows(a + b) == InsertedRows(b) && Commits(a + b) == Commits(b)
  {
    NothingInserted(a);
    InsertedRowsAppend(a, b);
    assert Committed !in a;
    assert multiset(a + b) == multiset(a) + multiset(b);
  }

  /** A run of calls that inserted nothing and committed nothing leaves both counts to what follows it. */
  lemma QuietBefore(a: seq<Event>, b: seq<Event>)
    requires InsertedRows(a) == [] && Commits(a) == 0
    ensures InsertedRows(a + b) == InsertedRows(b) && Commits(a + b) == Commits(b)
  {
    InsertedRowsAppend(a, b);
    assert multiset(a + b) == multiset(a) + multiset(b);
  }

  /** The same for a whole load, after the optional truncate. */
  lemma LoadInserts(src: Database, tgt: Database, from: Descriptor, to: Descriptor, select0: Option<string>)
    requires from.owner.Some? && from.name.Some? && to.owner.Some? && to.name.Some?
    requires HasOptionKeys(to.opts)
    ensures var run := LoadSpec(src, tgt, from, to, select0);
            && run.select.Some?
            && Commits(run.target) <= 1
            && (run.outcome.Pass? <==> Commits(run.target) == 1 && !tgt.commitRefused)
            && (Commits(run.target) == 1 ==>
                  run.select.value in src.results && InsertedRows(run.target) == src.results[run.select.value].rows)
            && (run.select.value in src.results ==> InsertedRows(run.target) <= src.results[run.select.value].rows)
            && CommitIsLast(run.target)
  {
    var run := LoadSpec(src, tgt, from, to, select0);
    var select := run.select.value;
    var truncate := TruncateStatement(to);
    var truncated: seq<Event> := if Truthy(to.opts[TruncateKey]) then [Executed(truncate, None)] else [];
    NothingInserted(truncated);
    if !(Truthy(to.opts[TruncateKey]) && truncate in tgt.rejects) {
      var p := TransferSpec(src, tgt, to, select);
      assert run.target == truncated + p.target && run.outcome == p.outcome;
      TransferDelivers(src, tgt, to, select);
      QuietPrefix(truncated, p.target);
      CommitIsLastAppend(truncated, p.target);
    } else {
      assert run.target == truncated && run.outcome.Fail?;
      assert Commits(run.target) == 0;
    }
  }

  /** The target is truncated exactly when the `truncate` option is set. */
  lemma LoadTruncatesIffOption(src: Database, tgt: Database, from: Descriptor, to: Descriptor,
                               select0: Option<string>)
    requires from.owner.Some? && from.name.Some? && to.owner.Some? && to.name.Some?
    requires HasOptionKeys(to.opts)
    ensures var run := LoadSpec(src, tgt, from, to, select0);
            Executed(TruncateStatement(to), None) in run.target <==> Truthy(to.opts[TruncateKey])
  {
    var run := LoadSpec(src, tgt, from, to, select0);
    TransferRunsNoStatement(src, tgt, to, run.select.value);
  }

  /**
   * The select is the one set on the cloner, or `SELECT * FROM owner.name`
   * when none is set; it runs on the source unless the truncate failed.
   */
  lemma LoadSelect(src: Database, tgt: Database, from: Descriptor, to: Descriptor, select0: Option<string>)
    requires from.owner.Some? && from.name.Some? && to.owner.Some? && to.name.Some?
    requires HasOptionKeys(to.opts)
    ensures var run := LoadSpec(src, tgt, from, to, select0);
            && (select0.Some? ==> run.select == select0)
            && (select0.None? ==> run.select == Some("SELECT * FROM " + from.owner.value + "." + from.name.value))
            && (run.source == [Executed(run.select.value, None)] <==>
                  !(Truthy(to.opts[TruncateKey]) && TruncateStatement(to) in tgt.rejects))
            && (run.source != [Executed(run.select.value, None)] ==> run.source == [] && run.outcome.Fail?)
  {
  }

  /**
   * For N rows, `executemany` is called ceil(N / 100) times when the target
   * accepts every batch, and never more.
   */
  lemma StreamCallCount(rows: seq<Row>, insert: string, refused: set<(string, seq<Row>)>)
    ensures var calls := |BatchEvents(SentBatches(Batches(rows), insert, refused))|;
            && calls <= (|rows| + BulkRows - 1) / BulkRows
            && (AllAccepted(Batches(rows), insert, refused) ==> calls == (|rows| + BulkRows - 1) / BulkRows)
  {
    var _ := SentBatchesFirstRefused(Batches(rows), insert, refused);
    BatchesCount(rows);
  }

  /**
   * 250 accepted rows go to the target as batches of 100, 100 and 50, in
   * order; a refused second batch ends the transfer after it.
   */
  lemma StreamOf250(rows: seq<Row>, insert: string, refused: set<(string, seq<Row>)>)
    requires |rows| == 250
    ensures AllAccepted(Batches(rows), insert, refused) ==>
              BatchEvents(SentBatches(Batches(rows), insert, refused)) ==
                [ExecutedMany(rows[..100]), ExecutedMany(rows[100..200]), ExecutedMany(rows[200..])]
    ensures (insert, rows[..100]) !in refused && (insert, rows[100..200]) in refused ==>
              BatchEvents(SentBatches(Batches(rows), insert, refused)) ==
                [ExecutedMany(rows[..100]), ExecutedMany(rows[100..200])]
  {
    var rest := rows[BulkRows..];
    assert rest[..BulkRows] == rows[100..200];
    assert rest[BulkRows..] == rows[200..];
    var bs := Batches(rows);
    assert bs == [rows[..100]] + Batches(rest);
    assert Batches(rest) == [rest[..100]] + Batches(rest[100..]);
    assert Batches(rest[100..]) == [rest[100..]];
    assert bs == [rows[..100], rows[100..200], rows[200..]];
    var _ := SentBatchesFirstRefused(bs, insert, refused);
    if (insert, rows[..100]) !in refused && (insert, rows[100..200]) in refused {
      SentUpToRefused([rows[..100]], rows[100..200], [rows[200..]], insert, refused);
      assert [rows[..100]] + [rows[100..200]] + [rows[200..]] == bs;
    }
  }

  // ---------------------------------------------------------------------------
  // The clone as a whole

  /**
   * A missing target that may not be created stops the clone right after
   * the existence check: the source runs no query beyond the owner lookup
   * and the target receives no statement beyond the check.
   */
  lemma MissingTargetStops(src: EndpointState, tgt: EndpointState, from: Descriptor, to: Descriptor,
                           shared: bool, select0: Option<string>)
    requires Clonable(from, to, shared)
    ensures var c := ConnectSpec(src, tgt, from, to, shared);
            var run := CloneSpec(src, tgt, from, to, shared, select0);
            !Found(tgt.db.catalog, c.to) && !Truthy(c.to.opts[CreateKey]) ==>
              && run.outcome == Fail(TargetMissing(c.to, tgt.connectionString))
              && run.source == c.source
              && run.target == c.target + [Executed(ExistsQuery, Some(BindsOf(c.to)))]
              && InsertedRows(run.target) == [] && Commits(run.target) == 0
  {
    ConnectResolves(src, tgt, from, to, shared);
    var c := ConnectSpec(src, tgt, from, to, shared);
    if !Found(tgt.db.catalog, c.to) && !Truthy(c.to.opts[CreateKey]) {
      var m := MakeTargetSpec(src.db, tgt.db, tgt.connectionString, c.from, c.to, shared);
      assert m.source == [] && m.target == [Executed(ExistsQuery, Some(BindsOf(c.to)))];
      assert c.source + m.source == c.source;
      MakeTargetQuiet(src, tgt, from, to, shared);
    }
  }

  /** Calls that only open the connection or run statements. */
  predicate Quiet(events: seq<Event>)
  {
    forall i :: 0 <= i < |events| ==> events[i].Opened? || events[i].Executed?
  }

  /** Such calls neither insert nor commit. */
  lemma QuietNothing(events: seq<Event>)
    requires Quiet(events)
    ensures InsertedRows(events) == [] && Commits(events) == 0
  {
    NothingInserted(events);
    assert Committed !in events;
  }

  /** Connecting only opens the connection and asks for the session user. */
  lemma ConnectQuiet(active: bool, d: Descriptor)
    ensures Quiet(ConnectEvents(active, d))
  {
  }

  /** Checking for the target and creating it only run statements. */
  lemma MadeQuiet(src: Database, tgt: Database, tgtConn: string, from: Descriptor, to: Descriptor, shared: bool)
    requires from.owner.Some? && from.name.Some? && to.owner.Some? && to.name.Some?
    requires HasOptionKeys(from.opts) && HasOptionKeys(to.opts) && (shared ==> from == to)
    ensures Quiet(MakeTargetSpec(src, tgt, tgtConn, from, to, shared).target)
  {
  }

  /** Connecting, checking for the target and creating it neither insert nor commit. */
  lemma MakeTargetQuiet(src: EndpointState, tgt: EndpointState, from: Descriptor, to: Descriptor, shared: bool)
    requires Clonable(from, to, shared)
    ensures var c := ConnectSpec(src, tgt, from, to, shared);
            var m := MakeTargetSpec(src.db, tgt.db, tgt.connectionString, c.from, c.to, shared);
            InsertedRows(c.target + m.target) == [] && Commits(c.target + m.target) == 0
  {
    ConnectResolves(src, tgt, from, to, shared);
    var c := ConnectSpec(src, tgt, from, to, shared);
    var m := MakeTargetSpec(src.db, tgt.db, tgt.connectionString, c.from, c.to, shared);
    ConnectQuiet(tgt.active, to);
    MadeQuiet(src.db, tgt.db, tgt.connectionString, c.from, c.to, shared);
    assert Quiet(c.target + m.target);
    QuietNothing(c.target + m.target);
  }

  /**
   * A clone commits at most once; it succeeds exactly when it commits and
   * the commit is accepted; it commits only after every row of the select
   * has been inserted; and whatever it inserts is the start of those rows.
   */
  lemma CloneCommitsOnce(src: EndpointState, tgt: EndpointState, from: Descriptor, to: Descriptor,
                         shared: bool, select0: Option<string>)
    requires Clonable(from, to, shared)
    ensures var run := CloneSpec(src, tgt, from, to, shared, select0);
            && Commits(run.target) <= 1
            && (run.outcome.Pass? <==> Commits(run.target) == 1 && !tgt.db.commitRefused)
            && (Commits(run.target) == 1 ==>
                  run.select.Some? && run.select.value in src.db.results && InsertedRows(run.target) == src.db.results[run.select.value].rows)
            && (run.select.Some? && run.select.value in src.db.results ==>
                  InsertedRows(run.target) <= src.db.results[run.select.value].rows)
            && CommitIsLast(run.target)
  {
    ConnectResolves(src, tgt, from, to, shared);
    var c := ConnectSpec(src, tgt, from, to, shared);
    var m := MakeTargetSpec(src.db, tgt.db, tgt.connectionString, c.from, c.to, shared);
    var made := c.target + m.target;
    MakeTargetQuiet(src, tgt, from, to, shared);
    var run := CloneSpec(src, tgt, from, to, shared, select0);
    if m.outcome.Pass? {
      var load := LoadSpec(src.db, tgt.db, m.from, m.to, select0);
      assert run == Prefixed(c.source + m.source, made, load);
      assert run.target == made + load.target && run.outcome == load.outcome && run.select == load.select;
      LoadInserts(src.db, tgt.db, m.from, m.to, select0);
      QuietBefore(made, load.target);
      CommitIsLastAppend(made, load.target);
    } else {
      assert run.target == made && run.outcome.Fail?;
    }
  }

  /**
   * The worked example of the DDL translation, as `clone` runs it: the DDL
   * is fetched for the source carrying the target's tablespace `TS2`, and
   * the statement executed on the target is the translated one.
   */
  lemma CreateTableInClone(src: Database, tgt: Database, tgtConn: string, columns: string,
                           from: Descriptor, to: Descriptor)
    requires forall i :: 0 <= i < |columns| ==>
               !OccursAt(columns + "\n  " + ClausePrefix + "TS1\"", " TABLE \"SRC\".\"T\"", i)
    requires NoClause(columns)
    requires from == Descriptor(Some("src"), Some("t"), "TABLE", DefaultOptions)
    requires to.owner.Some? && to.name == Some("t") && to.objectType == "TABLE" && HasOptionKeys(to.opts)
    requires to.opts[TablespaceKey] == Str("TS2") && Truthy(to.opts[CreateKey]) && !Found(tgt.catalog, to)
    requires DdlOf(src, WithTargetTablespace(from, to)) ==
               Some("\n  CREATE" + " TABLE \"SRC\".\"T\"" + columns + "\n" + "  " + ClausePrefix + "TS1" + "\"" + "")
    ensures MakeTargetSpec(src, tgt, tgtConn, from, to, false).target ==
              [Executed(ExistsQuery, Some(BindsOf(to))),
               Executed("\n  CREATE" + " TABLE \"T\"" + columns + "\n" + "  " + "TABLESPACE \"TS2\"" + "", None)]
  {
    CreateTableTranslated(columns, WithTargetTablespace(from, to), to);
    MakeTargetCreates(src, tgt, tgtConn, from, to, false);
  }

  /** The existence check and the creation on a missing target that may be created. */
  lemma MakeTargetCreates(src: Database, tgt: Database, tgtConn: string, from: Descriptor, to: Descriptor,
                          shared: bool)
    requires from.owner.Some? && from.name.Some? && to.owner.Some? && to.name.Some?
    requires HasOptionKeys(from.opts) && HasOptionKeys(to.opts) && (shared ==> from == to)
    requires !Found(tgt.catalog, to) && Truthy(to.opts[CreateKey])
    ensures var m := MakeTargetSpec(src, tgt, tgtConn, from, to, shared);
            var from' := WithTargetTablespace(from, to);
            var to' := if shared then from' else to;
            && m.source == [Executed(DdlQuery, Some(BindsOf(from')))]
            && (DdlOf(src, from').None? ==> m.outcome == Fail(DatabaseError(DdlQuery)))
            && (DdlOf(src, from').Some? ==>
                  var create := DdlTarget(DdlOf(src, from').value, from', to');
                  && m.target == [Executed(ExistsQuery, Some(BindsOf(to))), Executed(create, None)]
                  && (m.outcome.Pass? <==> create !in tgt.rejects))
  {
  }

  /**
   * When the target is missing and may be created, the translated DDL is
   * executed on the target right after the existence check, before the
   * load; the DDL is fetched for the source with the target's tablespace.
   */
  lemma CreatedBeforeLoad(src: EndpointState, tgt: EndpointState, from: Descriptor, to: Descriptor,
                          shared: bool, select0: Option<string>)
    requires Clonable(from, to, shared)
    ensures var c := ConnectSpec(src, tgt, from, to, shared);
            var run := CloneSpec(src, tgt, from, to, shared, select0);
            var from' := WithTargetTablespace(c.from, c.to);
            var to' := if shared then from' else c.to;
            !Found(tgt.db.catalog, c.to) && Truthy(c.to.opts[CreateKey]) && DdlOf(src.db, from').Some? ==>
              var create := DdlTarget(DdlOf(src.db, from').value, from', to');
              && run.source[..|c.source| + 1] == c.source + [Executed(DdlQuery, Some(BindsOf(from')))]
              && run.target[..|c.target| + 2] ==
                   c.target + [Executed(ExistsQuery, Some(BindsOf(c.to))), Executed(create, None)]
              && (create in tgt.db.rejects ==> run.outcome == Fail(DatabaseError(create)))
  {
    ConnectResolves(src, tgt, from, to, shared);
    var c := ConnectSpec(src, tgt, from, to, shared);
    var run := CloneSpec(src, tgt, from, to, shared, select0);
    var from' := WithTargetTablespace(c.from, c.to);
    if !Found(tgt.db.catalog, c.to) && Truthy(c.to.opts[CreateKey]) && DdlOf(src.db, from').Some? {
      var m := MakeTargetSpec(src.db, tgt.db, tgt.connectionString, c.from, c.to, shared);
      MakeTargetCreates(src.db, tgt.db, tgt.connectionString, c.from, c.to, shared);
      var pre := c.source + m.source;
      var made := c.target + m.target;
      if m.outcome.Pass? {
        var load := LoadSpec(src.db, tgt.db, m.from, m.to, select0);
        assert run.source == pre + load.source && run.target == made + load.target;
        assert (pre + load.source)[..|pre|] == pre;
        assert (made + load.target)[..|made|] == made;
      } else {
        assert run.source == pre && run.target == made;
      }
    }
  }

  /**
   * The select and the load run only once the target exists: when the DDL
   * cannot be fetched, or the translated DDL is refused, the clone ends
   * there and the source receives no select.
   */
  lemma CreationGatesLoad(src: EndpointState, tgt: EndpointState, from: Descriptor, to: Descriptor,
                          shared: bool, select0: Option<string>)
    requires Clonable(from, to, shared)
    ensures var c := ConnectSpec(src, tgt, from, to, shared);
            var run := CloneSpec(src, tgt, from, to, shared, select0);
            var from' := WithTargetTablespace(c.from, c.to);
            var to' := if shared then from' else c.to;
            var fetched := [Executed(DdlQuery, Some(BindsOf(from')))];
            var checked := [Executed(ExistsQuery, Some(BindsOf(c.to)))];
            !Found(tgt.db.catalog, c.to) && Truthy(c.to.opts[CreateKey]) ==>
              && (DdlOf(src.db, from').None? ==>
                    && run.outcome == Fail(DatabaseError(DdlQuery))
                    && run.source == c.source + fetched && run.target == c.target + checked)
              && (DdlOf(src.db, from').Some? && DdlTarget(DdlOf(src.db, from').value, from', to') in tgt.db.rejects ==>
                    var create := DdlTarget(DdlOf(src.db, from').value, from', to');
                    && run.outcome == Fail(DatabaseError(create))
                    && run.source == c.source + fetched
                    && run.target == c.target + checked + [Executed(create, None)])
  {
    ConnectResolves(src, tgt, from, to, shared);
    var c := ConnectSpec(src, tgt, from, to, shared);
    var m := MakeTargetSpec(src.db, tgt.db, tgt.connectionString, c.from, c.to, shared);
    var from' := WithTargetTablespace(c.from, c.to);
    var to' := if shared then from' else c.to;
    if !Found(tgt.db.catalog, c.to) && Truthy(c.to.opts[CreateKey]) && DdlOf(src.db, from').Some? {
      var create := DdlTarget(DdlOf(src.db, from').value, from', to');
      AppendAssoc(c.target, [Executed(ExistsQuery, Some(BindsOf(c.to)))], [Executed(create, None)]);
    }
  }

  /** An existing target is used as it is: no DDL is fetched or executed. */
  lemma ExistingTargetKept(src: EndpointState, tgt: EndpointState, from: Descriptor, to: Descriptor,
                           shared: bool, select0: Option<string>)
    requires Clonable(from, to, shared)
    ensures var c := ConnectSpec(src, tgt, from, to, shared);
            var run := CloneSpec(src, tgt, from, to, shared, select0);
            Found(tgt.db.catalog, c.to) ==>
              var load := LoadSpec(src.db, tgt.db, c.from, c.to, select0);
              && run.source == c.source + load.source
              && run.target == c.target + [Executed(ExistsQuery, Some(BindsOf(c.to)))] + load.target
              && run.from == c.from && run.to == c.to
  {
    ConnectResolves(src, tgt, from, to, shared);
  }

  /**
   * Cloning a small table (1 to 100 rows) with the default select into an
   * existing target without truncation: the existence check, the prepared
   * insert and one `executemany` with all the rows, then one commit when
   * the database accepts the batch, and no commit when it refuses it.
   */
  lemma SmallTableIntoExistingTarget(src: EndpointState, tgt: EndpointState, from: Descriptor, to: Descriptor,
                                     shared: bool)
    requires Clonable(from, to, shared)
    ensures var c := ConnectSpec(src, tgt, from, to, shared);
            var run := CloneSpec(src, tgt, from, to, shared, None);
            var select := DefaultSelect(c.from);
            Found(tgt.db.catalog, c.to) && !Truthy(c.to.opts[TruncateKey]) && select in src.db.results
            && 0 < |src.db.results[select].rows| <= BulkRows ==>
              var result := src.db.results[select];
              var insert := InsertFor(c.to, result);
              var checked := [Executed(ExistsQuery, Some(BindsOf(c.to)))];
              && run.source == c.source + [Executed(select, None)]
              && (insert !in tgt.db.rejects && (insert, result.rows) !in tgt.db.refusedBatches ==>
                    && run.outcome == (if tgt.db.commitRefused then Fail(CommitFailed) else Pass)
                    && run.target == c.target + checked + [Prepared(insert), ExecutedMany(result.rows), Committed])
              && (insert !in tgt.db.rejects && (insert, result.rows) in tgt.db.refusedBatches ==>
                    && run.outcome == Fail(DatabaseError(insert))
                    && run.target == c.target + checked + [Prepared(insert), ExecutedMany(result.rows)])
  {
    ConnectResolves(src, tgt, from, to, shared);
    var c := ConnectSpec(src, tgt, from, to, shared);
    var select := DefaultSelect(c.from);
    if Found(tgt.db.catalog, c.to) && !Truthy(c.to.opts[TruncateKey]) && select in src.db.results
       && 0 < |src.db.results[select].rows| <= BulkRows {
      var m := MakeTargetSpec(src.db, tgt.db, tgt.connectionString, c.from, c.to, shared);
      assert m == Made(Pass, [], [Executed(ExistsQuery, Some(BindsOf(c.to)))], c.from, c.to);
      var load := LoadSpec(src.db, tgt.db, c.from, c.to, None);
      SmallLoad(src.db, tgt.db, c.from, c.to);
      assert c.source + [] == c.source;
      AppendAssoc(c.target, m.target, load.target);
    }
  }

  /** The load of a small table without truncation: one batch, then the commit if the batch is accepted. */
  lemma SmallLoad(src: Database, tgt: Database, from: Descriptor, to: Descriptor)
    requires from.owner.Some? && from.name.Some? && to.owner.Some? && to.name.Some?
    requires HasOptionKeys(to.opts) && !Truthy(to.opts[TruncateKey])
    requires DefaultSelect(from) in src.results && 0 < |src.results[DefaultSelect(from)].rows| <= BulkRows
    ensures var run := LoadSpec(src, tgt, from, to, None);
            var result := src.results[DefaultSelect(from)];
            var insert := InsertFor(to, result);
            && run.source == [Executed(DefaultSelect(from), None)]
            && (insert !in tgt.rejects && (insert, result.rows) !in tgt.refusedBatches ==>
                  && run.outcome == (if tgt.commitRefused then Fail(CommitFailed) else Pass)
                  && run.target == [Prepared(insert), ExecutedMany(result.rows), Committed])
            && (insert !in tgt.rejects && (insert, result.rows) in tgt.refusedBatches ==>
                  run.outcome == Fail(DatabaseError(insert)) && run.target == [Prepared(insert), ExecutedMany(result.rows)])
  {
    var result := src.results[DefaultSelect(from)];
    var insert := InsertFor(to, result);
    assert Batches(result.rows) == [result.rows];
    assert SentBatches([result.rows], insert, tgt.refusedBatches) == [result.rows];
    assert BatchEvents([result.rows]) == [ExecutedMany(result.rows)];
  }

  // ---------------------------------------------------------------------------
  // Validation

  /**
   * The identity check compares owners before they are resolved: a source
   * whose owner is unset and a target naming the session's schema pass it,
   * although both denote the same table once `connect` has resolved the
   * source's owner.
   */
  lemma IdentityBeforeOwnerResolution(conn: string, from: Descriptor, user: string)
    requires from.owner.None? && from.name.Some? && from.objectType == SupportedType
    ensures var to := from.(owner := Some(Lower(user)));
            Validate(conn, conn, from, to).Pass? && Resolve(from, user) == to
  {
  }
}
