/**
 * The cloner (`Cloner`): validation at construction, owner resolution, and
 * the clone itself (existence check, optional creation from translated DDL,
 * optional truncation, the select, the prepared insert, the batched
 * transfer and the single commit).
 */
module CloneObj {
  import opened Wrappers
  import opened Text
  import opened Descriptors
  import opened Ddl
  import opened Transfer
  import opened Endpoint

  /** The exceptions the cloner raises, and the database raising under it. */
  datatype CloneError =
    | UnsupportedObjectType
    | MissingSourceName
    | IdenticalObjects
    | TargetMissing(target: Descriptor, connectionString: string)
    | DatabaseError(statement: string)
    | CommitFailed

  /** The only object type the cloner handles. */
  const SupportedType: string := "TABLE"

  // ---------------------------------------------------------------------------
  // Validation (the constructor)

  /** The target descriptor after an unset target name has been defaulted to the source's. */
  function WithDefaultName(to: Descriptor, from: Descriptor): Descriptor
  {
    if to.name.None? then to.(name := from.name) else to
  }

  /** The identity test of the constructor: same connection string, name, owner and type. */
  predicate SameObject(fromConn: string, toConn: string, from: Descriptor, to: Descriptor)
  {
    fromConn == toConn && from.name == to.name && from.owner == to.owner && from.objectType == to.objectType
  }

  /** The constructor's checks, in the order it makes them. */
  function Validate(fromConn: string, toConn: string, from: Descriptor, to: Descriptor): (r: Outcome<CloneError>)
    ensures r == Fail(UnsupportedObjectType) <==>
              from.objectType != SupportedType || to.objectType != SupportedType
    ensures r == Fail(MissingSourceName) <==>
              from.objectType == SupportedType && to.objectType == SupportedType && from.name.None?
    ensures r == Fail(IdenticalObjects) <==>
              && from.objectType == SupportedType && to.objectType == SupportedType && from.name.Some?
              && SameObject(fromConn, toConn, from, WithDefaultName(to, from))
  {
    if from.objectType != SupportedType || to.objectType != SupportedType then Fail(UnsupportedObjectType)
    else if from.name.None? then Fail(MissingSourceName)
    else if SameObject(fromConn, toConn, from, WithDefaultName(to, from)) then Fail(IdenticalObjects)
    else Pass
  }

  /**
   * A cloner that passes validation has a named source and target of the
   * supported type that differ in connection string, name or owner.
   */
  lemma ValidatePassed(fromConn: string, toConn: string, from: Descriptor, to: Descriptor)
    requires Validate(fromConn, toConn, from, to).Pass?
    ensures from.objectType == SupportedType && to.objectType == SupportedType
    ensures from.name.Some? && WithDefaultName(to, from).name.Some?
    ensures fromConn != toConn || from.name != WithDefaultName(to, from).name || from.owner != to.owner
  {
  }

  // ---------------------------------------------------------------------------
  // The clone, as a specification over the two databases. Each connection's
  // calls are recorded in its own list, in the order they are made.

  /** `set_owner`: an unset owner becomes the session's schema. */
  function Resolve(d: Descriptor, sessionUser: string): Descriptor
  {
    if d.owner.None? then d.(owner := Some(Lower(sessionUser))) else d
  }

  /** The calls one connection makes while connecting and resolving an owner. */
  function ConnectEvents(active: bool, d: Descriptor): seq<Event>
  {
    (if active then [] else [Opened]) + (if d.owner.Some? then [] else [Executed(OwnerQuery, None)])
  }

  /** The calls on each connection and the descriptors after a stage of the clone. */
  datatype Stage = Stage(source: seq<Event>, target: seq<Event>, from: Descriptor, to: Descriptor)

  /**
   * `connect`: the source is connected and its owner resolved, then the
   * target. When both descriptors are one object (`shared`), resolving the
   * source's owner resolves the target's too.
   */
  function ConnectSpec(src: EndpointState, tgt: EndpointState, from: Descriptor, to: Descriptor, shared: bool): Stage
  {
    var from1 := Resolve(from, src.db.sessionUser);
    var to1 := if shared then from1 else to;
    var to2 := Resolve(to1, tgt.db.sessionUser);
    Stage(ConnectEvents(src.active, from), ConnectEvents(tgt.active, to1), if shared then to2 else from1, to2)
  }

  /**
   * After `connect` both owners are set, an owner that was set is kept, and
   * nothing but the owners changes.
   */
  lemma ConnectResolves(src: EndpointState, tgt: EndpointState, from: Descriptor, to: Descriptor, shared: bool)
    requires shared ==> from == to
    ensures var c := ConnectSpec(src, tgt, from, to, shared);
            && c.from.owner.Some? && c.to.owner.Some?
            && (from.owner.Some? ==> c.from.owner == from.owner)
            && (to.owner.Some? ==> c.to.owner == to.owner)
            && c.from == from.(owner := c.from.owner) && c.to == to.(owner := c.to.owner)
            && (shared ==> c.from == c.to)
  {
  }

  /** `connect` a second time opens nothing, asks for no owner and changes no descriptor. */
  lemma {:induction false} ConnectAgain(src: EndpointState, tgt: EndpointState, from: Descriptor, to: Descriptor,
                                        shared: bool)
    requires shared ==> from == to
    ensures var c := ConnectSpec(src, tgt, from, to, shared);
            var again := ConnectSpec(src.(active := true), tgt.(active := true), c.from, c.to, shared);
            again == Stage([], [], c.from, c.to)
  {
    ConnectResolves(src, tgt, from, to, shared);
  }

  /** `'SELECT * FROM {}.{}'.format(owner, name)`. */
  function DefaultSelect(d: Descriptor): string
    requires d.owner.Some? && d.name.Some?
  {
    "SELECT * FROM " + d.owner.value + "." + d.name.value
  }

  /** `'TRUNCATE {} {}.{}'.format(type, owner, name)`. */
  function TruncateStatement(d: Descriptor): string
    requires d.owner.Some? && d.name.Some?
  {
    "TRUNCATE " + d.objectType + " " + d.owner.value + "." + d.name.value
  }

  /** One `executemany` per batch, in order. */
  function BatchEvents(bs: seq<seq<Row>>): (events: seq<Event>)
    ensures |events| == |bs|
    ensures forall i :: 0 <= i < |bs| ==> events[i] == ExecutedMany(bs[i])
  {
    seq(|bs|, i requires 0 <= i < |bs| => ExecutedMany(bs[i]))
  }

  lemma BatchEventsSnoc(bs: seq<seq<Row>>, b: seq<Row>)
    ensures BatchEvents(bs + [b]) == BatchEvents(bs) + [ExecutedMany(b)]
  {
  }

  /** The database accepts every batch of `bs` for the prepared `insert`. */
  predicate AllAccepted(bs: seq<seq<Row>>, insert: string, refused: set<(string, seq<Row>)>)
  {
    forall i :: 0 <= i < |bs| ==> (insert, bs[i]) !in refused
  }

  /**
   * The batches the transfer loop sends before it stops: all of them, or
   * those up to and including the first one the database refuses.
   */
  function SentBatches(bs: seq<seq<Row>>, insert: string, refused: set<(string, seq<Row>)>): seq<seq<Row>>
    decreases |bs|
  {
    if bs == [] then []
    else if (insert, bs[0]) in refused then [bs[0]]
    else [bs[0]] + SentBatches(bs[1..], insert, refused)
  }

  /**
   * What is sent is a prefix of the batches: all of them exactly when every
   * batch is accepted, and otherwise the batches up to the first refused one,
   * all earlier ones accepted.
   */
  lemma {:induction false} SentBatchesFirstRefused(bs: seq<seq<Row>>, insert: string,
                                                   refused: set<(string, seq<Row>)>) returns (j: nat)
    ensures var sent := SentBatches(bs, insert, refused);
            && (AllAccepted(bs, insert, refused) ==> sent == bs)
            && (!AllAccepted(bs, insert, refused) ==>
                  && j < |bs| && sent == bs[..j + 1] && (insert, bs[j]) in refused
                  && AllAccepted(bs[..j], insert, refused))
    decreases |bs|
  {
    j := 0;
    if bs != [] && (insert, bs[0]) !in refused {
      var j' := SentBatchesFirstRefused(bs[1..], insert, refused);
      var sent' := SentBatches(bs[1..], insert, refused);
      if AllAccepted(bs, insert, refused) {
        assert AllAccepted(bs[1..], insert, refused) by {
          forall i | 0 <= i < |bs[1..]| ensures (insert, bs[1..][i]) !in refused {
            assert bs[1..][i] == bs[i + 1];
          }
        }
        assert [bs[0]] + bs[1..] == bs;
      } else {
        assert !AllAccepted(bs[1..], insert, refused) by {
          var i :| 0 <= i < |bs| && (insert, bs[i]) in refused;
          assert bs[1..][i - 1] == bs[i];
        }
        j := j' + 1;
        assert [bs[0]] + bs[1..][..j'+ 1] == bs[..j + 1];
        assert AllAccepted(bs[..j], insert, refused) by {
          forall i | 0 <= i < j ensures (insert, bs[..j][i]) !in refused {
            if i > 0 { assert bs[..j][i] == bs[1..][..j'][i - 1]; }
          }
        }
      }
    }
  }

  /** Accepted batches followed by a refused one: the transfer stops right after the refused one. */
  lemma {:induction false} SentUpToRefused(accepted: seq<seq<Row>>, b: seq<Row>, rest: seq<seq<Row>>, insert: string,
                                           refused: set<(string, seq<Row>)>)
    requires AllAccepted(accepted, insert, refused) && (insert, b) in refused
    ensures SentBatches(accepted + [b] + rest, insert, refused) == accepted + [b]
    ensures !AllAccepted(accepted + [b] + rest, insert, refused)
    decreases |accepted|
  {
    var bs := accepted + [b] + rest;
    assert bs[|accepted|] == b;
    if accepted != [] {
      assert bs[0] == accepted[0];
      assert bs[1..] == accepted[1..] + [b] + rest;
      assert AllAccepted(accepted[1..], insert, refused) by {
        forall i | 0 <= i < |accepted[1..]| ensures (insert, accepted[1..][i]) !in refused {
          assert accepted[1..][i] == accepted[i + 1];
        }
      }
      SentUpToRefused(accepted[1..], b, rest, insert, refused);
      assert [accepted[0]] + accepted[1..] == accepted;
    } else {
      assert bs[0] == b;
    }
  }

  /** A flush of the buffer after a whole number of full batches extends the batches by it. */
  lemma FlushStep(rows: seq<Row>, k: nat)
    requires BulkRows <= k <= |rows| && (k - BulkRows) % BulkRows == 0
    ensures Batches(rows[..k]) == Batches(rows[..k - BulkRows]) + [rows[k - BulkRows..k]]
    ensures BatchEvents(Batches(rows[..k])) ==
            BatchEvents(Batches(rows[..k - BulkRows])) + [ExecutedMany(rows[k - BulkRows..k])]
  {
    assert rows[..k - BulkRows] + rows[k - BulkRows..k] == rows[..k];
    BatchesSnoc(rows[..k - BulkRows], rows[k - BulkRows..k]);
    BatchEventsSnoc(Batches(rows[..k - BulkRows]), rows[k - BulkRows..k]);
  }

  /** An accepted flush at `k` extends the accepted prefix by one batch. */
  lemma AcceptedFlush(rows: seq<Row>, k: nat, insert: string, refused: set<(string, seq<Row>)>)
    requires BulkRows <= k <= |rows| && (k - BulkRows) % BulkRows == 0
    requires AllAccepted(Batches(rows[..k - BulkRows]), insert, refused)
    requires (insert, rows[k - BulkRows..k]) !in refused
    ensures AllAccepted(Batches(rows[..k]), insert, refused)
  {
    FlushStep(rows, k);
  }

  /**
   * A refused flush at `k` after accepted batches ends the transfer: the
   * batches sent are those flushed so far, the refused one last.
   */
  lemma RefusedFlush(rows: seq<Row>, k: nat, insert: string, refused: set<(string, seq<Row>)>)
    requires BulkRows <= k <= |rows| && (k - BulkRows) % BulkRows == 0
    requires AllAccepted(Batches(rows[..k - BulkRows]), insert, refused)
    requires (insert, rows[k - BulkRows..k]) in refused
    ensures SentBatches(Batches(rows), insert, refused) == Batches(rows[..k])
    ensures !AllAccepted(Batches(rows), insert, refused)
  {
    FlushStep(rows, k);
    assert rows[..k] + rows[k..] == rows;
    BatchesAppend(rows[..k], rows[k..]);
    SentUpToRefused(Batches(rows[..k - BulkRows]), rows[k - BulkRows..k], Batches(rows[k..]), insert, refused);
  }

  /**
   * The final flush of the `i` buffered rows (none when `i` is 0) after
   * accepted batches completes the transfer, or ends it refused.
   */
  lemma FinishStep(rows: seq<Row>, i: nat, insert: string, refused: set<(string, seq<Row>)>)
    requires i <= |rows| && i < BulkRows && (|rows| - i) % BulkRows == 0
    requires AllAccepted(Batches(rows[..|rows| - i]), insert, refused)
    ensures BatchEvents(SentBatches(Batches(rows), insert, refused)) ==
            BatchEvents(Batches(rows[..|rows| - i])) + if i == 0 then [] else [ExecutedMany(rows[|rows| - i..])]
    ensures AllAccepted(Batches(rows), insert, refused) <==> i == 0 || (insert, rows[|rows| - i..]) !in refused
  {
    var done := Batches(rows[..|rows| - i]);
    if i == 0 {
      assert rows[..|rows|] == rows;
      var _ := SentBatchesFirstRefused(Batches(rows), insert, refused);
    } else {
      var last := rows[|rows| - i..];
      assert rows[..|rows| - i] + last == rows;
      BatchesSnoc(rows[..|rows| - i], last);
      BatchEventsSnoc(done, last);
      if (insert, last) in refused {
        SentUpToRefused(done, last, [], insert, refused);
        assert done + [last] + [] == done + [last];
      } else {
        assert AllAccepted(done + [last], insert, refused) by {
          forall j | 0 <= j < |done + [last]| ensures (insert, (done + [last])[j]) !in refused {
            if j < |done| { assert (done + [last])[j] == done[j]; }
          }
        }
        var _ := SentBatchesFirstRefused(Batches(rows), insert, refused);
      }
    }
  }

  /** The outcome of one part of a clone and the calls it makes on each connection. */
  datatype Part = Part(outcome: Outcome<CloneError>, source: seq<Event>, target: seq<Event>)

  /** The insert statement for the target and the select's columns. */
  function InsertFor(to: Descriptor, result: QueryResult): string
    requires to.owner.Some? && to.name.Some?
  {
    InsertStatement(to.owner.value, to.name.value, result.columns)
  }

  /**
   * The target calls after a prepare the database accepts: one
   * `executemany` per batch sent, then the commit if no batch was refused.
   */
  function TransferEvents(rows: seq<Row>, insert: string, refused: set<(string, seq<Row>)>): seq<Event>
  {
    var bs := Batches(rows);
    [Prepared(insert)] + BatchEvents(SentBatches(bs, insert, refused))
    + if AllAccepted(bs, insert, refused) then [Committed] else []
  }

  /** The select on the source, then the prepared insert, the transfer and the commit on the target. */
  function TransferSpec(src: Database, tgt: Database, to: Descriptor, select: string): Part
    requires to.owner.Some? && to.name.Some?
  {
    if select !in src.results then
      Part(Fail(DatabaseError(select)), [Executed(select, None)], [])
    else
      var result := src.results[select];
      var p := InsertSpec(tgt, InsertFor(to, result), result.rows);
      Part(p.outcome, [Executed(select, None)], p.target)
  }

  /** The prepared insert, the batches of `rows` and the commit, on the target alone. */
  function InsertSpec(tgt: Database, insert: string, rows: seq<Row>): Part
  {
    if insert in tgt.rejects then
      Part(Fail(DatabaseError(insert)), [], [Prepared(insert)])
    else
      var outcome :=
        if !AllAccepted(Batches(rows), insert, tgt.refusedBatches) then Fail(DatabaseError(insert))
        else if tgt.commitRefused then Fail(CommitFailed)
        else Pass;
      Part(outcome, [], TransferEvents(rows, insert, tgt.refusedBatches))
  }

  /**
   * The statement prepared on the target after a transfer: the insert for
   * the select's columns when the select succeeds and the database accepts
   * the insert, and otherwise the one prepared before.
   */
  function PreparedAfter(src: Database, tgt: Database, to: Descriptor, select: string, prior: Option<string>)
    : Option<string>
    requires to.owner.Some? && to.name.Some?
  {
    if select in src.results && InsertFor(to, src.results[select]) !in tgt.rejects
    then Some(InsertFor(to, src.results[select]))
    else prior
  }

  /** The outcome, the calls on each connection, the final descriptors and the final select of a clone. */
  datatype Run = Run(outcome: Outcome<CloneError>, source: seq<Event>, target: seq<Event>,
                     from: Descriptor, to: Descriptor, select: Option<string>)

  /** `run`, preceded by calls made before it. */
  function Prefixed(source: seq<Event>, target: seq<Event>, run: Run): Run
  {
    run.(source := source + run.source, target := target + run.target)
  }

  /** The truncate issued on the target: one statement when the `truncate` option is set, none otherwise. */
  function TruncateEvents(to: Descriptor): seq<Event>
    requires to.owner.Some? && to.name.Some? && HasOptionKeys(to.opts)
  {
    if Truthy(to.opts[TruncateKey]) then [Executed(TruncateStatement(to), None)] else []
  }

  /** The truncate is issued and the database refuses it. */
  predicate TruncateRefused(tgt: Database, to: Descriptor)
    requires to.owner.Some? && to.name.Some? && HasOptionKeys(to.opts)
  {
    Truthy(to.opts[TruncateKey]) && TruncateStatement(to) in tgt.rejects
  }

  /** From the select onwards: default select, optional truncate, then the transfer. */
  function LoadSpec(src: Database, tgt: Database, from: Descriptor, to: Descriptor, select0: Option<string>): Run
    requires from.owner.Some? && from.name.Some? && to.owner.Some? && to.name.Some?
    requires HasOptionKeys(to.opts)
  {
    var select := if select0.Some? then select0.value else DefaultSelect(from);
    if TruncateRefused(tgt, to) then
      Run(Fail(DatabaseError(TruncateStatement(to))), [], TruncateEvents(to), from, to, Some(select))
    else
      var p := TransferSpec(src, tgt, to, select);
      Run(p.outcome, p.source, TruncateEvents(to) + p.target, from, to, Some(select))
  }

  /** What the clone needs of the descriptors it is given. */
  predicate Clonable(from: Descriptor, to: Descriptor, shared: bool)
  {
    && from.name.Some? && to.name.Some?
    && HasOptionKeys(from.opts) && HasOptionKeys(to.opts)
    && (shared ==> from == to)
  }

  /** The source descriptor with the target's tablespace option, as `clone` sets it before fetching the DDL. */
  function WithTargetTablespace(from: Descriptor, to: Descriptor): Descriptor
    requires TablespaceKey in to.opts
  {
    from.(opts := from.opts[TablespaceKey := to.opts[TablespaceKey]])
  }

  /** The outcome, the calls on each connection and the descriptors after ensuring the target exists. */
  datatype Made = Made(outcome: Outcome<CloneError>, source: seq<Event>, target: seq<Event>,
                       from: Descriptor, to: Descriptor)

  /**
   * The start of `clone` after `connect`: the existence check on the target
   * and, when the target is missing and may be created, the DDL fetched from
   * the source, translated and executed on the target.
   */
  function MakeTargetSpec(src: Database, tgt: Database, tgtConn: string, from: Descriptor, to: Descriptor,
                          shared: bool): (m: Made)
    requires from.owner.Some? && from.name.Some? && to.owner.Some? && to.name.Some?
    requires HasOptionKeys(from.opts) && HasOptionKeys(to.opts) && (shared ==> from == to)
    ensures m.from.owner == from.owner && m.from.name == from.name && HasOptionKeys(m.from.opts)
    ensures m.to.owner == to.owner && m.to.name == to.name && HasOptionKeys(m.to.opts)
  {
    var checked := [Executed(ExistsQuery, Some(BindsOf(to)))];
    if Found(tgt.catalog, to) then
      Made(Pass, [], checked, from, to)
    else if !Truthy(to.opts[CreateKey]) then
      Made(Fail(TargetMissing(to, tgtConn)), [], checked, from, to)
    else
      var from' := WithTargetTablespace(from, to);
      var to' := if shared then from' else to;
      var fetched := [Executed(DdlQuery, Some(BindsOf(from')))];
      match DdlOf(src, from')
      case None => Made(Fail(DatabaseError(DdlQuery)), fetched, checked, from', to')
      case Some(ddl) =>
        var create := DdlTarget(ddl, from', to');
        Made(if create in tgt.rejects then Fail(DatabaseError(create)) else Pass,
             fetched, checked + [Executed(create, None)], from', to')
  }

  /** `clone`, from the state of both connections and both descriptors. */
  function CloneSpec(src: EndpointState, tgt: EndpointState, from0: Descriptor, to0: Descriptor,
                     shared: bool, select0: Option<string>): Run
    requires Clonable(from0, to0, shared)
  {
    ConnectResolves(src, tgt, from0, to0, shared);
    var c := ConnectSpec(src, tgt, from0, to0, shared);
    var m := MakeTargetSpec(src.db, tgt.db, tgt.connectionString, c.from, c.to, shared);
    if m.outcome.Fail? then
      Run(m.outcome, c.source + m.source, c.target + m.target, m.from, m.to, select0)
    else
      Prefixed(c.source + m.source, c.target + m.target, LoadSpec(src.db, tgt.db, m.from, m.to, select0))
  }

  // ---------------------------------------------------------------------------
  // The cloner object

  class Cloner {
    const fromDb: Connection
    const toDb: Connection
    const fromObj: DBObject
    const toObj: DBObject
    /** The source query; defaulted on the first clone when unset. */
    var select: Option<string>

    ghost predicate Valid()
      reads this, fromObj, toObj
    {
      && fromDb != toDb
      && fromObj.Valid() && toObj.Valid()
      && fromObj.objectType == SupportedType && toObj.objectType == SupportedType
      && fromObj.name.Some? && toObj.name.Some?
    }

    constructor (fromDb: Connection, toDb: Connection, fromObj: DBObject, toObj: DBObject)
      ensures this.fromDb == fromDb && this.toDb == toDb
      ensures this.fromObj == fromObj && this.toObj == toObj
      ensures select.None?
    {
      this.fromDb := fromDb;
      this.toDb := toDb;
      this.fromObj := fromObj;
      this.toObj := toObj;
      select := None;
    }

    /**
     * `Cloner(from_db, to_db, from_obj, to_obj)`: validates, defaulting the
     * target name to the source name on the way.
     */
    static method Create(fromDb: Connection, toDb: Connection, fromObj: DBObject, toObj: DBObject)
      returns (r: Result<Cloner, CloneError>)
      requires fromDb != toDb
      requires fromObj.Valid() && toObj.Valid()
      modifies toObj
      ensures var v := Validate(fromDb.connectionString, toDb.connectionString, old(fromObj.Value()), old(toObj.Value()));
              (r.Failure? <==> v.Fail?) && (r.Failure? ==> r.error == v.error)
      ensures toObj.Value() ==
                if fromObj.objectType == SupportedType && toObj.objectType == SupportedType && old(fromObj.name).Some?
                then WithDefaultName(old(toObj.Value()), old(fromObj.Value()))
                else old(toObj.Value())
      ensures r.Success? ==> fresh(r.value) && r.value.Valid() && r.value.select.None?
      ensures r.Success? ==> r.value.fromDb == fromDb && r.value.toDb == toDb
      ensures r.Success? ==> r.value.fromObj == fromObj && r.value.toObj == toObj
    {
      ghost var from := fromObj.Value();
      ghost var to := toObj.Value();
      if fromObj.objectType != SupportedType || toObj.objectType != SupportedType {
        return Failure(UnsupportedObjectType);
      }
      if fromObj.name.None? {
        return Failure(MissingSourceName);
      }
      if toObj.name.None? {
        toObj.name := fromObj.name;
      }
      assert toObj.Value() == WithDefaultName(to, from);
      if fromDb.connectionString == toDb.connectionString && fromObj.name == toObj.name
         && fromObj.owner == toObj.owner && fromObj.objectType == toObj.objectType {
        return Failure(IdenticalObjects);
      }
      var c := new Cloner(fromDb, toDb, fromObj, toObj);
      return Success(c);
    }

    /** `set_owner`: asks the session for its schema only when the owner is unset. */
    static method SetOwner(obj: DBObject, conn: Connection)
      requires conn.active && obj.Valid()
      modifies obj, conn
      ensures obj.Valid() && conn.active && conn.prepared == old(conn.prepared)
      ensures obj.Value() == Resolve(old(obj.Value()), conn.db.sessionUser)
      ensures conn.trace == old(conn.trace) + if old(obj.owner).Some? then [] else [Executed(OwnerQuery, None)]
    {
      if obj.owner.None? {
        var owner := conn.SessionOwner();
        obj.owner := Some(owner);
      }
    }

    /** `connect`: connects the source and resolves its owner, then the same for the target. */
    method Connect()
      requires Valid()
      modifies fromDb, toDb, fromObj, toObj
      ensures Valid()
      ensures fromDb.active && toDb.active && fromObj.owner.Some? && toObj.owner.Some?
      ensures fromDb.prepared == if old(fromDb.active) then old(fromDb.prepared) else None
      ensures toDb.prepared == if old(toDb.active) then old(toDb.prepared) else None
      ensures var c := ConnectSpec(old(fromDb.State()), old(toDb.State()), old(fromObj.Value()),
                                   old(toObj.Value()), fromObj == toObj);
              && fromObj.Value() == c.from && toObj.Value() == c.to
              && fromDb.trace == old(fromDb.trace) + c.source
              && toDb.trace == old(toDb.trace) + c.target
    {
      ghost var src := fromDb.State();
      ghost var tgt := toDb.State();
      ghost var from := fromObj.Value();
      ghost var to := toObj.Value();
      fromDb.Connect();
      SetOwner(fromObj, fromDb);
      assert fromDb.trace == old(fromDb.trace) + ConnectEvents(src.active, from);
      ghost var from1 := fromObj.Value();
      assert from1 == Resolve(from, src.db.sessionUser);
      ghost var to1 := toObj.Value();
      toDb.Connect();
      SetOwner(toObj, toDb);
      ghost var c := ConnectSpec(src, tgt, from, to, fromObj == toObj);
      if fromObj == toObj {
        assert to1 == from1;
        assert from1.owner.Some?;
        assert toObj.Value() == to1;
        assert c.to == from1 && c.from == from1;
      } else {
        assert to1 == to;
        assert fromObj.Value() == from1;
        assert toObj.Value() == Resolve(to, tgt.db.sessionUser);
      }
      assert toDb.trace == old(toDb.trace) + ConnectEvents(tgt.active, to1);
      assert fromObj.Valid() && toObj.Valid();
      assert fromObj.name.Some? && toObj.name.Some?;
    }

    /** `close`: closes both connections. */
    method Close()
      requires fromDb != toDb
      modifies fromDb, toDb
      ensures !fromDb.active && !toDb.active
      ensures fromDb.trace == if old(fromDb.active) then old(fromDb.trace) + [Closed] else old(fromDb.trace)
      ensures toDb.trace == if old(toDb.active) then old(toDb.trace) + [Closed] else old(toDb.trace)
    {
      fromDb.Close();
      toDb.Close();
    }

    /** `bulk_insert`: one `executemany` for a non-empty batch, nothing for an empty one. */
    method BulkInsert(batch: seq<Row>) returns (ok: bool)
      requires toDb.active && toDb.prepared.Some?
      modifies toDb
      ensures toDb.active && toDb.prepared == old(toDb.prepared)
      ensures toDb.trace == old(toDb.trace) + if batch == [] then [] else [ExecutedMany(batch)]
      ensures ok <==> batch == [] || (toDb.prepared.value, batch) !in toDb.db.refusedBatches
    {
      ok := true;
      if batch != [] {
        ok := toDb.ExecuteMany(batch);
      }
    }

    /**
     * The transfer loop: rows are buffered and flushed every `BulkRows` rows,
     * and the remainder is flushed once at the end; a refused flush ends it.
     */
    method StreamRows(rows: seq<Row>) returns (ok: bool)
      requires toDb.active && toDb.prepared.Some?
      modifies toDb
      ensures toDb.active && toDb.prepared == old(toDb.prepared)
      ensures var insert := toDb.prepared.value;
              && toDb.trace == old(toDb.trace) + BatchEvents(SentBatches(Batches(rows), insert, toDb.db.refusedBatches))
              && (ok <==> AllAccepted(Batches(rows), insert, toDb.db.refusedBatches))
    {
      ghost var insert := toDb.prepared.value;
      ghost var refused := toDb.db.refusedBatches;
      var buffer: seq<Row> := [];
      var i := 0;
      var k := 0;
      while k < |rows|
        invariant 0 <= i <= k <= |rows| && i < BulkRows
        invariant buffer == rows[k - i..k]
        invariant (k - i) % BulkRows == 0
        invariant toDb.active && toDb.prepared == old(toDb.prepared)
        invariant AllAccepted(Batches(rows[..k - i]), insert, refused)
        invariant toDb.trace == old(toDb.trace) + BatchEvents(Batches(rows[..k - i]))
      {
        buffer := buffer + [rows[k]];
        i := i + 1;
        k := k + 1;
        assert buffer == rows[k - i..k];
        if i == BulkRows {
          ghost var before := toDb.trace;
          ok := BulkInsert(buffer);
          assert toDb.trace == before + [ExecutedMany(rows[k - BulkRows..k])];
          FlushStep(rows, k);
          AppendAssoc(old(toDb.trace), BatchEvents(Batches(rows[..k - BulkRows])), [ExecutedMany(rows[k - BulkRows..k])]);
          if !ok {
            RefusedFlush(rows, k, insert, refused);
            return;
          }
          AcceptedFlush(rows, k, insert, refused);
          i := 0;
          buffer := [];
        }
      }
      assert buffer == rows[|rows| - i..];
      ok := BulkInsert(buffer);
      FinishStep(rows, i, insert, refused);
    }

    /** The select, the prepared insert, the transfer loop and the commit. */
    method Transfer(sql: string) returns (outcome: Outcome<CloneError>)
      requires fromDb != toDb && fromDb.active && toDb.active && toObj.owner.Some? && toObj.name.Some?
      modifies fromDb, toDb
      ensures fromDb.active && toDb.active
      ensures var p := TransferSpec(fromDb.db, toDb.db, toObj.Value(), sql);
              && outcome == p.outcome
              && fromDb.trace == old(fromDb.trace) + p.source
              && toDb.trace == old(toDb.trace) + p.target
      ensures fromDb.prepared == old(fromDb.prepared)
      ensures toDb.prepared == PreparedAfter(fromDb.db, toDb.db, toObj.Value(), sql, old(toDb.prepared))
    {
      var result := fromDb.Query(sql);
      if result.None? {
        return Fail(DatabaseError(sql));
      }
      outcome := InsertRows(InsertFor(toObj.Value(), result.value), result.value.rows);
    }

    /** The insert is prepared, the rows are sent in batches, and the target commits. */
    method InsertRows(insert: string, rows: seq<Row>) returns (outcome: Outcome<CloneError>)
      requires toDb.active
      modifies toDb
      ensures toDb.active
      ensures var p := InsertSpec(toDb.db, insert, rows);
              outcome == p.outcome && toDb.trace == old(toDb.trace) + p.target
      ensures toDb.prepared == if insert in toDb.db.rejects then old(toDb.prepared) else Some(insert)
    {
      var ok := toDb.Prepare(insert);
      if !ok {
        return Fail(DatabaseError(insert));
      }
      ghost var prepared := toDb.trace;
      ok := StreamRows(rows);
      if !ok {
        AppendAssoc(old(toDb.trace), [Prepared(insert)], BatchEvents(SentBatches(Batches(rows), insert, toDb.db.refusedBatches)));
        return Fail(DatabaseError(insert));
      }
      ok := toDb.Commit();
      outcome := if ok then Pass else Fail(CommitFailed);
    }

    /** From the select onwards (the part of `clone` after the target exists). */
    method Load() returns (outcome: Outcome<CloneError>)
      requires Valid() && fromDb.active && toDb.active && fromObj.owner.Some? && toObj.owner.Some?
      modifies this, fromDb, toDb
      ensures Valid() && fromDb.active && toDb.active
      ensures var run := LoadSpec(fromDb.db, toDb.db, fromObj.Value(), toObj.Value(), old(select));
              && outcome == run.outcome && select == run.select
              && fromDb.trace == old(fromDb.trace) + run.source
              && toDb.trace == old(toDb.trace) + run.target
      ensures fromDb.prepared == old(fromDb.prepared)
      ensures toDb.prepared ==
                if TruncateRefused(toDb.db, toObj.Value())
                then old(toDb.prepared)
                else PreparedAfter(fromDb.db, toDb.db, toObj.Value(), select.value, old(toDb.prepared))
    {
      if select.None? {
        select := Some(DefaultSelect(fromObj.Value()));
      }
      var sql := select.value;
      ghost var p := TransferSpec(fromDb.db, toDb.db, toObj.Value(), sql);
      ghost var truncated := TruncateEvents(toObj.Value());
      var ok := TruncateTarget();
      if !ok {
        return Fail(DatabaseError(TruncateStatement(toObj.Value())));
      }
      outcome := Transfer(sql);
      AppendAssoc(old(toDb.trace), truncated, p.target);
    }

    /** The truncate of the target, issued only when its `truncate` option is set. */
    method TruncateTarget() returns (ok: bool)
      requires toDb.active && toObj.owner.Some? && toObj.name.Some? && HasOptionKeys(toObj.opts)
      modifies toDb
      ensures toDb.active && toDb.prepared == old(toDb.prepared)
      ensures toDb.trace == old(toDb.trace) + TruncateEvents(toObj.Value())
      ensures ok <==> !TruncateRefused(toDb.db, toObj.Value())
    {
      ok := true;
      if Truthy(toObj.opts[TruncateKey]) {
        ok := toDb.Execute(TruncateStatement(toObj.Value()));
      }
    }

    /** The existence check and, where allowed, the creation of the target from the source's DDL. */
    method MakeTarget() returns (outcome: Outcome<CloneError>)
      requires Valid() && fromDb.active && toDb.active && fromObj.owner.Some? && toObj.owner.Some?
      modifies fromDb, toDb, fromObj
      ensures Valid() && fromDb.active && toDb.active && fromObj.owner.Some? && toObj.owner.Some?
      ensures var m := MakeTargetSpec(fromDb.db, toDb.db, toDb.connectionString, old(fromObj.Value()),
                                      old(toObj.Value()), fromObj == toObj);
              && outcome == m.outcome
              && fromDb.trace == old(fromDb.trace) + m.source
              && toDb.trace == old(toDb.trace) + m.target
              && fromObj.Value() == m.from && toObj.Value() == m.to
      ensures fromDb.prepared == old(fromDb.prepared) && toDb.prepared == old(toDb.prepared)
    {
      var found := toDb.ObjectExists(toObj);
      if found {
        return Pass;
      }
      if !Truthy(toObj.opts[CreateKey]) {
        return Fail(TargetMissing(toObj.Value(), toDb.connectionString));
      }
      fromObj.opts := fromObj.opts[TablespaceKey := toObj.opts[TablespaceKey]];
      var ddl := fromDb.Ddl(fromObj);
      if ddl.None? {
        return Fail(DatabaseError(DdlQuery));
      }
      var create := DdlTarget(ddl.value, fromObj.Value(), toObj.Value());
      var ok := toDb.Execute(create);
      outcome := if ok then Pass else Fail(DatabaseError(create));
    }

    /** `clone`. */
    method Clone() returns (outcome: Outcome<CloneError>)
      requires Valid()
      modifies this, fromDb, toDb, fromObj, toObj
      ensures Valid() && fromDb.active && toDb.active
      ensures var run := CloneSpec(old(fromDb.State()), old(toDb.State()), old(fromObj.Value()),
                                   old(toObj.Value()), fromObj == toObj, old(select));
              && outcome == run.outcome
              && fromDb.trace == old(fromDb.trace) + run.source
              && toDb.trace == old(toDb.trace) + run.target
              && fromObj.Value() == run.from && toObj.Value() == run.to
              && select == run.select
      ensures fromDb.prepared == if old(fromDb.active) then old(fromDb.prepared) else None
      ensures var c := ConnectSpec(old(fromDb.State()), old(toDb.State()), old(fromObj.Value()),
                                   old(toObj.Value()), fromObj == toObj);
              var m := MakeTargetSpec(fromDb.db, toDb.db, toDb.connectionString, c.from, c.to, fromObj == toObj);
              var prior := if old(toDb.active) then old(toDb.prepared) else None;
              toDb.prepared ==
                if m.outcome.Fail? || TruncateRefused(toDb.db, m.to)
                then prior
                else PreparedAfter(fromDb.db, toDb.db, m.to, select.value, prior)
    {
      ghost var c := ConnectSpec(fromDb.State(), toDb.State(), fromObj.Value(), toObj.Value(), fromObj == toObj);
      Connect();
      ghost var m := MakeTargetSpec(fromDb.db, toDb.db, toDb.connectionString, c.from, c.to, fromObj == toObj);
      outcome := MakeTarget();
      AppendAssoc(old(fromDb.trace), c.source, m.source);
      AppendAssoc(old(toDb.trace), c.target, m.target);
      if outcome.Fail? {
        return;
      }
      ghost var load := LoadSpec(fromDb.db, toDb.db, m.from, m.to, select);
      outcome := Load();
      AppendAssoc(old(fromDb.trace), c.source + m.source, load.source);
      AppendAssoc(old(toDb.trace), c.target + m.target, load.target);
    }
  }
}
