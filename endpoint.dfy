/**
 * A database connection (`Connection`). The database behind it is an
 * abstract value: its catalog, the DDL its metadata service would return,
 * the rows each query would yield, the statements it would refuse, the
 * batches it would refuse to insert and whether it refuses to commit. The
 * connection records every call it makes on its cursor in a ghost trace.
 */
module Endpoint {
  import opened Wrappers
  import opened Text
  import opened Descriptors
  import opened Transfer

  /** One row of the object catalog (`all_objects`): names as the catalog stores them. */
  datatype CatalogEntry = CatalogEntry(owner: string, name: string, objectType: string)

  /** The column count and the rows a query yields. */
  datatype QueryResult = QueryResult(columns: nat, rows: seq<Row>)

  /** What the metadata service knows of one object: its type, name and owner, upper-cased. */
  datatype ObjectKey = ObjectKey(objectType: string, name: string, owner: string)

  /** The database as the tool observes it. */
  datatype Database = Database(
    sessionUser: string,
    catalog: seq<CatalogEntry>,
    definitions: map<ObjectKey, string>,
    results: map<string, QueryResult>,
    /** Statements whose execution or preparation raises. */
    rejects: set<string>,
    /** (prepared statement, batch) pairs whose `executemany` raises. */
    refusedBatches: set<(string, seq<Row>)>,
    /** Whether `commit` raises. */
    commitRefused: bool)

  /** The values bound to `:owner`, `:name` and `:type`. */
  datatype Binds = Binds(owner: Option<string>, name: Option<string>, objectType: string)

  /** A call made on a connection's cursor. */
  datatype Event =
    | Opened
    | Closed
    | Executed(sql: string, binds: Option<Binds>)
    | Prepared(sql: string)
    | ExecutedMany(batch: seq<Row>)
    | Committed

  /** The existence query (whitespace of the statement text normalised). */
  const ExistsQuery: string :=
    "SELECT 1 FROM all_objects WHERE owner = upper(:owner) AND object_name = upper(:name) AND object_type = upper(:type)"

  /** The DDL query (whitespace of the statement text normalised). */
  const DdlQuery: string :=
    "SELECT dbms_metadata.get_ddl(upper(:type), upper(:name), upper(:owner)) FROM dual"

  /** The query naming the session's schema. */
  const OwnerQuery: string := "select lower(user) from dual"

  function BindsOf(d: Descriptor): Binds
  {
    Binds(d.owner, d.name, d.objectType)
  }

  /** A bound value the database sees as NULL: unset, or the empty string. */
  predicate IsNull(id: Option<string>)
  {
    id.None? || id.value == ""
  }

  /**
   * A catalog row matches the descriptor when owner, name and type equal the
   * upper-cased bound values; a NULL bind matches nothing.
   */
  predicate Fits(e: CatalogEntry, d: Descriptor)
  {
    && !IsNull(d.owner) && !IsNull(d.name) && d.objectType != ""
    && e.owner == Upper(d.owner.value)
    && e.name == Upper(d.name.value)
    && e.objectType == Upper(d.objectType)
  }

  /** The rows the existence query returns, in catalog order. */
  function Matches(catalog: seq<CatalogEntry>, d: Descriptor): (m: seq<CatalogEntry>)
    ensures |m| <= |catalog|
    ensures forall e :: e in m <==> e in catalog && Fits(e, d)
    decreases |catalog|
  {
    if catalog == [] then []
    else
      var rest := Matches(catalog[..|catalog| - 1], d);
      var last := catalog[|catalog| - 1];
      assert catalog == catalog[..|catalog| - 1] + [last];
      if Fits(last, d) then rest + [last] else rest
  }

  /** `object_exists`: the query returns exactly one row. */
  predicate Found(catalog: seq<CatalogEntry>, d: Descriptor)
  {
    |Matches(catalog, d)| == 1
  }

  /** Exactly one catalog position fits. */
  ghost predicate UniqueFit(catalog: seq<CatalogEntry>, d: Descriptor)
  {
    exists i :: 0 <= i < |catalog| && Fits(catalog[i], d)
      && forall j :: 0 <= j < |catalog| && j != i ==> !Fits(catalog[j], d)
  }

  /** The number of catalog positions that fit. */
  ghost function FitCount(catalog: seq<CatalogEntry>, d: Descriptor): nat
    decreases |catalog|
  {
    if catalog == [] then 0
    else FitCount(catalog[..|catalog| - 1], d) + (if Fits(catalog[|catalog| - 1], d) then 1 else 0)
  }

  lemma {:induction false} MatchesCount(catalog: seq<CatalogEntry>, d: Descriptor)
    ensures |Matches(catalog, d)| == FitCount(catalog, d)
    decreases |catalog|
  {
    if catalog != [] {
      MatchesCount(catalog[..|catalog| - 1], d);
    }
  }

  lemma {:induction false} FitCountZero(catalog: seq<CatalogEntry>, d: Descriptor)
    ensures FitCount(catalog, d) == 0 <==> forall j :: 0 <= j < |catalog| ==> !Fits(catalog[j], d)
    decreases |catalog|
  {
    if catalog != [] {
      var init := catalog[..|catalog| - 1];
      FitCountZero(init, d);
      if FitCount(catalog, d) == 0 {
        forall j | 0 <= j < |catalog| ensures !Fits(catalog[j], d) {
          if j < |init| { assert catalog[j] == init[j]; }
        }
      } else if Fits(catalog[|catalog| - 1], d) {
      } else {
        var j :| 0 <= j < |init| && Fits(init[j], d);
        assert catalog[j] == init[j];
      }
    }
  }

  /** With a fitting last row, uniqueness means nothing before it fits. */
  lemma UniqueFitLast(catalog: seq<CatalogEntry>, d: Descriptor)
    requires catalog != [] && Fits(catalog[|catalog| - 1], d)
    ensures UniqueFit(catalog, d) <==>
            forall j :: 0 <= j < |catalog| - 1 ==> !Fits(catalog[j], d)
  {
    var n := |catalog| - 1;
    var init := catalog[..n];
    if UniqueFit(catalog, d) {
      var i :| 0 <= i < |catalog| && Fits(catalog[i], d)
        && forall j :: 0 <= j < |catalog| && j != i ==> !Fits(catalog[j], d);
      assert i == n;
    }
  }

  /** A last row that does not fit does not affect uniqueness. */
  lemma UniqueFitNotLast(catalog: seq<CatalogEntry>, d: Descriptor)
    requires catalog != [] && !Fits(catalog[|catalog| - 1], d)
    ensures UniqueFit(catalog, d) <==> UniqueFit(catalog[..|catalog| - 1], d)
  {
    var n := |catalog| - 1;
    var init := catalog[..n];
    if UniqueFit(init, d) {
      var i :| 0 <= i < |init| && Fits(init[i], d)
        && forall j :: 0 <= j < |init| && j != i ==> !Fits(init[j], d);
      assert catalog[i] == init[i];
      forall j | 0 <= j < |catalog| && j != i ensures !Fits(catalog[j], d) {
        if j < n { assert catalog[j] == init[j]; }
      }
    }
    if UniqueFit(catalog, d) {
      var i :| 0 <= i < |catalog| && Fits(catalog[i], d)
        && forall j :: 0 <= j < |catalog| && j != i ==> !Fits(catalog[j], d);
      assert init[i] == catalog[i];
      forall j | 0 <= j < |init| && j != i ensures !Fits(init[j], d) {
        assert catalog[j] == init[j];
      }
    }
  }

  /** Exactly one matching row means exactly one catalog position fits. */
  lemma {:induction false} FoundIffUniqueFit(catalog: seq<CatalogEntry>, d: Descriptor)
    ensures Found(catalog, d) <==> UniqueFit(catalog, d)
    decreases |catalog|
  {
    MatchesCount(catalog, d);
    if catalog != [] {
      var init := catalog[..|catalog| - 1];
      MatchesCount(init, d);
      if Fits(catalog[|catalog| - 1], d) {
        FitCountZero(init, d);
        assert forall j :: 0 <= j < |init| ==> init[j] == catalog[j];
        UniqueFitLast(catalog, d);
      } else {
        FoundIffUniqueFit(init, d);
        UniqueFitNotLast(catalog, d);
      }
    }
  }

  /** The existence check compares identifiers case-insensitively. */
  lemma FoundIgnoresCase(catalog: seq<CatalogEntry>, d: Descriptor, e: Descriptor)
    requires d.owner.Some? <==> e.owner.Some?
    requires d.name.Some? <==> e.name.Some?
    requires d.owner.Some? ==> Upper(d.owner.value) == Upper(e.owner.value)
    requires d.name.Some? ==> Upper(d.name.value) == Upper(e.name.value)
    requires Upper(d.objectType) == Upper(e.objectType)
    ensures Found(catalog, d) <==> Found(catalog, e)
  {
    FoundIffUniqueFit(catalog, d);
    FoundIffUniqueFit(catalog, e);
    assert forall c :: Fits(c, d) <==> Fits(c, e);
  }

  /** An object whose owner, name or type is unset or empty (NULL to the database) is never found. */
  lemma UnsetNeverFound(catalog: seq<CatalogEntry>, d: Descriptor)
    requires IsNull(d.owner) || IsNull(d.name) || d.objectType == ""
    ensures !Found(catalog, d)
  {
    MatchesCount(catalog, d);
    FitCountZero(catalog, d);
  }

  /** The DDL the metadata service returns for an object, if it knows the object (never for a NULL bind). */
  function DdlOf(db: Database, d: Descriptor): Option<string>
  {
    if !IsNull(d.owner) && !IsNull(d.name) && d.objectType != "" then
      var key := ObjectKey(Upper(d.objectType), Upper(d.name.value), Upper(d.owner.value));
      if key in db.definitions then Some(db.definitions[key]) else None
    else None
  }

  /** The externally visible state of an endpoint. */
  datatype EndpointState = EndpointState(connectionString: string, db: Database, active: bool)

  /** A connection to one database, opened lazily and closed idempotently. */
  class Connection {
    const connectionString: string
    const db: Database
    var active: bool
    /** The statement last prepared on the cursor. */
    var prepared: Option<string>
    /** Every call made on the cursor, in order. */
    ghost var trace: seq<Event>

    function State(): EndpointState
      reads this
    {
      EndpointState(connectionString, db, active)
    }

    constructor (connectionString: string, db: Database)
      ensures this.connectionString == connectionString && this.db == db
      ensures !active && prepared.None? && trace == []
    {
      this.connectionString := connectionString;
      this.db := db;
      active := false;
      prepared := None;
      trace := [];
    }

    /** `connect`: opens a session and a fresh cursor unless already active. */
    method Connect()
      modifies this
      ensures active
      ensures old(active) ==> prepared == old(prepared) && trace == old(trace)
      ensures !old(active) ==> prepared.None? && trace == old(trace) + [Opened]
    {
      if !active {
        prepared := None;
        trace := trace + [Opened];
        active := true;
      }
    }

    /** `close`: closes cursor and session if active. */
    method Close()
      modifies this
      ensures !active && prepared == old(prepared)
      ensures trace == if old(active) then old(trace) + [Closed] else old(trace)
    {
      if active {
        trace := trace + [Closed];
        active := false;
      }
    }

    /** `object_exists`. */
    method ObjectExists(obj: DBObject) returns (found: bool)
      requires active
      modifies this
      ensures active && prepared == old(prepared)
      ensures trace == old(trace) + [Executed(ExistsQuery, Some(BindsOf(obj.Value())))]
      ensures found <==> Found(db.catalog, obj.Value())
    {
      trace := trace + [Executed(ExistsQuery, Some(BindsOf(obj.Value())))];
      var rows := Matches(db.catalog, obj.Value());
      found := |rows| == 1;
    }

    /** `ddl`: the object's DDL, or `None` where the metadata service raises. */
    method Ddl(obj: DBObject) returns (text: Option<string>)
      requires active
      modifies this
      ensures active && prepared == old(prepared)
      ensures trace == old(trace) + [Executed(DdlQuery, Some(BindsOf(obj.Value())))]
      ensures text == DdlOf(db, obj.Value())
    {
      trace := trace + [Executed(DdlQuery, Some(BindsOf(obj.Value())))];
      text := DdlOf(db, obj.Value());
    }

    /** `execute` of a statement; `ok` is false where the database raises. */
    method Execute(sql: string) returns (ok: bool)
      requires active
      modifies this
      ensures active && prepared == old(prepared)
      ensures trace == old(trace) + [Executed(sql, None)]
      ensures ok <==> sql !in db.rejects
    {
      trace := trace + [Executed(sql, None)];
      ok := sql !in db.rejects;
    }

    /** `execute` of a query whose rows are then read; `None` where the database raises. */
    method Query(sql: string) returns (result: Option<QueryResult>)
      requires active
      modifies this
      ensures active && prepared == old(prepared)
      ensures trace == old(trace) + [Executed(sql, None)]
      ensures result.Some? <==> sql in db.results
      ensures result.Some? ==> result.value == db.results[sql]
    {
      trace := trace + [Executed(sql, None)];
      result := if sql in db.results then Some(db.results[sql]) else None;
    }

    /** The session's schema, as `select lower(user) from dual` yields it. */
    method SessionOwner() returns (owner: string)
      requires active
      modifies this
      ensures active && prepared == old(prepared)
      ensures trace == old(trace) + [Executed(OwnerQuery, None)]
      ensures owner == Lower(db.sessionUser)
    {
      trace := trace + [Executed(OwnerQuery, None)];
      owner := Lower(db.sessionUser);
    }

    /** `cursor.prepare`; `ok` is false where the database raises, and then nothing is prepared anew. */
    method Prepare(sql: string) returns (ok: bool)
      requires active
      modifies this
      ensures active
      ensures trace == old(trace) + [Prepared(sql)]
      ensures ok <==> sql !in db.rejects
      ensures prepared == if ok then Some(sql) else old(prepared)
    {
      trace := trace + [Prepared(sql)];
      ok := sql !in db.rejects;
      if ok {
        prepared := Some(sql);
      }
    }

    /** `cursor.executemany(None, batch)` on the prepared statement; `ok` is false where it raises. */
    method ExecuteMany(batch: seq<Row>) returns (ok: bool)
      requires active && prepared.Some?
      modifies this
      ensures active && prepared == old(prepared)
      ensures trace == old(trace) + [ExecutedMany(batch)]
      ensures ok <==> (prepared.value, batch) !in db.refusedBatches
    {
      trace := trace + [ExecutedMany(batch)];
      ok := (prepared.value, batch) !in db.refusedBatches;
    }

    /** `commit`; `ok` is false where the database raises. */
    method Commit() returns (ok: bool)
      requires active
      modifies this
      ensures active && prepared == old(prepared)
      ensures trace == old(trace) + [Committed]
      ensures ok <==> !db.commitRefused
    {
      trace := trace + [Committed];
      ok := !db.commitRefused;
    }
  }
}
