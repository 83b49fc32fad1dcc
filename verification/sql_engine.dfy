/** The database engine wrapper of the exact matcher: a connection string,
    an engine once connected, an optional session, the column layout of the
    tables it creates, and the session handling of its count helpers. */
module SqlEngine {
  import opened Wrappers
  import opened Errors
  import opened Relational
  import opened Statements
  import SU = SqlUtility

  /** Only whether an engine and a session exist matters to the logic. */
  datatype Engine = Engine(connString: string, connected: bool, session: bool)

  function New(connString: string): (e: Engine)
    ensures !IsConnected(e) && !e.session && e.connString == connString
  {
    Engine(connString, false, false)
  }

  /** `connect` (creating the engine is not expected to fail). */
  function Connect(e: Engine): (r: Engine)
    ensures IsConnected(r) && r.session == e.session && r.connString == e.connString
  {
    e.(connected := true)
  }

  function IsConnected(e: Engine): bool {
    e.connected
  }

  /** `create_session`: a no-op when a session exists. */
  function CreateSession(e: Engine): (r: Engine)
    ensures r.session && r.connected == e.connected && r.connString == e.connString
    ensures e.session ==> r == e
  {
    e.(session := true)
  }

  /** `close_session`: a no-op without a session. */
  function CloseSession(e: Engine): (r: Engine)
    ensures !r.session && r.connected == e.connected && r.connString == e.connString
    ensures !e.session ==> r == e
  {
    e.(session := false)
  }

  /** `disconnect`: closes any session and drops the engine. */
  function Disconnect(e: Engine): (r: Engine)
    ensures !IsConnected(r) && !r.session && r.connString == e.connString
  {
    CloseSession(e).(connected := false)
  }

  /** `change_db_connection`: closes the session, replaces the connection string, reconnects. */
  function ChangeDbConnection(e: Engine, connString: string): (r: Engine)
    ensures IsConnected(r) && !r.session && r.connString == connString
  {
    Connect(CloseSession(e).(connString := connString))
  }

  /** Opening a session twice opens one; closing after opening leaves none. */
  lemma SessionLifecycle(e: Engine)
    ensures CreateSession(CreateSession(e)) == CreateSession(e)
    ensures CloseSession(CreateSession(e)) == e.(session := false)
    ensures IsConnected(Disconnect(Connect(e))) == false
  {
  }

  /** The columns `create_table` declares. */
  datatype ColumnDef =
    | IdxColumn                              // autoincrement integer primary key 'idx'
    | TimestampColumn                        // datetime 'timestamp' defaulting to now
    | PlainColumn(name: string, colType: DbType)

  /** `create_table`'s layout: 'idx' when requested, then 'timestamp' when
      requested, then the named columns paired with their types, as far as
      both lists reach. Without types every column is a string. */
  function CreateTableColumns(names: seq<string>, types: seq<DbType>, addIdx: bool, addTimestamp: bool): (cols: seq<ColumnDef>)
    ensures var used := if |types| == 0 then |names| else if |names| <= |types| then |names| else |types|;
            var lead := (if addIdx then 1 else 0) + (if addTimestamp then 1 else 0);
            && |cols| == lead + used
            && (addIdx ==> cols[0] == IdxColumn)
            && (addTimestamp ==> cols[lead - 1] == TimestampColumn)
            && forall i :: 0 <= i < used ==>
                 cols[lead + i] == PlainColumn(names[i], if |types| == 0 then String(None) else types[i])
  {
    var ts := if |types| == 0 then seq(|names|, _ => String(None)) else types;
    var n := if |names| <= |ts| then |names| else |ts|;
    var plain := seq(n, i requires 0 <= i < n => PlainColumn(names[i], ts[i]));
    (if addIdx then [IdxColumn] else []) + (if addTimestamp then [TimestampColumn] else []) + plain
  }

  /** The names of the declared columns, 'idx' and 'timestamp' included. */
  function ColumnNames(cols: seq<ColumnDef>): (ns: seq<string>)
    ensures |ns| == |cols|
  {
    seq(|cols|, i requires 0 <= i < |cols| =>
      match cols[i]
      case IdxColumn => "idx"
      case TimestampColumn => "timestamp"
      case PlainColumn(n, _) => n)
  }

  /** With no fewer types than names, every name becomes a column, in order,
      after the requested 'idx' and 'timestamp' columns. */
  lemma CreateTableNames(names: seq<string>, types: seq<DbType>, addIdx: bool, addTimestamp: bool)
    requires |types| == 0 || |names| <= |types|
    ensures ColumnNames(CreateTableColumns(names, types, addIdx, addTimestamp)) ==
              (if addIdx then ["idx"] else []) + (if addTimestamp then ["timestamp"] else []) + names
  {
    var cols := CreateTableColumns(names, types, addIdx, addTimestamp);
    var lead := (if addIdx then 1 else 0) + (if addTimestamp then 1 else 0);
    var expected := (if addIdx then ["idx"] else []) + (if addTimestamp then ["timestamp"] else []) + names;
    assert |ColumnNames(cols)| == |expected|;
    forall i | 0 <= i < |expected| ensures ColumnNames(cols)[i] == expected[i] {
      if i >= lead {
        assert cols[i] == cols[lead + (i - lead)];
      }
    }
  }

  /** The count helpers `get_count_by_column` and
      `get_count_by_column_where_literal`: a session is opened for the query
      only if none exists and only that one is closed; a query returning no
      row counts 0. The query's answer is given. */
  function CountWith(e: Engine, answer: Option<nat>): (r: (Engine, nat))
    ensures r.0 == e
    ensures answer.None? ==> r.1 == 0
    ensures answer.Some? ==> r.1 == answer.value
  {
    var temporary := !e.session;
    var e1 := CreateSession(e);
    var e2 := if temporary then CloseSession(e1) else e1;
    (e2, if answer.None? then 0 else answer.value)
  }

  /** `get_count_non_null_by_column` opens a session if none was open, then
      builds its 'not_null' condition with `get_function_where_clause`, which
      raises: every call fails there, before the query, and the session stays
      open. Were a condition returned, `filter_by` would refuse it as a
      positional argument. */
  function CountNonNull(e: Engine): (r: Run<Engine>)
    ensures r.Aborted? && r.error == UnboundWhere
    ensures r.state.session && r.state.connected == e.connected && r.state.connString == e.connString
  {
    var e1 := CreateSession(e);
    match SU.FunctionWhereClause("not_null")
    case Failure(err) => Aborted(e1, err)
    case Success(_) => Aborted(e1, KeywordArgumentsOnly)
  }

  /** Where `insert_row`, `update_where_is_null` and `insert_into_from_select` send their statement. */
  datatype Route = ThroughSession | ThroughEngine

  function DmlRoute(e: Engine): (r: Route)
    ensures r == ThroughSession <==> e.session
  {
    if e.session then ThroughSession else ThroughEngine
  }

  /** `table_exists` */
  predicate TableExists(db: Db, name: string) {
    name in db
  }

  /** `create_table` on the database: a new, empty table; creating a table
      that already exists raises. */
  function CreateTable(db: Db, name: string): (r: Result<Db, Error>)
    ensures r.Success? <==> !TableExists(db, name)
    ensures r.Success? ==>
              && r.value.Keys == db.Keys + {name} && r.value[name] == []
              && forall t :: t in db ==> r.value[t] == db[t]
  {
    if name in db then Failure(TableAlreadyInDatabase(name)) else Success(db[name := []])
  }

  /** `get_table_from_metadata` followed by `drop_table`: reflecting a missing table raises. */
  function DropTable(db: Db, name: string): (r: Result<Db, Error>)
    ensures r.Success? <==> TableExists(db, name)
    ensures r.Success? ==>
              && r.value.Keys == db.Keys - {name}
              && forall t :: t in db && t != name ==> r.value[t] == db[t]
  {
    if name !in db then Failure(UnknownTable(name)) else Success(db - {name})
  }

  /** Dropping a table just created restores the database; creating again a
      table just dropped yields an empty one. */
  lemma CreateDropRoundTrip(db: Db, name: string)
    ensures !TableExists(db, name) ==> DropTable(CreateTable(db, name).value, name) == Success(db)
    ensures TableExists(db, name) ==> CreateTable(DropTable(db, name).value, name) == Success(db[name := []])
  {
    if !TableExists(db, name) {
      assert DropTable(CreateTable(db, name).value, name).value == db;
    } else {
      assert CreateTable(DropTable(db, name).value, name).value == db[name := []];
    }
  }
}
