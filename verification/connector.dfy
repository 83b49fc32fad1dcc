/** The base database connector: a connection string, an engine once
    connected, an optional session of one of two kinds, the mapping of type
    names to column types, and the table operations that need a connection.

    What a concrete connector contributes (whether its connection attributes
    are complete, and the connection string it prepares) is given as input. */
module Connector {
  import opened Wrappers
  import opened Errors
  import opened Relational
  import opened Statements

  datatype SessionKind = NormalSession | ScopedSession

  datatype Connector = Connector(connString: string, engine: bool, session: Option<SessionKind>, showSql: bool)

  /** The constructor: no connection string, engine or session; no echo. */
  function New(): (c: Connector)
    ensures c.connString == "" && !IsConnected(c) && !HasSessionOpen(c) && !c.showSql
  {
    Connector("", false, None, false)
  }

  predicate IsConnected(c: Connector) {
    c.engine
  }

  predicate HasSessionOpen(c: Connector) {
    c.session.Some?
  }

  /** `connect`: refused when the connector is not ready; otherwise the
      prepared string replaces the connection string, and an empty one is
      refused after that replacement. */
  function Connect(c: Connector, ready: bool, prepared: string): (r: Run<Connector>)
    ensures !ready ==> r == Aborted(c, ConnectionAttributesNotDefined)
    ensures ready && prepared == "" ==> r.Aborted? && r.error == ConnectionStringNotDefined && r.state.connString == ""
    ensures r.Completed? <==> ready && prepared != ""
    ensures r.Completed? ==> IsConnected(r.state) && r.state.connString == prepared
    ensures r.Final().session == c.session && r.Final().showSql == c.showSql
  {
    if !ready then Aborted(c, ConnectionAttributesNotDefined)
    else
      var c1 := c.(connString := prepared);
      if prepared == "" then Aborted(c1, ConnectionStringNotDefined)
      else Completed(c1.(engine := true))
  }

  /** `close_session`: refused without a session. */
  function CloseSession(c: Connector): (r: Result<Connector, Error>)
    ensures r.Success? <==> HasSessionOpen(c)
    ensures r.Failure? ==> r.error == NoSessionOpen
    ensures r.Success? ==> !HasSessionOpen(r.value) && r.value.(session := c.session) == c
  {
    if !HasSessionOpen(c) then Failure(NoSessionOpen) else Success(c.(session := None))
  }

  /** `disconnect`: closes an open session, disposes the engine, and empties
      the connection string. */
  function Disconnect(c: Connector): (r: Connector)
    ensures !IsConnected(r) && !HasSessionOpen(r) && r.connString == ""
    ensures r.showSql == c.showSql
  {
    var c1 := if HasSessionOpen(c) then CloseSession(c).value else c;
    var c2 := if IsConnected(c1) then c1.(engine := false) else c1;
    c2.(connString := "")
  }

  /** `create_session(session_type)`: refused when a session is open; the
      kind is 'normal' or 'scoped', any other raises and leaves no session. */
  function CreateSession(c: Connector, sessionType: string): (r: Run<Connector>)
    ensures HasSessionOpen(c) ==> r == Aborted(c, SessionAlreadyExists)
    ensures !HasSessionOpen(c) && sessionType != "normal" && sessionType != "scoped" ==>
              r == Aborted(c, SessionTypeNotSupported) && !HasSessionOpen(r.state)
    ensures r.Completed? <==> !HasSessionOpen(c) && (sessionType == "normal" || sessionType == "scoped")
    ensures r.Completed? ==> r.state.session == Some(if sessionType == "normal" then NormalSession else ScopedSession)
    ensures r.Final().(session := c.session) == c
  {
    if HasSessionOpen(c) then Aborted(c, SessionAlreadyExists)
    else if sessionType == "normal" then Completed(c.(session := Some(NormalSession)))
    else if sessionType == "scoped" then Completed(c.(session := Some(ScopedSession)))
    else Aborted(c, SessionTypeNotSupported)
  }

  /** `commit_changes`: refused without a session; the connector is unchanged. */
  function CommitChanges(c: Connector): (r: Result<Connector, Error>)
    ensures r.Success? <==> HasSessionOpen(c)
    ensures r.Success? ==> r.value == c
    ensures r.Failure? ==> r.error == NoSessionOpen
  {
    if !HasSessionOpen(c) then Failure(NoSessionOpen) else Success(c)
  }

  /** `rollback_changes`: refused without a session; the connector is unchanged. */
  function RollbackChanges(c: Connector): (r: Result<Connector, Error>)
    ensures r.Success? <==> HasSessionOpen(c)
    ensures r.Success? ==> r.value == c
    ensures r.Failure? ==> r.error == NoSessionOpen
  {
    if !HasSessionOpen(c) then Failure(NoSessionOpen) else Success(c)
  }

  /** Opening a session then closing it restores the connector; a second
      opening is refused; after a disconnect nothing remains open. */
  lemma SessionLifecycle(c: Connector, sessionType: string)
    requires !HasSessionOpen(c) && (sessionType == "normal" || sessionType == "scoped")
    ensures CloseSession(CreateSession(c, sessionType).state) == Success(c)
    ensures CreateSession(CreateSession(c, sessionType).state, sessionType).Aborted?
    ensures CloseSession(Disconnect(c)).Failure? && CommitChanges(Disconnect(c)).Failure?
  {
  }

  /** `get_column_type(str_type, size)`: 'str' (sized when `size` > 0),
      'int', 'bool', 'datetime'; any other name raises. */
  function GetColumnType(strType: string, size: int): (r: Result<DbType, Error>)
    ensures r.Success? <==> strType in {"str", "int", "bool", "datetime"}
    ensures r.Failure? ==> r.error == DataTypeNotSupported
    ensures r.Success? && r.value.String? ==> strType == "str" && (r.value.length.Some? <==> size > 0)
  {
    if strType == "str" then Success(String(if size > 0 then Some(size as nat) else None))
    else if strType == "int" then Success(Integer)
    else if strType == "bool" then Success(Boolean)
    else if strType == "datetime" then Success(DateTime)
    else Failure(DataTypeNotSupported)
  }

  /** The name `GetColumnType` maps to a type, and the size it keeps. */
  function ColumnTypeName(t: DbType): string {
    match t
    case String(_) => "str"
    case Integer => "int"
    case Boolean => "bool"
    case DateTime => "datetime"
  }

  /** Every column type is given back by its name (with its size, when it
      has a positive one), and by no other name. */
  lemma GetColumnTypeRoundTrip(t: DbType)
    requires t.String? ==> t.length.None? || t.length.value > 0
    ensures GetColumnType(ColumnTypeName(t), if t.String? && t.length.Some? then t.length.value else 0) == Success(t)
    ensures forall n, size :: GetColumnType(n, size).Success? && GetColumnType(n, size).value == t ==> n == ColumnTypeName(t)
  {
  }

  /** `table_exists`: refused without a connection. */
  function TableExists(c: Connector, db: Db, name: string): (r: Result<bool, Error>)
    ensures r.Success? <==> IsConnected(c)
    ensures r.Failure? ==> r.error == ConnectionNotDefined
    ensures r.Success? ==> (r.value <==> name in db)
  {
    if !IsConnected(c) then Failure(ConnectionNotDefined) else Success(name in db)
  }

  /** `get_table_from_metadata`: refused without a connection; reflecting a
      missing table raises. The table is identified by its name. */
  function GetTableFromMetadata(c: Connector, db: Db, name: string): (r: Result<string, Error>)
    ensures r.Success? <==> IsConnected(c) && name in db
    ensures !IsConnected(c) ==> r == Failure(ConnectionNotDefined)
    ensures r.Success? ==> r.value == name
  {
    if !IsConnected(c) then Failure(ConnectionNotDefined)
    else if name !in db then Failure(UnknownTable(name))
    else Success(name)
  }

  /** `drop_table`: refused without a connection. */
  function DropTable(c: Connector, db: Db, name: string): (r: Result<Db, Error>)
    ensures r.Success? <==> IsConnected(c) && name in db
    ensures !IsConnected(c) ==> r == Failure(ConnectionNotDefined)
    ensures r.Success? ==> r.value.Keys == db.Keys - {name} && forall t :: t in r.value ==> r.value[t] == db[t]
  {
    if !IsConnected(c) then Failure(ConnectionNotDefined)
    else if name !in db then Failure(UnknownTable(name))
    else Success(db - {name})
  }

  /** Once a table is dropped, `table_exists` denies it; without a
      connection every table operation is refused alike. */
  lemma DropThenAbsent(c: Connector, db: Db, name: string)
    ensures DropTable(c, db, name).Success? ==> TableExists(c, DropTable(c, db, name).value, name) == Success(false)
    ensures !IsConnected(c) ==>
              TableExists(c, db, name).Failure? && GetTableFromMetadata(c, db, name).Failure? && DropTable(c, db, name).Failure?
  {
  }
}
