/** The table builder: a table name, a column list and a data frame, set
    one call at a time and turned into a new table by `execute`. The builder
    owns a column builder made from the same connector. */
module TableBuilder {
  import opened Wrappers
  import opened Errors
  import opened Relational
  import opened Statements
  import Connector
  import ColumnBuilder
  import SqlEngine

  datatype TblBuilder = TblBuilder(
    conn: Connector.Connector,
    columnBuilder: ColumnBuilder.ColBuilder,
    name: string,
    columns: Option<seq<ColumnBuilder.Column>>,   // Python allows `None` here
    df: Option<seq<Row>>)

  /** The state the constructor and `reset_builder` leave. */
  predicate IsReset(tb: TblBuilder) {
    tb.name == "" && tb.columns == Some([]) && tb.df.None?
  }

  /** The constructor: refused for a missing or disconnected connector, the
      same guard the column builder it creates applies. */
  function New(conn: Option<Connector.Connector>): (r: Result<TblBuilder, Error>)
    ensures r.Success? <==> conn.Some? && Connector.IsConnected(conn.value)
    ensures r.Success? <==> ColumnBuilder.New(conn).Success?
    ensures r.Failure? ==> r.error == ConnectionNotDefined
    ensures r.Success? ==> IsReset(r.value) && ColumnBuilder.IsClean(r.value.columnBuilder)
  {
    if conn.None? then Failure(ConnectionNotDefined)
    else if !Connector.IsConnected(conn.value) then Failure(ConnectionNotDefined)
    else
      match ColumnBuilder.New(conn)
      case Failure(e) => Failure(e)
      case Success(cb) => Success(TblBuilder(conn.value, cb, "", Some([]), None))
  }

  /** `reset_builder`: no name, an empty column list, no data frame; the
      connector and the column builder are kept. */
  function Reset(tb: TblBuilder): (r: TblBuilder)
    ensures IsReset(r) && r.conn == tb.conn && r.columnBuilder == tb.columnBuilder
  {
    tb.(name := "", columns := Some([]), df := None)
  }

  /** `create_table(name)`: resets, then records the name. */
  function CreateTable(tb: TblBuilder, name: string): (r: TblBuilder)
    ensures r.name == name && r.columns == Some([]) && r.df.None?
    ensures Reset(r) == Reset(tb)
  {
    Reset(tb).(name := name)
  }

  /** `add_columns(columns)`: replaces the whole column list. */
  function AddColumns(tb: TblBuilder, columns: Option<seq<ColumnBuilder.Column>>): (r: TblBuilder)
    ensures r.columns == columns && r.(columns := tb.columns) == tb
  {
    tb.(columns := columns)
  }

  /** `execute`: refused for a `None` column list, then for an empty name;
      otherwise a new, empty table of that name is created in the database. */
  function Execute(tb: TblBuilder, db: Db): (r: Result<Db, Error>)
    ensures tb.columns.None? ==> r == Failure(TableColumnsNotDefined)
    ensures tb.columns.Some? && tb.name == "" ==> r == Failure(TableNameNotDefine)
    ensures r.Success? <==> tb.columns.Some? && tb.name != "" && tb.name !in db
    ensures r.Success? ==>
              r.value.Keys == db.Keys + {tb.name} && r.value[tb.name] == []
              && forall t :: t in db ==> r.value[t] == db[t]
  {
    if tb.columns.None? then Failure(TableColumnsNotDefined)
    else if tb.name == "" then Failure(TableNameNotDefine)
    else SqlEngine.CreateTable(db, tb.name)
  }

  /** `create_table` discards columns added before it: only the columns added
      after naming the table reach `execute`. */
  lemma CreateTableDiscardsColumns(tb: TblBuilder, name: string, cols: seq<ColumnBuilder.Column>)
    ensures CreateTable(AddColumns(tb, Some(cols)), name).columns == Some([])
    ensures AddColumns(CreateTable(tb, name), Some(cols)).columns == Some(cols)
    ensures AddColumns(AddColumns(tb, Some(cols)), Some([])).columns == Some([])
  {
  }

  /** The builder calls a client can make after construction. */
  datatype Call = ResetCall | CreateTableCall(name: string) | AddColumnsCall(columns: Option<seq<ColumnBuilder.Column>>)

  function Apply(tb: TblBuilder, calls: seq<Call>): TblBuilder
    decreases |calls|
  {
    if |calls| == 0 then tb
    else
      var tb1 := match calls[0]
                 case ResetCall => Reset(tb)
                 case CreateTableCall(n) => CreateTable(tb, n)
                 case AddColumnsCall(cs) => AddColumns(tb, cs);
      Apply(tb1, calls[1..])
  }

  /** Only an explicit `add_columns(None)` can make the column list `None`:
      from a builder holding a list, no sequence of calls without one reaches
      the `TableColumnsNotDefined` error. */
  lemma {:induction false} ColumnsNeverNone(tb: TblBuilder, calls: seq<Call>)
    requires tb.columns.Some?
    requires forall i :: 0 <= i < |calls| ==> calls[i] != AddColumnsCall(None)
    ensures Apply(tb, calls).columns.Some?
    ensures forall db :: Execute(Apply(tb, calls), db) != Failure(TableColumnsNotDefined)
    decreases |calls|
  {
    if |calls| > 0 {
      var tb1 := match calls[0]
                 case ResetCall => Reset(tb)
                 case CreateTableCall(n) => CreateTable(tb, n)
                 case AddColumnsCall(cs) => AddColumns(tb, cs);
      assert calls[0] != AddColumnsCall(None);
      assert tb1.columns.Some?;
      ColumnsNeverNone(tb1, calls[1..]);
    }
  }

  /** Naming a fresh table and executing creates it empty, with every other
      table unchanged; executing twice refuses the second time. */
  lemma CreateThenExecute(tb: TblBuilder, db: Db, name: string, cols: seq<ColumnBuilder.Column>)
    requires name != "" && name !in db
    ensures var b := AddColumns(CreateTable(tb, name), Some(cols));
            Execute(b, db) == Success(db[name := []])
            && Execute(b, Execute(b, db).value) == Failure(TableAlreadyInDatabase(name))
  {
  }
}
