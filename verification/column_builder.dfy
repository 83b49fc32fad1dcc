/** The column builder: a name, an optional type and three flags, set one
    call at a time and turned into a column by `build`. A column's kind is
    decided by the flags alone: auto primary key first, then auto timestamp,
    then a plain column of the type set (a string when none was). */
module ColumnBuilder {
  import opened Wrappers
  import opened Errors
  import opened Relational
  import Connector

  datatype ColBuilder = ColBuilder(
    conn: Connector.Connector,
    name: string,
    dbType: Option<DbType>,
    isPk: bool,
    isAutoPk: bool,
    isAutoTimestamp: bool)

  /** The columns the builder hands out. The auto columns are whatever the
      connector's dialect declares for that name. */
  datatype Column =
    | AutoPkColumn(name: string)
    | AutoTimestampColumn(name: string)
    | PlainColumn(name: string, colType: DbType, primaryKey: bool)
    | LiteralColumn(text: string, colType: DbType, labelName: string)

  /** The state the constructor and `clean` leave: no name, no type, no flag. */
  predicate IsClean(b: ColBuilder) {
    b.name == "" && b.dbType.None? && !b.isPk && !b.isAutoPk && !b.isAutoTimestamp
  }

  /** The constructor: refused for a missing (`None`) or disconnected connector. */
  function New(conn: Option<Connector.Connector>): (r: Result<ColBuilder, Error>)
    ensures r.Success? <==> conn.Some? && Connector.IsConnected(conn.value)
    ensures r.Failure? ==> r.error == ConnectionNotDefined
    ensures r.Success? ==> IsClean(r.value) && r.value.conn == conn.value
  {
    if conn.None? then Failure(ConnectionNotDefined)
    else if !Connector.IsConnected(conn.value) then Failure(ConnectionNotDefined)
    else Success(ColBuilder(conn.value, "", None, false, false, false))
  }

  function Clean(b: ColBuilder): (r: ColBuilder)
    ensures IsClean(r) && r.conn == b.conn
  {
    b.(name := "", dbType := None, isPk := false, isAutoPk := false, isAutoTimestamp := false)
  }

  /** `clean` restores exactly what the constructor set up, and forgets
      everything an earlier column left behind. */
  lemma CleanIsConstructor(c: Connector.Connector, b: ColBuilder)
    requires Connector.IsConnected(c) && b.conn == c
    ensures New(Some(c)) == Success(Clean(b))
  {
  }

  /** `create_column(name)`: cleans, then records the name. */
  function CreateColumn(b: ColBuilder, name: string): (r: ColBuilder)
    ensures r.name == name && r.conn == b.conn
    ensures r.dbType.None? && !r.isPk && !r.isAutoPk && !r.isAutoTimestamp
  {
    Clean(b).(name := name)
  }

  /** `set_type(type, size)`: refused before a name; the type comes from the
      connector, which refuses unknown type names. */
  function SetType(b: ColBuilder, typeName: string, size: int): (r: Result<ColBuilder, Error>)
    ensures b.name == "" ==> r == Failure(ColumnNameNotDefine)
    ensures r.Success? <==> b.name != "" && Connector.GetColumnType(typeName, size).Success?
    ensures r.Success? ==> r.value == b.(dbType := Some(Connector.GetColumnType(typeName, size).value))
  {
    if b.name == "" then Failure(ColumnNameNotDefine)
    else
      match Connector.GetColumnType(typeName, size)
      case Failure(e) => Failure(e)
      case Success(t) => Success(b.(dbType := Some(t)))
  }

  /** `is_primary_key(flag)`: refused before a name. */
  function IsPrimaryKey(b: ColBuilder, flag: bool): (r: Result<ColBuilder, Error>)
    ensures r.Success? <==> b.name != ""
    ensures r.Failure? ==> r.error == ColumnNameNotDefine
    ensures r.Success? ==> r.value.isPk == flag && r.value.(isPk := b.isPk) == b
  {
    if b.name == "" then Failure(ColumnNameNotDefine) else Success(b.(isPk := flag))
  }

  /** `is_auto_primary_key(flag)`: refused before a name. */
  function IsAutoPrimaryKey(b: ColBuilder, flag: bool): (r: Result<ColBuilder, Error>)
    ensures r.Success? <==> b.name != ""
    ensures r.Failure? ==> r.error == ColumnNameNotDefine
    ensures r.Success? ==> r.value.isAutoPk == flag && r.value.(isAutoPk := b.isAutoPk) == b
  {
    if b.name == "" then Failure(ColumnNameNotDefine) else Success(b.(isAutoPk := flag))
  }

  /** `is_auto_timestamp(flag)`: refused before a name. */
  function IsAutoTimestamp(b: ColBuilder, flag: bool): (r: Result<ColBuilder, Error>)
    ensures r.Success? <==> b.name != ""
    ensures r.Failure? ==> r.error == ColumnNameNotDefine
    ensures r.Success? ==> r.value.isAutoTimestamp == flag && r.value.(isAutoTimestamp := b.isAutoTimestamp) == b
  {
    if b.name == "" then Failure(ColumnNameNotDefine) else Success(b.(isAutoTimestamp := flag))
  }

  /** The private `_create_column`: with no type set it first calls
      `set_type('str')`, which the builder keeps afterwards. */
  function CreatePlain(b: ColBuilder): (r: (ColBuilder, Column))
    requires b.name != ""
    ensures r.0.dbType.Some? && r.1 == PlainColumn(b.name, r.0.dbType.value, b.isPk)
    ensures b.dbType.None? ==> r.0 == b.(dbType := Some(String(None)))
    ensures b.dbType.Some? ==> r.0 == b
  {
    if b.dbType.None? then
      var b1 := SetType(b, "str", 0).value;
      (b1, PlainColumn(b.name, b1.dbType.value, b.isPk))
    else (b, PlainColumn(b.name, b.dbType.value, b.isPk))
  }

  /** `build`: the builder's state afterwards, and the column. */
  function Build(b: ColBuilder): (r: Result<(ColBuilder, Column), Error>)
  {
    if b.name == "" then Failure(ColumnNameNotDefine)
    else if b.isAutoPk then Success((b, AutoPkColumn(b.name)))
    else if b.isAutoTimestamp then Success((b, AutoTimestampColumn(b.name)))
    else Success(CreatePlain(b))
  }

  /** The name a built column carries. */
  function ColumnName(c: Column): string {
    match c
    case AutoPkColumn(n) => n
    case AutoTimestampColumn(n) => n
    case PlainColumn(n, _, _) => n
    case LiteralColumn(_, _, n) => n
  }

  /** Build refuses exactly a nameless builder; the column takes the
      builder's name; its kind follows the precedence auto primary key, auto
      timestamp, plain; a plain column's type is the one set, else a string
      of no fixed length; the primary-key flag is used by plain columns only. */
  lemma BuildPrecedence(b: ColBuilder)
    ensures Build(b).Failure? <==> b.name == ""
    ensures Build(b).Failure? ==> Build(b).error == ColumnNameNotDefine
    ensures Build(b).Success? ==> ColumnName(Build(b).value.1) == b.name
    ensures Build(b).Success? ==>
              (Build(b).value.1.AutoPkColumn? <==> b.isAutoPk)
              && (Build(b).value.1.AutoTimestampColumn? <==> !b.isAutoPk && b.isAutoTimestamp)
              && (Build(b).value.1.PlainColumn? <==> !b.isAutoPk && !b.isAutoTimestamp)
    ensures Build(b).Success? && Build(b).value.1.PlainColumn? ==>
              Build(b).value.1.colType == b.dbType.GetOr(String(None)) && Build(b).value.1.primaryKey == b.isPk
  {
  }

  /** Every call chain starting at `create_column(name)` with a non-empty
      name succeeds, whatever the builder held; and the chains of the
      class's usage note yield the columns they describe. */
  lemma UsageChains(b: ColBuilder, name: string, size: nat)
    requires name != ""
    ensures var b1 := SetType(CreateColumn(b, name), "str", size).value;
            Build(IsPrimaryKey(b1, true).value).value.1 == PlainColumn(name, String(if size > 0 then Some(size) else None), true)
    ensures Build(IsAutoPrimaryKey(CreateColumn(b, name), true).value).value.1 == AutoPkColumn(name)
    ensures Build(IsAutoTimestamp(CreateColumn(b, name), true).value).value.1 == AutoTimestampColumn(name)
    ensures Build(CreateColumn(b, name)).value.1 == PlainColumn(name, String(None), false)
  {
  }

  /** `create_column` forgets the flags of the previous column: an auto
      primary key built before does not make the next column one. */
  lemma CreateColumnForgets(b: ColBuilder, first: string, second: string)
    requires first != "" && second != ""
    ensures var b1 := IsAutoPrimaryKey(CreateColumn(b, first), true).value;
            Build(b1).value.1 == AutoPkColumn(first)
            && Build(CreateColumn(Build(b1).value.0, second)).value.1 == PlainColumn(second, String(None), false)
  {
  }

  /** `create_literal_column(value, label)`: the value between single quotes,
      as a string-typed column labelled with the given name. */
  function CreateLiteralColumn(b: ColBuilder, value: string, labelName: string): (r: Column)
    ensures r.LiteralColumn? && r.labelName == labelName
    ensures Connector.GetColumnType("str", 0) == Success(r.colType)
    ensures |r.text| == |value| + 2 && r.text[0] == '\'' && r.text[|r.text| - 1] == '\''
    ensures r.text[1..|r.text| - 1] == value
  {
    LiteralColumn("'" + value + "'", Connector.GetColumnType("str", 0).value, labelName)
  }

  /** The quotes are not escaped: a value holding a quote yields a literal
      whose text closes early. */
  lemma LiteralNotEscaped(b: ColBuilder, labelName: string)
    ensures CreateLiteralColumn(b, "a'b", labelName).text == "'a'b'"
    ensures CreateLiteralColumn(b, "a'b", labelName).text[..3] == "'a'"
  {
  }
}
