/** The csv-to-database reader: checks the header of a csv file, creates the
    table of the data source, and inserts the converted rows in chunks of a
    given size, inside a session when one was asked for. Any failure in the
    guarded block is reported as a database error, after rolling back the
    session or dropping the table. */
module CsvToDb {
  import opened Wrappers
  import opened Errors
  import opened Relational
  import opened Statements
  import SqlEngine
  import CsvReader

  /** The reader's state: the engine injected, the session flag, and the
      counters of the latest read. */
  datatype Loader = Loader(
    engine: Option<SqlEngine.Engine>,
    useSession: bool,
    totalLines: nat,
    totalAttributes: nat)

  /** What a read leaves behind: the reader and the database. */
  datatype State = State(loader: Loader, db: Db)

  /** The constructor: no engine, no session, counters at zero. */
  function New(): (l: Loader)
    ensures l.engine.None? && !l.useSession && l.totalLines == 0 && l.totalAttributes == 0
  {
    Loader(None, false, 0, 0)
  }

  /** `set_database_engine`: both settings are replaced; the counters stay. */
  function SetDatabaseEngine(l: Loader, e: SqlEngine.Engine, useSession: bool): (r: Loader)
    ensures r.engine == Some(e) && r.useSession == useSession
    ensures r.(engine := l.engine, useSession := l.useSession) == l
  {
    l.(engine := Some(e), useSession := useSession)
  }

  /** The rows of a list of chunks, in order. */
  function Flatten(chunks: seq<seq<Row>>): seq<Row>
    decreases |chunks|
  {
    if |chunks| == 0 then [] else Flatten(chunks[..|chunks| - 1]) + chunks[|chunks| - 1]
  }

  lemma FlattenSnoc(chunks: seq<seq<Row>>, c: seq<Row>)
    ensures Flatten(chunks + [c]) == Flatten(chunks) + c
  {
    assert (chunks + [c])[..|chunks|] == chunks;
  }

  /** How a chunk list covers the rows: nothing lost, nothing empty; with a
      chunk size of at least one every chunk but the last is full, and with a
      smaller one (which the counter never reaches) the rows form one chunk. */
  predicate ChunkedAs(chunks: seq<seq<Row>>, rows: seq<Row>, chunkSize: int) {
    && Flatten(chunks) == rows
    && (forall i :: 0 <= i < |chunks| ==> |chunks[i]| > 0)
    && (chunkSize >= 1 ==> forall i :: 0 <= i < |chunks| ==> |chunks[i]| <= chunkSize)
    && (chunkSize >= 1 ==> forall i :: 0 <= i < |chunks| - 1 ==> |chunks[i]| == chunkSize)
    && (chunkSize < 1 ==> |chunks| == if |rows| == 0 then 0 else 1)
  }

  /** The flush loop of `read_file`: rows gather in a chunk that is flushed
      when its counter reaches the chunk size; what is left is flushed after
      the last row. Returns the flushed chunks and the line counter. */
  method FlushChunks(rows: seq<Row>, chunkSize: int) returns (chunks: seq<seq<Row>>, countLines: nat)
    ensures ChunkedAs(chunks, rows, chunkSize)
    ensures countLines == |rows|
  {
    chunks := [];
    var dataChunk: seq<Row> := [];
    var countChunk := 0;
    countLines := 0;
    for i := 0 to |rows|
      invariant countLines == i && countChunk == |dataChunk|
      invariant Gathering(chunks, dataChunk, rows[..i], chunkSize)
    {
      countChunk := countChunk + 1;
      countLines := countLines + 1;
      GatherRow(chunks, dataChunk, rows[..i], rows[i], chunkSize);
      dataChunk := dataChunk + [rows[i]];
      assert rows[..i + 1] == rows[..i] + [rows[i]];
      if countChunk == chunkSize {
        chunks := chunks + [dataChunk];
        countChunk := 0;
        dataChunk := [];
      }
    }
    assert rows[..|rows|] == rows;
    GatherDone(chunks, dataChunk, rows, chunkSize);
    if countChunk > 0 && |dataChunk| > 0 {
      chunks := chunks + [dataChunk];
    }
  }

  /** The state of the flush loop after the rows `done`: the flushed chunks
      and the pending chunk hold them in order, and every flushed chunk is
      full. */
  predicate Gathering(chunks: seq<seq<Row>>, dataChunk: seq<Row>, done: seq<Row>, chunkSize: int) {
    && Flatten(chunks) + dataChunk == done
    && (forall j :: 0 <= j < |chunks| ==> |chunks[j]| > 0)
    && (chunkSize >= 1 ==> |dataChunk| < chunkSize)
    && (chunkSize >= 1 ==> forall j :: 0 <= j < |chunks| ==> |chunks[j]| == chunkSize)
    && (chunkSize < 1 ==> chunks == [])
  }

  /** One more row: the pending chunk grows, and is flushed when full. */
  lemma GatherRow(chunks: seq<seq<Row>>, dataChunk: seq<Row>, done: seq<Row>, row: Row, chunkSize: int)
    requires Gathering(chunks, dataChunk, done, chunkSize)
    ensures var d := dataChunk + [row];
            if |d| == chunkSize then Gathering(chunks + [d], [], done + [row], chunkSize)
            else Gathering(chunks, d, done + [row], chunkSize)
  {
    var d := dataChunk + [row];
    if |d| == chunkSize {
      FlattenSnoc(chunks, d);
    }
  }

  /** After the last row, flushing a non-empty pending chunk gives the chunk list. */
  lemma GatherDone(chunks: seq<seq<Row>>, dataChunk: seq<Row>, rows: seq<Row>, chunkSize: int)
    requires Gathering(chunks, dataChunk, rows, chunkSize)
    ensures |dataChunk| > 0 ==> ChunkedAs(chunks + [dataChunk], rows, chunkSize)
    ensures |dataChunk| == 0 ==> ChunkedAs(chunks, rows, chunkSize)
  {
    if |dataChunk| > 0 {
      FlattenSnoc(chunks, dataChunk);
    }
  }

  /** With the default chunk size of one the file is loaded line by line:
      each chunk is exactly one row, in file order. */
  lemma {:induction false} LineByLine(chunks: seq<seq<Row>>, rows: seq<Row>)
    requires ChunkedAs(chunks, rows, 1)
    ensures |chunks| == |rows|
    ensures forall i :: 0 <= i < |chunks| ==> chunks[i] == [rows[i]]
    decreases |chunks|
  {
    if |chunks| > 0 {
      var n := |chunks| - 1;
      var front := chunks[..n];
      assert |chunks[n]| == 1;
      assert ChunkedAs(front, Flatten(front), 1) by {
        forall i | 0 <= i < |front| ensures |front[i]| == 1 {
          assert front[i] == chunks[i];
        }
      }
      LineByLine(front, Flatten(front));
      assert rows == Flatten(front) + chunks[n];
      forall i | 0 <= i < |chunks| ensures chunks[i] == [rows[i]] {
        if i < n {
          assert chunks[i] == front[i];
        } else {
          assert chunks[n] == [chunks[n][0]];
        }
      }
    }
  }

  /** `insert_row` once per chunk: each chunk is appended to the table (through
      the session when one is open, to be kept at the commit). */
  function InsertChunks(db: Db, table: string, chunks: seq<seq<Row>>): (r: Db)
    requires table in db
    ensures r.Keys == db.Keys && r[table] == db[table] + Flatten(chunks)
    ensures forall t :: t in db && t != table ==> r[t] == db[t]
    decreases |chunks|
  {
    if |chunks| == 0 then db
    else
      var n := |chunks| - 1;
      var d := InsertChunks(db, table, chunks[..n]);
      d[table := d[table] + chunks[n]]
  }

  /** The rows the entity builds from the file: one per data row of the csv,
      keyed by the header as `DictReader` keys it. The conversion itself is
      the entity's and comes in as a parameter. */
  function ConvertedRows(header: seq<string>, lines: seq<seq<string>>, convert: CsvReader.FileLine -> Row): (rows: seq<Row>)
    ensures |rows| == |CsvReader.DataLines(lines)|
    ensures forall i :: 0 <= i < |rows| ==> rows[i] == convert(CsvReader.DictRow(header, CsvReader.DataLines(lines)[i]))
  {
    var data := CsvReader.DataLines(lines);
    seq(|data|, i requires 0 <= i < |data| => convert(CsvReader.DictRow(header, data[i])))
  }

  /** The exception handler as written. The entity variable is bound only
      once the header has passed its check, yet the branch without a session
      reads it unconditionally: a failure before the binding raises Python's
      `UnboundLocalError` instead of the database error. */
  function HandleFailureAsWritten(st: State, cause: Error, entityBound: bool, table: string): (r: Run<State>)
    requires st.loader.engine.Some?
    ensures r.Aborted?
    ensures !st.loader.useSession && !entityBound ==> r == Aborted(st, UnboundLocalVariable("obj_entity"))
    ensures r.error == UnboundLocalVariable("obj_entity") <==> !st.loader.useSession && !entityBound
  {
    if st.loader.useSession then
      var e := SqlEngine.CloseSession(st.loader.engine.value);
      Aborted(st.(loader := st.loader.(engine := Some(e))), ErrorDB(cause))
    else if !entityBound then Aborted(st, UnboundLocalVariable("obj_entity"))
    else
      match SqlEngine.DropTable(st.db, table)
      case Failure(e) => Aborted(st, e)
      case Success(db1) => Aborted(st.(db := db1), ErrorDB(cause))
  }

  /** The handler as evidently intended: rollback and close the session when
      there is one, else drop the table if the entity holding it exists; in
      either case the cause is reported as a database error. Dropping a table
      not yet created raises the drop's own error. */
  function HandleFailure(st: State, cause: Error, entityBound: bool, table: string): (r: Run<State>)
    requires st.loader.engine.Some?
    ensures r.Aborted? && r.state.loader.engine.Some? && r.state.loader.(engine := st.loader.engine) == st.loader
    ensures st.loader.useSession ==>
              r == Aborted(r.state, ErrorDB(cause)) && r.state.db == st.db && !r.state.loader.engine.value.session
    ensures !st.loader.useSession && !entityBound ==> r == Aborted(st, ErrorDB(cause))
    ensures !st.loader.useSession && entityBound ==>
              (table in st.db <==> r.error == ErrorDB(cause))
              && (table in st.db ==> r.state.db == st.db - {table})
              && (table !in st.db ==> r == Aborted(st, UnknownTable(table)))
  {
    if st.loader.useSession then
      var e := SqlEngine.CloseSession(st.loader.engine.value);
      Aborted(st.(loader := st.loader.(engine := Some(e))), ErrorDB(cause))
    else if !entityBound then Aborted(st, ErrorDB(cause))
    else
      match SqlEngine.DropTable(st.db, table)
      case Failure(e) => Aborted(st, e)
      case Success(db1) => Aborted(st.(db := db1), ErrorDB(cause))
  }

  /** The two handlers part exactly where the entity is unbound and no
      session is used: an empty header read without a session surfaces as an
      unbound variable, not as the database error wrapping `NoHeaderInFile`. */
  lemma UnboundEntity(st: State, cause: Error, entityBound: bool, table: string)
    requires st.loader.engine.Some?
    ensures HandleFailureAsWritten(st, cause, entityBound, table) != HandleFailure(st, cause, entityBound, table)
            <==> !st.loader.useSession && !entityBound
    ensures !st.loader.useSession ==>
              HandleFailureAsWritten(st, NoHeaderInFile, false, table).error == UnboundLocalVariable("obj_entity")
              && HandleFailure(st, NoHeaderInFile, false, table).error == ErrorDB(NoHeaderInFile)
  {
    if !st.loader.useSession && !entityBound {
      assert UnboundLocalVariable("obj_entity") != ErrorDB(cause);
    }
  }

  /** The table's part of the guarded block: creating the data source leaves
      an empty table of its name, which then receives the rows chunk by chunk. */
  method CreateAndInsert(db: Db, table: string, rows: seq<Row>, chunkSize: int)
    returns (db2: Db, countLines: nat)
    ensures db2.Keys == db.Keys + {table} && db2[table] == rows
    ensures forall t :: t in db && t != table ==> db2[t] == db[t]
    ensures countLines == |rows|
  {
    var db1 := db[table := []];
    var chunks;
    chunks, countLines := FlushChunks(rows, chunkSize);
    db2 := InsertChunks(db1, table, chunks);
    assert db2[table] == [] + rows;
  }

  /** The guarded block past its checks: the attribute count, the session
      opened when asked for, the table loaded, the line count, then the
      commit and the closing of the session. */
  method Load(l: Loader, db: Db, header: seq<string>, lines: seq<seq<string>>,
              table: string, convert: CsvReader.FileLine -> Row, chunkSize: int)
    returns (st: State)
    requires l.engine.Some?
    ensures st.db.Keys == db.Keys + {table}
    ensures st.db[table] == ConvertedRows(header, lines, convert)
    ensures forall t :: t in db && t != table ==> st.db[t] == db[t]
    ensures st.loader.totalAttributes == |header|
    ensures st.loader.totalLines == |CsvReader.DataLines(lines)|
    ensures st.loader.useSession == l.useSession && st.loader.engine.Some?
    ensures l.useSession ==> !st.loader.engine.value.session
    ensures !l.useSession ==> st.loader.engine == l.engine
  {
    var loader := l.(totalAttributes := |header|);
    if loader.useSession {
      loader := loader.(engine := Some(SqlEngine.CreateSession(loader.engine.value)));
    }
    var rows := ConvertedRows(header, lines, convert);
    var db2, countLines := CreateAndInsert(db, table, rows, chunkSize);
    loader := loader.(totalLines := countLines);
    if loader.useSession {
      loader := loader.(engine := Some(SqlEngine.CloseSession(loader.engine.value)));
    }
    st := State(loader, db2);
  }

  /** `read_file` on a csv whose header (`None` for an empty file) and lines
      are given. `mappingValid` is the entity's verdict on the header, and
      creating the entity's data source leaves an empty table of its name.
      Failures go through the corrected `HandleFailure`; the handler as
      written is `HandleFailureAsWritten`. */
  method ReadFile(l: Loader, db: Db, header: Option<seq<string>>, lines: seq<seq<string>>,
                  mappingValid: bool, table: string, convert: CsvReader.FileLine -> Row, chunkSize: int)
    returns (r: Run<State>)
    requires l.engine.Some?
    ensures r.Completed? <==> header.Some? && |header.value| > 0 && mappingValid
    ensures header.None? ==> r == HandleFailure(State(l, db), NoneNotIterable, false, table)
    ensures header == Some([]) ==> r == HandleFailure(State(l, db), NoHeaderInFile, false, table)
    ensures header.Some? && |header.value| > 0 && !mappingValid ==>
              r == HandleFailure(State(l, db), ColumnsDifferFromMapping, true, table)
    ensures r.Completed? ==>
              && r.state.db.Keys == db.Keys + {table}
              && r.state.db[table] == ConvertedRows(header.value, lines, convert)
              && (forall t :: t in db && t != table ==> r.state.db[t] == db[t])
              && r.state.loader.totalAttributes == |header.value|
              && r.state.loader.totalLines == |CsvReader.DataLines(lines)|
  {
    var st := State(l, db);
    if header.None? {
      return HandleFailure(st, NoneNotIterable, false, table);
    }
    var h := header.value;
    if |h| == 0 {
      return HandleFailure(st, NoHeaderInFile, false, table);
    }
    if !mappingValid {
      return HandleFailure(st, ColumnsDifferFromMapping, true, table);
    }
    var st1 := Load(l, db, h, lines, table, convert, chunkSize);
    return Completed(st1);
  }
}
