/** The statements the builders produce (SELECT with an optional JOIN and
    WHERE, INSERT ... FROM SELECT, DELETE with a WHERE or a WHERE ... IN
    subquery), and their meaning over a database of named tables.

    The database refuses a statement whose ON clause reads a column of a
    table other than the two it joins (`OnInScope`). A select-list or WHERE
    column of a table outside the FROM/JOIN clause reads as NULL here, where
    SQLAlchemy would add that table to the FROM list as a cross join;
    statements whose columns all come from their FROM/JOIN tables are "well
    scoped", see `WellScoped`. */
module Statements {
  import opened Wrappers
  import opened Errors
  import opened Relational
  import Seqs

  /** An output column of a SELECT. */
  datatype SelectCol =
    | Column(col: ColRef)
      /** `column.label(name)` */
    | Labelled(col: ColRef, name: string)
      /** `literal_column(text).label(name)` */
    | Literal(text: string, name: string)

  datatype Source =
    | FromTable(table: string)
    | JoinTables(left: string, right: string, on: Cond, outer: bool)

  datatype Select = Select(cols: seq<SelectCol>, source: Source, filter: Option<Cond>)

  datatype DeleteFilter =
    | AllRows
    | WhereCond(cond: Cond)
    | WhereIn(col: ColRef, sub: Select)

  datatype Delete = Delete(table: string, filter: DeleteFilter)

  type Tuple = seq<Value>
  type Db = map<string, seq<Row>>

  function ColValue(b: Binding, c: SelectCol): Value {
    match c
    case Column(r) => Lookup(b, r)
    case Labelled(r, _) => Lookup(b, r)
    case Literal(t, _) => Some(TextValue(t))
  }

  function Project(b: Binding, cols: seq<SelectCol>): (t: Tuple)
    ensures |t| == |cols|
  {
    seq(|cols|, i requires 0 <= i < |cols| => ColValue(b, cols[i]))
  }

  function SourceTables(s: Source): set<string> {
    match s
    case FromTable(t) => {t}
    case JoinTables(l, r, _, _) => {l, r}
  }

  function ColTables(cols: seq<SelectCol>): set<string> {
    set i | 0 <= i < |cols| && !cols[i].Literal? :: cols[i].col.table
  }

  /** Every column the statement reads belongs to a table of its FROM/JOIN clause,
      and a join relates two distinct tables. */
  predicate WellScoped(q: Select) {
    && ColTables(q.cols) <= SourceTables(q.source)
    && (q.filter.Some? ==> Tables(q.filter.value) <= SourceTables(q.source))
    && (q.source.JoinTables? ==> q.source.left != q.source.right && Tables(q.source.on) <= SourceTables(q.source))
  }

  /** A join's ON clause reads only the two tables it joins: the database
      reports an unknown column otherwise. */
  predicate OnInScope(s: Source) {
    s.JoinTables? ==> ReadsOnly(s.on, s.left, s.right)
  }

  function Single(t: string, row: Row): Binding {
    map[t := row]
  }

  function Pair(l: string, a: Row, r: string, b: Row): Binding {
    map[l := a, r := b]
  }

  /** The left row `a` paired with each row of `rs`, in order. */
  function PairsWith(l: string, a: Row, r: string, rs: seq<Row>): (all: seq<Binding>)
    ensures forall bd :: bd in all <==> exists c :: c in rs && bd == Pair(l, a, r, c)
  {
    var all := seq(|rs|, j requires 0 <= j < |rs| => Pair(l, a, r, rs[j]));
    assert forall c :: c in rs ==> Pair(l, a, r, c) in all by {
      forall c | c in rs ensures Pair(l, a, r, c) in all {
        var j :| 0 <= j < |rs| && rs[j] == c;
        assert all[j] == Pair(l, a, r, c);
      }
    }
    all
  }

  /** The rows of `rs` that join with the left row `a`, as bindings. */
  function Partners(l: string, a: Row, r: string, rs: seq<Row>, on: Cond): (ps: seq<Binding>)
    ensures forall bd :: bd in ps <==> exists c :: c in rs && bd == Pair(l, a, r, c) && Holds(on, bd)
    ensures forall c :: c in rs ==> (Pair(l, a, r, c) in ps <==> Holds(on, Pair(l, a, r, c)))
  {
    Seqs.Filter(PairsWith(l, a, r, rs), bd => Holds(on, bd))
  }

  /** The bindings one left row `a` contributes to `l JOIN r ON on`, or to the
      LEFT OUTER JOIN when `outer`: a left row without partner is then kept
      once, with the right table's columns all NULL. */
  function Chunk(l: string, a: Row, r: string, rs: seq<Row>, on: Cond, outer: bool): seq<Binding> {
    var ps := Partners(l, a, r, rs, on);
    if outer && |ps| == 0 then [Single(l, a)] else ps
  }

  function JoinRows(l: string, ls: seq<Row>, r: string, rs: seq<Row>, on: Cond, outer: bool): seq<Binding>
  {
    Seqs.FlatMap(a => Chunk(l, a, r, rs, on, outer), ls)
  }

  predicate Joined(bd: Binding, l: string, ls: seq<Row>, r: string, rs: seq<Row>, on: Cond) {
    exists a, c :: a in ls && c in rs && bd == Pair(l, a, r, c) && Holds(on, bd)
  }

  predicate Unpartnered(a: Row, l: string, r: string, rs: seq<Row>, on: Cond) {
    forall c :: c in rs ==> !Holds(on, Pair(l, a, r, c))
  }

  /** What the left row `a` contributes to a left outer join: its joined
      pairs, or itself alone when it has none. */
  predicate OuterOf(bd: Binding, a: Row, l: string, r: string, rs: seq<Row>, on: Cond) {
    || (exists c :: c in rs && bd == Pair(l, a, r, c) && Holds(on, bd))
    || (bd == Single(l, a) && Unpartnered(a, l, r, rs, on))
  }

  /** A join's bindings are those some left row contributes. */
  lemma JoinRowsMember(bd: Binding, l: string, ls: seq<Row>, r: string, rs: seq<Row>, on: Cond, outer: bool)
    ensures bd in JoinRows(l, ls, r, rs, on, outer) <==> exists a :: a in ls && bd in Chunk(l, a, r, rs, on, outer)
  {
    Seqs.FlatMapMember(a => Chunk(l, a, r, rs, on, outer), ls, bd);
  }

  /** A binding of an inner join is a pair of rows, one from each table, that satisfies the ON clause. */
  lemma InnerJoinMember(bd: Binding, l: string, ls: seq<Row>, r: string, rs: seq<Row>, on: Cond)
    ensures bd in JoinRows(l, ls, r, rs, on, false) <==> Joined(bd, l, ls, r, rs, on)
  {
    JoinRowsMember(bd, l, ls, r, rs, on, false);
  }

  lemma ChunkOuterMember(bd: Binding, l: string, a: Row, r: string, rs: seq<Row>, on: Cond)
    ensures bd in Chunk(l, a, r, rs, on, true) <==> OuterOf(bd, a, l, r, rs, on)
  {
    var ps := Partners(l, a, r, rs, on);
    if |ps| > 0 {
      assert ps[0] in ps;
    }
  }

  /** A binding of a left outer join is either a joined pair, or a left row
      that joins with no right row, alone. */
  lemma OuterJoinMember(bd: Binding, l: string, ls: seq<Row>, r: string, rs: seq<Row>, on: Cond)
    ensures bd in JoinRows(l, ls, r, rs, on, true) <==> exists a :: a in ls && OuterOf(bd, a, l, r, rs, on)
  {
    JoinRowsMember(bd, l, ls, r, rs, on, true);
    forall a | a in ls ensures bd in Chunk(l, a, r, rs, on, true) <==> OuterOf(bd, a, l, r, rs, on) {
      ChunkOuterMember(bd, l, a, r, rs, on);
    }
  }

  predicate SourceIn(db: Db, s: Source) {
    SourceTables(s) <= db.Keys
  }

  function Bindings(db: Db, s: Source): seq<Binding>
    requires SourceIn(db, s)
  {
    match s
    case FromTable(t) => seq(|db[t]|, i requires 0 <= i < |db[t]| => Single(t, db[t][i]))
    case JoinTables(l, r, on, outer) => JoinRows(l, db[l], r, db[r], on, outer)
  }

  function Kept(db: Db, q: Select): seq<Binding>
    requires SourceIn(db, q.source)
  {
    var bs := Bindings(db, q.source);
    if q.filter.None? then bs else Seqs.Filter(bs, bd => Holds(q.filter.value, bd))
  }

  /** The result of a SELECT: one tuple per kept binding, in order. */
  function EvalSelect(db: Db, q: Select): (ts: seq<Tuple>)
    requires SourceIn(db, q.source)
    ensures |ts| == |Kept(db, q)|
    ensures forall t :: t in ts <==> exists bd :: bd in Kept(db, q) && t == Project(bd, q.cols)
  {
    var kept := Kept(db, q);
    var ts := seq(|kept|, i requires 0 <= i < |kept| => Project(kept[i], q.cols));
    assert forall bd :: bd in kept ==> Project(bd, q.cols) in ts by {
      forall bd | bd in kept ensures Project(bd, q.cols) in ts {
        var i :| 0 <= i < |kept| && kept[i] == bd;
        assert ts[i] == Project(bd, q.cols);
      }
    }
    ts
  }

  /** A tuple of an inner-join select comes from a pair of rows satisfying
      both the ON and the WHERE clause, and every such pair gives one. */
  lemma JoinSelectMember(db: Db, q: Select, t: Tuple)
    requires q.source.JoinTables? && !q.source.outer && q.filter.Some?
    requires SourceIn(db, q.source)
    ensures t in EvalSelect(db, q) <==>
              exists a, c :: a in db[q.source.left] && c in db[q.source.right] &&
                var bd := Pair(q.source.left, a, q.source.right, c);
                Holds(q.source.on, bd) && Holds(q.filter.value, bd) && t == Project(bd, q.cols)
  {
    var l, r, on := q.source.left, q.source.right, q.source.on;
    if t in EvalSelect(db, q) {
      var bd :| bd in Kept(db, q) && t == Project(bd, q.cols);
      KeptMember(db, q, bd);
      InnerJoinMember(bd, l, db[l], r, db[r], on);
      var a, c :| a in db[l] && c in db[r] && bd == Pair(l, a, r, c) && Holds(on, bd);
    }
    if exists a, c :: a in db[l] && c in db[r] &&
         var bd := Pair(l, a, r, c);
         Holds(on, bd) && Holds(q.filter.value, bd) && t == Project(bd, q.cols)
    {
      var a, c :| a in db[l] && c in db[r] &&
        var bd := Pair(l, a, r, c);
        Holds(on, bd) && Holds(q.filter.value, bd) && t == Project(bd, q.cols);
      var bd := Pair(l, a, r, c);
      InnerJoinMember(bd, l, db[l], r, db[r], on);
      KeptMember(db, q, bd);
    }
  }

  /** A binding is kept when its source yields it and it satisfies the WHERE clause. */
  lemma KeptMember(db: Db, q: Select, bd: Binding)
    requires SourceIn(db, q.source)
    ensures bd in Kept(db, q) <==> bd in Bindings(db, q.source) && (q.filter.Some? ==> Holds(q.filter.value, bd))
  {
  }

  /** Builds the row an INSERT writes: the i-th listed column receives the i-th value. */
  function RowOf(cols: seq<string>, t: Tuple): (row: Row)
    requires |cols| == |t|
    ensures row.Keys == set i | 0 <= i < |cols| :: cols[i]
    ensures Seqs.NoDuplicates(cols) ==> forall i :: 0 <= i < |cols| ==> row[cols[i]] == t[i]
  {
    if |cols| == 0 then map[]
    else
      var n := |cols| - 1;
      var init := RowOf(cols[..n], t[..n]);
      assert forall i :: 0 <= i < n ==> cols[..n][i] == cols[i] && t[..n][i] == t[i];
      init[cols[n] := t[n]]
  }

  /** `after` is `before` followed by one row per tuple of `ts`, in order,
      the i-th value of a tuple going to the i-th of `cols`. */
  predicate Appended(before: seq<Row>, after: seq<Row>, cols: seq<string>, ts: seq<Tuple>)
    requires forall t :: t in ts ==> |t| == |cols|
  {
    && Seqs.IsPrefix(before, after)
    && |after| == |before| + |ts|
    && forall i :: 0 <= i < |ts| ==> after[|before| + i] == RowOf(cols, ts[i])
  }

  /** `INSERT INTO table (cols) SELECT ...`: the selected tuples are appended,
      the i-th value going to the i-th listed column. */
  function ExecInsert(db: Db, table: string, cols: seq<string>, q: Select): (r: Result<Db, Error>)
    ensures r.Success? <==>
              table in db && SourceIn(db, q.source) && OnInScope(q.source) && Seqs.NoDuplicates(cols) && |cols| == |q.cols|
    ensures r.Success? ==>
              && r.value.Keys == db.Keys
              && (forall t :: t in db && t != table ==> r.value[t] == db[t])
              && Seqs.IsPrefix(db[table], r.value[table])
              && |r.value[table]| == |db[table]| + |EvalSelect(db, q)|
              && forall i :: 0 <= i < |EvalSelect(db, q)| ==>
                   r.value[table][|db[table]| + i] == RowOf(cols, EvalSelect(db, q)[i])
  {
    if table !in db then Failure(UnknownTable(table))
    else if !SourceIn(db, q.source) then Failure(UnknownTable(""))
    else if !OnInScope(q.source) then Failure(ColumnOutsideJoin)
    else if !Seqs.NoDuplicates(cols) then Failure(DuplicateInsertColumn)
    else if |cols| != |q.cols| then Failure(InsertColumnCountMismatch)
    else
      var ts := EvalSelect(db, q);
      var added := seq(|ts|, i requires 0 <= i < |ts| => RowOf(cols, ts[i]));
      Success(db[table := db[table] + added])
  }

  /** The row `SET col = value WHERE col IS NULL` leaves: a NULL column
      receives the value, every other column keeps its value. */
  function FillNull(row: Row, col: string, value: string): (r: Row)
    ensures Field(r, col) == (if Field(row, col).None? then Some(value) else Field(row, col))
    ensures forall c :: c != col ==> Field(r, c) == Field(row, c)
    ensures Field(row, col).Some? ==> r == row
  {
    if Field(row, col).None? then row[col := Some(value)] else row
  }

  /** `UPDATE table SET col = value WHERE col IS NULL`: every row of the
      table is filled in place, every other table is kept. */
  function ExecUpdateNull(db: Db, table: string, col: string, value: string): (r: Result<Db, Error>)
    ensures r.Success? <==> table in db
    ensures r.Success? ==>
              && r.value.Keys == db.Keys
              && (forall t :: t in db && t != table ==> r.value[t] == db[t])
              && |r.value[table]| == |db[table]|
              && forall i :: 0 <= i < |db[table]| ==> r.value[table][i] == FillNull(db[table][i], col, value)
  {
    if table !in db then Failure(UnknownTable(table))
    else
      var rows := db[table];
      Success(db[table := seq(|rows|, i requires 0 <= i < |rows| => FillNull(rows[i], col, value))])
  }

  /** After the update no row has the column NULL, and a second update changes nothing. */
  lemma UpdateNullIdempotent(db: Db, table: string, col: string, value: string)
    requires table in db
    ensures var db' := ExecUpdateNull(db, table, col, value).value;
            && (forall i :: 0 <= i < |db'[table]| ==> Field(db'[table][i], col).Some?)
            && ExecUpdateNull(db', table, col, value) == Success(db')
  {
    var db' := ExecUpdateNull(db, table, col, value).value;
    var db'' := ExecUpdateNull(db', table, col, value).value;
    assert db''[table] == db'[table];
    assert db'' == db';
  }

  /** The non-NULL values of the first column of a subquery result: SQL's
      `x IN (subquery)` is TRUE exactly for a non-NULL `x` among them. */
  function InValues(ts: seq<Tuple>): set<string> {
    set t: Tuple | t in ts && |t| >= 1 && t[0].Some? :: t[0].value
  }

  lemma InValuesMember(ts: seq<Tuple>, v: string)
    ensures v in InValues(ts) <==> exists t :: t in ts && |t| >= 1 && t[0] == Some(v)
  {
  }

  predicate InSubquery(t: string, row: Row, col: ColRef, vs: set<string>) {
    var v := Lookup(Single(t, row), col);
    v.Some? && v.value in vs
  }

  predicate DeleteReady(db: Db, d: Delete) {
    && d.table in db
    && (d.filter.WhereIn? ==> SourceIn(db, d.filter.sub.source) && OnInScope(d.filter.sub.source) && |d.filter.sub.cols| == 1)
  }

  /** The rows a DELETE removes: all of them, those satisfying its WHERE
      clause, or those whose column value is among the subquery's values. */
  predicate Doomed(db: Db, d: Delete, row: Row)
    requires DeleteReady(db, d)
  {
    match d.filter
    case AllRows => true
    case WhereCond(c) => Holds(c, Single(d.table, row))
    case WhereIn(col, sub) => InSubquery(d.table, row, col, InValues(EvalSelect(db, sub)))
  }

  /** `DELETE FROM table [WHERE ...]`: the rows the clause selects are removed,
      the others keep their order; a delete that selects no row changes nothing. */
  function ExecDelete(db: Db, d: Delete): (r: Result<Db, Error>)
    ensures r.Success? <==> DeleteReady(db, d)
    ensures r.Success? ==>
              && r.value.Keys == db.Keys
              && (forall t :: t in db && t != d.table ==> r.value[t] == db[t])
              && multiset(r.value[d.table]) <= multiset(db[d.table])
              && (forall row :: row in r.value[d.table] <==> row in db[d.table] && !Doomed(db, d, row))
              && ((forall row :: row in db[d.table] ==> !Doomed(db, d, row)) ==> r.value == db)
  {
    if d.table !in db then Failure(UnknownTable(d.table))
    else if d.filter.WhereIn? && !SourceIn(db, d.filter.sub.source) then Failure(UnknownTable(""))
    else if d.filter.WhereIn? && !OnInScope(d.filter.sub.source) then Failure(ColumnOutsideJoin)
    else if d.filter.WhereIn? && |d.filter.sub.cols| != 1 then Failure(SubqueryNotSingleColumn)
    else
      var kept := Survivors(db, d);
      assert kept == db[d.table] ==> db[d.table := kept] == db;
      Success(db[d.table := kept])
  }

  /** The rows of the delete's table it does not remove, in order. */
  function Survivors(db: Db, d: Delete): (kept: seq<Row>)
    requires DeleteReady(db, d)
    ensures multiset(kept) <= multiset(db[d.table])
    ensures forall row :: row in kept <==> row in db[d.table] && !Doomed(db, d, row)
    ensures (forall row :: row in db[d.table] ==> !Doomed(db, d, row)) ==> kept == db[d.table]
  {
    Seqs.Filter(db[d.table], row => !Doomed(db, d, row))
  }

  /** The rows an insert appends are exactly the selected tuples, each laid out on the listed columns. */
  lemma InsertAppended(db: Db, table: string, cols: seq<string>, q: Select, row: Row)
    requires ExecInsert(db, table, cols, q).Success?
    ensures var grown := ExecInsert(db, table, cols, q).value[table];
            row in grown[|db[table]|..] <==> exists t :: t in EvalSelect(db, q) && row == RowOf(cols, t)
  {
    var grown := ExecInsert(db, table, cols, q).value[table];
    var ts := EvalSelect(db, q);
    var added := grown[|db[table]|..];
    assert |added| == |ts|;
    assert forall i :: 0 <= i < |ts| ==> added[i] == RowOf(cols, ts[i]);
    if row in added {
      var i :| 0 <= i < |added| && added[i] == row;
      assert ts[i] in ts;
    }
    if exists t :: t in ts && row == RowOf(cols, t) {
      var t :| t in ts && row == RowOf(cols, t);
      var i :| 0 <= i < |ts| && ts[i] == t;
      assert added[i] == row;
    }
  }

  /** An insert whose select joins on a column outside its join is refused. */
  lemma InsertRefused(db: Db, table: string, cols: seq<string>, q: Select)
    requires table in db && SourceIn(db, q.source) && !OnInScope(q.source)
    ensures ExecInsert(db, table, cols, q) == Failure(ColumnOutsideJoin)
  {
  }

  /** An insert whose select returns no row changes nothing. */
  lemma InsertNothing(db: Db, table: string, cols: seq<string>, q: Select)
    requires ExecInsert(db, table, cols, q).Success? && |EvalSelect(db, q)| == 0
    ensures ExecInsert(db, table, cols, q) == Success(db)
  {
    var r := ExecInsert(db, table, cols, q).value;
    assert r[table] == r[table][..|db[table]|] == db[table];
    assert forall t :: t in db ==> r[t] == db[t];
    assert r == db;
  }

  /** A `WHERE ... IN (subquery)` delete whose subquery yields no value changes nothing. */
  lemma DeleteInNothing(db: Db, d: Delete)
    requires DeleteReady(db, d) && d.filter.WhereIn?
    requires InValues(EvalSelect(db, d.filter.sub)) == {}
    ensures ExecDelete(db, d) == Success(db)
  {
  }
}
