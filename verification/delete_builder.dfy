/** The DELETE builder: a target table, a WHERE condition or a
    `column IN (subquery)` condition, and the last statement built. */
module DeleteBuilder {
  import opened Wrappers
  import opened Errors
  import opened Relational
  import opened Statements

  datatype DeleteState = DeleteState(
    from: Option<string>,
    subquery: Option<Select>,
    inColumn: Option<ColRef>,
    filter: Option<Cond>,
    built: Option<Delete>)

  const Fresh := DeleteState(None, None, None, None, None)

  function NewDelete(): (s: DeleteState)
    ensures GetStatement(s).None?
  {
    Fresh
  }

  /** `clean`/`create_delete` reset all five fields, the last built statement included. */
  function Clean(s: DeleteState): (r: DeleteState)
    ensures r == NewDelete()
  {
    Fresh
  }

  function CreateDelete(s: DeleteState): (r: DeleteState)
    ensures r == NewDelete()
  {
    Clean(s)
  }

  function FromTable(s: DeleteState, t: string): (r: DeleteState)
    ensures r.from == Some(t) && r.(from := s.from) == s
  {
    s.(from := Some(t))
  }

  function WhereCondition(s: DeleteState, c: Option<Cond>): (r: DeleteState)
    ensures r.filter == c && r.(filter := s.filter) == s
  {
    s.(filter := c)
  }

  function WhereInCondition(s: DeleteState, col: Option<ColRef>, sub: Option<Select>): (r: DeleteState)
    ensures r.inColumn == col && r.subquery == sub
    ensures r.(inColumn := s.inColumn, subquery := s.subquery) == s
  {
    s.(inColumn := col, subquery := sub)
  }

  function GetStatement(s: DeleteState): Option<Delete> {
    s.built
  }

  /** `build_statement`: the IN condition, when a subquery is held, takes
      precedence over the WHERE condition; with neither, every row is deleted.
      The statement is also kept as the builder's last statement. A raising
      build leaves the builder unchanged. */
  function Build(s: DeleteState): (r: Result<(DeleteState, Delete), Error>)
    ensures r.Success? <==> s.from.Some? && (s.subquery.Some? ==> s.inColumn.Some?)
    ensures r.Success? ==>
              && GetStatement(r.value.0) == Some(r.value.1)
              && r.value.0.(built := s.built) == s
              && r.value.1.table == s.from.value
    ensures r.Success? ==>
              && (r.value.1.filter.WhereIn? <==> s.subquery.Some?)
              && (r.value.1.filter.WhereCond? <==> s.subquery.None? && s.filter.Some?)
              && (r.value.1.filter.AllRows? <==> s.subquery.None? && s.filter.None?)
    ensures r.Success? && s.subquery.Some? ==>
              r.value.1.filter == WhereIn(s.inColumn.value, s.subquery.value)
    ensures r.Success? && s.subquery.None? && s.filter.Some? ==>
              r.value.1.filter == WhereCond(s.filter.value)
  {
    if s.from.None? then Failure(StatementWithoutTable)
    else
      var f :=
        if s.subquery.Some? then
          if s.inColumn.None? then None else Some(WhereIn(s.inColumn.value, s.subquery.value))
        else if s.filter.Some? then Some(WhereCond(s.filter.value))
        else Some(AllRows);
      if f.None? then Failure(WhereInWithoutColumn)
      else
        var d := Delete(s.from.value, f.value);
        Success((s.(built := Some(d)), d))
  }

  /** A built `DELETE ... WHERE col IN (subquery)` removes exactly the rows whose
      column value is non-NULL and among the subquery's values, whatever plain
      WHERE condition the builder also holds. */
  lemma BuiltWhereInDelete(s: DeleteState, db: Db, row: Row)
    requires Build(s).Success? && s.subquery.Some?
    requires ExecDelete(db, Build(s).value.1).Success?
    ensures var t := s.from.value;
            var db' := ExecDelete(db, Build(s).value.1).value;
            && SourceIn(db, s.subquery.value.source)
            && (row in db'[t] <==>
                  row in db[t] && !InSubquery(t, row, s.inColumn.value, InValues(EvalSelect(db, s.subquery.value))))
  {
  }
}
