/** The SELECT builder: six fields set one call at a time, and a build step
    that turns them into a statement without changing them. */
module SelectBuilder {
  import opened Wrappers
  import opened Errors
  import opened Relational
  import opened Statements

  datatype SelectState = SelectState(
    cols: seq<SelectCol>,
    from: Option<string>,
    join: Option<string>,
    joinType: string,
    joinCond: Option<Cond>,
    filter: Option<Cond>)

  const Fresh := SelectState([], None, None, "join", None, None)

  function NewSelect(): (s: SelectState)
    ensures Build(s) == Failure(StatementWithoutTable)
  {
    Fresh
  }

  function Clean(s: SelectState): (r: SelectState)
    ensures r == NewSelect()
  {
    Fresh
  }

  /** `create_select` only replaces the columns: it does NOT clean the other
      fields, so a FROM, JOIN or WHERE set for an earlier statement is kept. */
  function CreateSelect(s: SelectState, cols: seq<SelectCol>): (r: SelectState)
    ensures r.cols == cols
    ensures r.(cols := s.cols) == s
  {
    s.(cols := cols)
  }

  function FromTable(s: SelectState, t: string): (r: SelectState)
    ensures r.from == Some(t) && r.(from := s.from) == s
  {
    s.(from := Some(t))
  }

  function JoinTable(s: SelectState, t: string): (r: SelectState)
    ensures r.join == Some(t) && r.(join := s.join) == s
  {
    s.(join := Some(t))
  }

  /** `join_on(condition, type_join='join')` */
  function JoinOn(s: SelectState, c: Option<Cond>, joinType: string): (r: SelectState)
    ensures r.joinCond == c && r.joinType == joinType
    ensures r.(joinCond := s.joinCond, joinType := s.joinType) == s
  {
    s.(joinCond := c, joinType := joinType)
  }

  function WhereCondition(s: SelectState, c: Option<Cond>): (r: SelectState)
    ensures r.filter == c && r.(filter := s.filter) == s
  {
    s.(filter := c)
  }

  /** `build_statement`. A join is emitted only when a join condition is held
      (a join table without condition is ignored); it is a LEFT OUTER JOIN
      exactly when the join type is 'left'. Selecting from no table, or
      joining no table, raises. */
  function Build(s: SelectState): (r: Result<Select, Error>)
    ensures r.Success? <==> s.from.Some? && (s.joinCond.Some? ==> s.join.Some?)
    ensures r.Success? ==> r.value.cols == s.cols && r.value.filter == s.filter
    ensures r.Success? ==> (r.value.source.JoinTables? <==> s.joinCond.Some?)
    ensures r.Success? && r.value.source.JoinTables? ==>
              r.value.source == JoinTables(s.from.value, s.join.value, s.joinCond.value, s.joinType == "left")
    ensures r.Success? && r.value.source.FromTable? ==> r.value.source.table == s.from.value
  {
    if s.from.None? then Failure(StatementWithoutTable)
    else if s.joinCond.Some? then
      if s.join.None? then Failure(JoinWithoutTable)
      else
        Success(Select(s.cols, JoinTables(s.from.value, s.join.value, s.joinCond.value, s.joinType == "left"), s.filter))
    else
      Success(Select(s.cols, Statements.FromTable(s.from.value), s.filter))
  }

  /** A join table set without a join condition has no effect on the statement. */
  lemma JoinTableIgnoredWithoutCondition(s: SelectState, t: string)
    requires s.joinCond.None?
    ensures Build(JoinTable(s, t)) == Build(s)
  {
  }

  /** The rows of a built inner-join select with a WHERE clause are the
      projections of the row pairs that satisfy both the join condition and
      the WHERE clause. */
  lemma BuiltJoinSelectMember(s: SelectState, db: Db, t: Tuple)
    requires Build(s).Success? && s.joinCond.Some? && s.joinType != "left" && s.filter.Some?
    requires s.from.value in db && s.join.value in db
    ensures SourceIn(db, Build(s).value.source)
    ensures t in EvalSelect(db, Build(s).value) <==>
              exists a, c :: a in db[s.from.value] && c in db[s.join.value] &&
                var bd := Pair(s.from.value, a, s.join.value, c);
                Holds(s.joinCond.value, bd) && Holds(s.filter.value, bd) && t == Project(bd, s.cols)
  {
    JoinSelectMember(db, Build(s).value, t);
  }
}
