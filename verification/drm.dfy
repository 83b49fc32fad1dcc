/** The direct residual matcher (DRM): for each rule of the policy's 'drm'
    section, it joins the residual "no-matching" rows of one target with the
    referential table on the rule's aliased columns, inserts the joined rows
    into the matching table, and then deletes them from the no-matching table
    by their matching id. */
module Drm {
  import opened Wrappers
  import opened Errors
  import opened Relational
  import opened Statements
  import Seqs
  import Dicts
  import opened DbMatcher
  import CB = ConditionBuilder
  import SB = SelectBuilder
  import DB = DeleteBuilder

  const MatchingType := "drm"
  const LiteralType := "direct"
  const LiteralScope := "residual"
  /** The no-matching column that records which target a residual row belongs to. */
  const TgtNameColumn := "tgt_name"

  /** The matcher object: its data sources and its four builders, which keep
      their state from one rule to the next. */
  datatype Matcher = Matcher(
    src: Sources,
    joinB: CB.CondBuilder,
    whereB: CB.CondBuilder,
    sel: SB.SelectState,
    del: DB.DeleteState)

  /** `_can_matcher_be_used` */
  function CanMatcherBeUsed(p: Policy): (r: Result<Rules, Error>)
    ensures r.Success? <==> HasRuleType(p, MatchingType)
    ensures r.Success? ==> r.value == p[MatchingType] && |r.value| > 0
    ensures r.Failure? ==> r.error == DirectResidualMatchingNotInPolicy
  {
    if HasRuleType(p, MatchingType) then Success(p[MatchingType]) else Failure(DirectResidualMatchingNotInPolicy)
  }

  /** Resolves each alias to its (no-matching column, referential column) pair;
      the first alias either source cannot resolve raises. */
  function JoinKeys(src: Sources, aliases: seq<string>): (r: Result<seq<(string, string)>, Error>)
    ensures r.Success? <==> forall i :: 0 <= i < |aliases| ==> aliases[i] in src.targetAlias && aliases[i] in src.refAlias
    ensures r.Success? ==>
              && |r.value| == |aliases|
              && forall i :: 0 <= i < |aliases| ==>
                   r.value[i] == (src.targetAlias[aliases[i]], src.refAlias[aliases[i]])
    ensures r.Failure? ==> exists i :: 0 <= i < |aliases| && r.error == AliasNotResolvable(aliases[i])
  {
    if |aliases| == 0 then Success([])
    else
      var a := aliases[0];
      if a !in src.targetAlias || a !in src.refAlias then Failure(AliasNotResolvable(a))
      else
        var rest := JoinKeys(src, aliases[1..]);
        if rest.Failure? then Failure(rest.error)
        else Success([(src.targetAlias[a], src.refAlias[a])] + rest.value)
  }

  /** A residual row of this target that joins with some referential row. */
  predicate Matched(src: Sources, keys: seq<(string, string)>, row: Row, refRows: seq<Row>) {
    Field(row, TgtNameColumn) == Some(src.targetName) && exists c :: c in refRows && KeysMatch(row, c, keys)
  }

  /** `_get_conditions`: the join condition folds one column equality per
      alias into a left-nested AND; the WHERE condition selects this target's
      residual rows. */
  function GetConditions(m: Matcher, aliases: seq<string>): (r: Result<(Conditions, Matcher), Error>)
    ensures r.Success? <==> JoinKeys(m.src, aliases).Success?
    ensures r.Success? ==>
              var c := r.value.0;
              && c.keys == JoinKeys(m.src, aliases).value
              && c.join == LeftAnd(CB.EqLeaves(KeyPairs(m.src.noMatching, m.src.referential, c.keys)))
              && (c.join.Some? <==> |aliases| > 0)
              && (|aliases| > 0 ==> Leaves(c.join.value) == CB.EqLeaves(KeyPairs(m.src.noMatching, m.src.referential, c.keys)))
              && c.filter == EqVal(ColRef(m.src.noMatching, TgtNameColumn), m.src.targetName)
              && r.value.1.src == m.src && r.value.1.sel == m.sel && r.value.1.del == m.del
  {
    var keys :- JoinKeys(m.src, aliases);
    var pairs := KeyPairs(m.src.noMatching, m.src.referential, keys);
    var join := CB.FoldEqualCols(m.joinB, pairs);
    CB.FoldEqualColsIsLeftAnd(m.joinB, pairs);
    var whereB := CB.EqualValue(CB.CreateCondition(m.whereB), ColRef(m.src.noMatching, TgtNameColumn), m.src.targetName);
    var joinB := if |pairs| == 0 then m.joinB else CB.CondBuilder(join);
    Success((Conditions(join, CB.GetCondition(whereB).value, keys), m.(joinB := joinB, whereB := whereB)))
  }

  function IdCol(src: Sources): ColRef {
    ColRef(src.noMatching, src.matchingId)
  }

  /** The delete builder calls of a rule: delete from the no-matching table
      the rows whose matching id is among the ids `idq` selects. */
  function DeleteChain(d: DB.DeleteState, src: Sources, idq: Select): (r: (DB.DeleteState, Delete))
    ensures r.1 == Delete(src.noMatching, WhereIn(IdCol(src), idq))
    ensures r.0 == DB.DeleteState(Some(src.noMatching), Some(idq), Some(IdCol(src)), None, Some(r.1))
  {
    var d1 := DB.FromTable(DB.CreateDelete(d), src.noMatching);
    var d2 := DB.WhereInCondition(d1, Some(IdCol(src)), Some(idq));
    DB.Build(d2).value
  }

  /** The statements of one rule, built from the matcher's current builders. */
  datatype Plan = Plan(
    cond: Conditions,
    names: seq<string>,
    matchSelect: Select,
    idSelect: Select,
    delete: Delete,
    after: Matcher)

  function PlanRule(m: Matcher, literals: seq<(string, string)>, aliases: seq<string>): (r: Result<Plan, Error>)
    ensures r.Success? <==> JoinKeys(m.src, aliases).Success?
    ensures r.Success? ==>
              var p := r.value;
              && GetConditions(m, aliases).Success?
              && p.cond == GetConditions(m, aliases).value.0
              && p.after.src == m.src
              && p.delete == Delete(m.src.noMatching, WhereIn(IdCol(m.src), p.idSelect))
              && p.idSelect == Select([Column(IdCol(m.src))], p.matchSelect.source, p.matchSelect.filter)
              && p.matchSelect.cols == ColsMatch(m.src, literals).0
              && p.names == ColsMatch(m.src, literals).1
              && p.matchSelect.filter == Some(p.cond.filter)
              && (|aliases| > 0 ==>
                    && p.matchSelect == RuleSelect(m.src, p.cond.keys, p.matchSelect.cols)
                    && p.idSelect == RuleSelect(m.src, p.cond.keys, [Column(IdCol(m.src))]))
  {
    var (cond, m1) :- GetConditions(m, aliases);
    var (cols, names) := ColsMatch(m.src, literals);
    var (s1, q) := SelectChain(m1.sel, m.src, cols, cond);
    var (s2, idq) := SelectChain(s1, m.src, [Column(IdCol(m.src))], cond);
    var (d1, del) := DeleteChain(m1.del, m.src, idq);
    Success(Plan(cond, names, q, idq, del, m1.(sel := s2, del := d1)))
  }

  /** The statements a rule builds do not depend on what the builders held
      before: every field they read is set afresh. */
  lemma PlanIgnoresBuilderState(m1: Matcher, m2: Matcher, literals: seq<(string, string)>, aliases: seq<string>)
    requires m1.src == m2.src && PlanRule(m1, literals, aliases).Success?
    ensures PlanRule(m2, literals, aliases).Success?
    ensures var p1, p2 := PlanRule(m1, literals, aliases).value, PlanRule(m2, literals, aliases).value;
            && p1.matchSelect == p2.matchSelect && p1.delete == p2.delete && p1.names == p2.names
            && (|aliases| > 0 ==> p1.after == p2.after)
  {
  }

  /** One rule of `execute_matching`: insert the joined rows into the
      matching table, then delete them from the no-matching table. */
  function Step(db: Db, m: Matcher, literals: seq<(string, string)>, aliases: seq<string>): (r: Result<(Db, Matcher), Error>)
    ensures r.Success? ==> r.value.1.src == m.src && r.value.0.Keys == db.Keys
    ensures r.Success? ==>
              forall t :: t in db && t != m.src.matching && t != m.src.noMatching ==> r.value.0[t] == db[t]
  {
    var p :- PlanRule(m, literals, aliases);
    var db1 :- ExecInsert(db, m.src.matching, p.names, p.matchSelect);
    var db2 :- ExecDelete(db1, p.delete);
    Success((db2, p.after))
  }

  /** The tables the matcher touches are distinct and present. */
  predicate Layout(db: Db, src: Sources) {
    && src.noMatching in db && src.referential in db && src.matching in db
    && src.noMatching != src.referential && src.noMatching != src.matching && src.referential != src.matching
  }

  predicate IdsPresent(db: Db, src: Sources)
    requires src.noMatching in db
  {
    forall row :: row in db[src.noMatching] ==> Field(row, src.matchingId).Some?
  }

  predicate IdsUnique(db: Db, src: Sources)
    requires src.noMatching in db
  {
    forall a, b :: a in db[src.noMatching] && b in db[src.noMatching] && Field(a, src.matchingId) == Field(b, src.matchingId) ==> a == b
  }

  /** The select both statements of a rule with aliases share, up to its columns. */
  function RuleSelect(src: Sources, keys: seq<(string, string)>, cols: seq<SelectCol>): Select
    requires |keys| > 0
  {
    Select(cols,
           JoinTables(src.noMatching, src.referential, KeyJoin(src.noMatching, src.referential, keys), false),
           Some(EqVal(ColRef(src.noMatching, TgtNameColumn), src.targetName)))
  }

  /** The rows a rule's select returns: one per (residual row, referential
      row) pair of this target whose keys match. */
  lemma RuleSelectMember(db: Db, src: Sources, keys: seq<(string, string)>, cols: seq<SelectCol>, t: Tuple)
    requires Layout(db, src) && |keys| > 0
    ensures SourceIn(db, RuleSelect(src, keys, cols).source)
    ensures t in EvalSelect(db, RuleSelect(src, keys, cols)) <==>
              exists a, c :: a in db[src.noMatching] && c in db[src.referential] &&
                Field(a, TgtNameColumn) == Some(src.targetName) && KeysMatch(a, c, keys) &&
                t == Project(Pair(src.noMatching, a, src.referential, c), cols)
  {
    KeyJoinSelectMember(db, RuleSelect(src, keys, cols), keys, TgtNameColumn, src.targetName, t);
  }

  /** The ON clause of a rule's select reads only the two tables it joins. */
  lemma RuleSelectScoped(src: Sources, keys: seq<(string, string)>, cols: seq<SelectCol>)
    requires |keys| > 0
    ensures OnInScope(RuleSelect(src, keys, cols).source)
  {
    KeyJoinReadsOnly(src.noMatching, src.referential, keys);
  }

  function IdSelect(src: Sources, keys: seq<(string, string)>): Select
    requires |keys| > 0
  {
    RuleSelect(src, keys, [Column(IdCol(src))])
  }

  lemma IdValueSound(db: Db, src: Sources, keys: seq<(string, string)>, v: string)
    requires Layout(db, src) && |keys| > 0
    requires SourceIn(db, IdSelect(src, keys).source)
    requires v in InValues(EvalSelect(db, IdSelect(src, keys)))
    ensures exists a :: a in db[src.noMatching] && Field(a, src.matchingId) == Some(v) &&
              Matched(src, keys, a, db[src.referential])
  {
    var nm, rf := src.noMatching, src.referential;
    var q := IdSelect(src, keys);
    var ts := EvalSelect(db, q);
    InValuesMember(ts, v);
    var t :| t in ts && |t| >= 1 && t[0] == Some(v);
    RuleSelectMember(db, src, keys, q.cols, t);
    var a, c :| a in db[nm] && c in db[rf] &&
      Field(a, TgtNameColumn) == Some(src.targetName) && KeysMatch(a, c, keys) &&
      t == Project(Pair(nm, a, rf, c), q.cols);
    IdOfPair(src, a, c);
    assert Matched(src, keys, a, db[rf]);
  }

  /** The id column of a joined pair is the residual row's matching id. */
  lemma IdOfPair(src: Sources, a: Row, c: Row)
    requires src.noMatching != src.referential
    ensures Project(Pair(src.noMatching, a, src.referential, c), [Column(IdCol(src))])[0] == Field(a, src.matchingId)
  {
    assert Project(Pair(src.noMatching, a, src.referential, c), [Column(IdCol(src))])[0] ==
           Lookup(Pair(src.noMatching, a, src.referential, c), IdCol(src));
  }

  /** A matched pair of rows yields a row of the rule's select. */
  lemma RuleSelectHas(db: Db, src: Sources, keys: seq<(string, string)>, cols: seq<SelectCol>, a: Row, c: Row)
    requires Layout(db, src) && |keys| > 0
    requires a in db[src.noMatching] && c in db[src.referential]
    requires Field(a, TgtNameColumn) == Some(src.targetName) && KeysMatch(a, c, keys)
    ensures SourceIn(db, RuleSelect(src, keys, cols).source)
    ensures Project(Pair(src.noMatching, a, src.referential, c), cols) in EvalSelect(db, RuleSelect(src, keys, cols))
  {
    KeyJoinSelectHas(db, RuleSelect(src, keys, cols), keys, TgtNameColumn, src.targetName, a, c);
  }

  lemma IdValueComplete(db: Db, src: Sources, keys: seq<(string, string)>, a: Row)
    requires Layout(db, src) && |keys| > 0
    requires a in db[src.noMatching] && Field(a, src.matchingId).Some? && Matched(src, keys, a, db[src.referential])
    ensures SourceIn(db, IdSelect(src, keys).source)
    ensures Field(a, src.matchingId).value in InValues(EvalSelect(db, IdSelect(src, keys)))
  {
    var nm, rf := src.noMatching, src.referential;
    var q := IdSelect(src, keys);
    var c :| c in db[rf] && KeysMatch(a, c, keys);
    var t := Project(Pair(nm, a, rf, c), q.cols);
    RuleSelectHas(db, src, keys, q.cols, a, c);
    assert t[0] == Lookup(Pair(nm, a, rf, c), IdCol(src)) == Field(a, src.matchingId);
    InValuesMember(EvalSelect(db, q), Field(a, src.matchingId).value);
  }

  /** The ids the delete's subquery selects are exactly those of the matched rows. */
  lemma RuleIdValues(db: Db, src: Sources, keys: seq<(string, string)>, v: string)
    requires Layout(db, src) && |keys| > 0
    ensures SourceIn(db, RuleSelect(src, keys, [Column(IdCol(src))]).source)
    ensures v in InValues(EvalSelect(db, RuleSelect(src, keys, [Column(IdCol(src))]))) <==>
              exists a :: a in db[src.noMatching] && Field(a, src.matchingId) == Some(v) &&
                Matched(src, keys, a, db[src.referential])
  {
    RuleSelectMember(db, src, keys, [Column(IdCol(src))], []);
    if v in InValues(EvalSelect(db, IdSelect(src, keys))) {
      IdValueSound(db, src, keys, v);
    }
    if exists a :: a in db[src.noMatching] && Field(a, src.matchingId) == Some(v) && Matched(src, keys, a, db[src.referential]) {
      var a :| a in db[src.noMatching] && Field(a, src.matchingId) == Some(v) && Matched(src, keys, a, db[src.referential]);
      IdValueComplete(db, src, keys, a);
    }
  }

  /** The insert appends, after the matching table's existing rows, one row
      per matched pair; the residual and referential tables are untouched by it. */
  lemma StepInserts(db: Db, m: Matcher, literals: seq<(string, string)>, aliases: seq<string>)
    requires Layout(db, m.src) && Step(db, m, literals, aliases).Success?
    ensures var p := PlanRule(m, literals, aliases).value;
            var db' := Step(db, m, literals, aliases).value.0;
            var ts := EvalSelect(db, p.matchSelect);
            && Seqs.NoDuplicates(p.names)
            && Seqs.IsPrefix(db[m.src.matching], db'[m.src.matching])
            && |db'[m.src.matching]| == |db[m.src.matching]| + |ts|
            && (forall i :: 0 <= i < |ts| ==> db'[m.src.matching][|db[m.src.matching]| + i] == RowOf(p.names, ts[i]))
            && db'[m.src.referential] == db[m.src.referential]
  {
    var p := PlanRule(m, literals, aliases).value;
    StepUnfold(db, m, literals, aliases);
    assert p.delete.table == m.src.noMatching;
  }

  /** Purge completeness: after a rule, no residual row of this target still
      joins with a referential row. */
  lemma StepPurges(db: Db, m: Matcher, literals: seq<(string, string)>, aliases: seq<string>)
    requires Layout(db, m.src) && IdsPresent(db, m.src) && |aliases| > 0
    requires Step(db, m, literals, aliases).Success?
    ensures var keys := JoinKeys(m.src, aliases).value;
            var db' := Step(db, m, literals, aliases).value.0;
            forall row :: row in db'[m.src.noMatching] ==> !Matched(m.src, keys, row, db'[m.src.referential])
  {
    StepExactly(db, m, literals, aliases, false);
  }

  /** The delete a rule with aliases builds. */
  function RuleDelete(src: Sources, keys: seq<(string, string)>): Delete
    requires |keys| > 0
  {
    Delete(src.noMatching, WhereIn(IdCol(src), RuleSelect(src, keys, [Column(IdCol(src))])))
  }

  /** A residual row is deleted exactly when its id is among the matched rows' ids. */
  lemma RuleDoomed(db: Db, src: Sources, keys: seq<(string, string)>, row: Row)
    requires Layout(db, src) && |keys| > 0
    ensures DeleteReady(db, RuleDelete(src, keys))
    ensures Doomed(db, RuleDelete(src, keys), row) <==>
              Field(row, src.matchingId).Some? &&
              exists a :: a in db[src.noMatching] && Field(a, src.matchingId) == Field(row, src.matchingId) &&
                Matched(src, keys, a, db[src.referential])
  {
    RuleSelectScoped(src, keys, [Column(IdCol(src))]);
    assert Lookup(Single(src.noMatching, row), IdCol(src)) == Field(row, src.matchingId);
    if Field(row, src.matchingId).Some? {
      RuleIdValues(db, src, keys, Field(row, src.matchingId).value);
    }
  }

  /** The rule's delete removes every matched row; when ids identify rows it
      removes nothing else. */
  lemma RuleDeleteExactly(db: Db, src: Sources, keys: seq<(string, string)>, unique: bool)
    requires Layout(db, src) && IdsPresent(db, src) && |keys| > 0
    requires unique ==> IdsUnique(db, src)
    ensures DeleteReady(db, RuleDelete(src, keys))
    ensures var rest := ExecDelete(db, RuleDelete(src, keys)).value[src.noMatching];
            && (forall row :: row in rest ==> !Matched(src, keys, row, db[src.referential]))
            && (unique ==>
                  forall row :: row in rest <==> row in db[src.noMatching] && !Matched(src, keys, row, db[src.referential]))
  {
    var d := RuleDelete(src, keys);
    RuleDoomed(db, src, keys, map[]);
    forall row | row in db[src.noMatching] && Matched(src, keys, row, db[src.referential])
      ensures Doomed(db, d, row)
    {
      RuleDoomed(db, src, keys, row);
    }
    if unique {
      forall row | row in db[src.noMatching] && !Matched(src, keys, row, db[src.referential])
        ensures !Doomed(db, d, row)
      {
        RuleDoomed(db, src, keys, row);
      }
    }
  }

  /** With aliases, a rule's delete is the id-subquery delete over its resolved keys. */
  lemma PlanDelete(m: Matcher, literals: seq<(string, string)>, aliases: seq<string>)
    requires |aliases| > 0 && PlanRule(m, literals, aliases).Success?
    ensures var p := PlanRule(m, literals, aliases).value;
            && p.cond.keys == JoinKeys(m.src, aliases).value && |p.cond.keys| > 0
            && p.delete == RuleDelete(m.src, p.cond.keys)
  {
  }

  /** A rule's statements, run one after the other. */
  lemma StepUnfold(db: Db, m: Matcher, literals: seq<(string, string)>, aliases: seq<string>)
    requires Step(db, m, literals, aliases).Success?
    ensures var p := PlanRule(m, literals, aliases).value;
            var r1 := ExecInsert(db, m.src.matching, p.names, p.matchSelect);
            && r1.Success? && ExecDelete(r1.value, p.delete).Success?
            && Step(db, m, literals, aliases).value.0 == ExecDelete(r1.value, p.delete).value
            && Step(db, m, literals, aliases).value.1 == p.after
  {
  }

  /** What a rule leaves in the no-matching table: no matched row stays, and,
      when ids identify rows, exactly the matched rows go. */
  lemma StepExactly(db: Db, m: Matcher, literals: seq<(string, string)>, aliases: seq<string>, unique: bool)
    requires Layout(db, m.src) && IdsPresent(db, m.src) && |aliases| > 0
    requires unique ==> IdsUnique(db, m.src)
    requires Step(db, m, literals, aliases).Success?
    ensures var keys := JoinKeys(m.src, aliases).value;
            var db' := Step(db, m, literals, aliases).value.0;
            && Layout(db', m.src)
            && db'[m.src.referential] == db[m.src.referential]
            && multiset(db'[m.src.noMatching]) <= multiset(db[m.src.noMatching])
            && (forall row :: row in db'[m.src.noMatching] ==> !Matched(m.src, keys, row, db[m.src.referential]))
            && (unique ==>
                  forall row :: row in db'[m.src.noMatching] <==>
                    row in db[m.src.noMatching] && !Matched(m.src, keys, row, db[m.src.referential]))
  {
    var p := PlanRule(m, literals, aliases).value;
    StepUnfold(db, m, literals, aliases);
    PlanDelete(m, literals, aliases);
    var db1 := ExecInsert(db, m.src.matching, p.names, p.matchSelect).value;
    assert Layout(db1, m.src) && db1[m.src.noMatching] == db[m.src.noMatching] && db1[m.src.referential] == db[m.src.referential];
    RuleDeleteExactly(db1, m.src, p.cond.keys, unique);
  }

  /** No residual row of this target joins with a referential row under the rule's aliases. */
  predicate Purged(db: Db, src: Sources, aliases: seq<string>)
    requires src.noMatching in db && src.referential in db
  {
    && JoinKeys(src, aliases).Success?
    && forall row :: row in db[src.noMatching] ==>
         !Matched(src, JoinKeys(src, aliases).value, row, db[src.referential])
  }

  predicate NoneMatched(db: Db, src: Sources, keys: seq<(string, string)>)
    requires src.noMatching in db && src.referential in db
  {
    forall row :: row in db[src.noMatching] ==> !Matched(src, keys, row, db[src.referential])
  }

  lemma QuietSelect(db: Db, src: Sources, keys: seq<(string, string)>, cols: seq<SelectCol>)
    requires Layout(db, src) && |keys| > 0 && NoneMatched(db, src, keys)
    ensures SourceIn(db, RuleSelect(src, keys, cols).source)
    ensures EvalSelect(db, RuleSelect(src, keys, cols)) == []
  {
    var nm, rf := src.noMatching, src.referential;
    var ts := EvalSelect(db, RuleSelect(src, keys, cols));
    RuleSelectMember(db, src, keys, cols, []);
    if |ts| > 0 {
      var t := ts[0];
      assert t in ts;
      RuleSelectMember(db, src, keys, cols, t);
    }
  }

  lemma QuietIds(db: Db, src: Sources, keys: seq<(string, string)>)
    requires Layout(db, src) && |keys| > 0 && NoneMatched(db, src, keys)
    ensures SourceIn(db, RuleSelect(src, keys, [Column(IdCol(src))]).source)
    ensures InValues(EvalSelect(db, RuleSelect(src, keys, [Column(IdCol(src))]))) == {}
  {
    QuietSelect(db, src, keys, [Column(IdCol(src))]);
  }

  /** A rule with nothing left to match changes no table. */
  lemma QuietStep(db: Db, m: Matcher, literals: seq<(string, string)>, aliases: seq<string>)
    requires Layout(db, m.src) && |aliases| > 0 && Purged(db, m.src, aliases)
    requires Seqs.NoDuplicates(ColsMatch(m.src, literals).1)
    ensures Step(db, m, literals, aliases) == Success((db, PlanRule(m, literals, aliases).value.after))
  {
    var src := m.src;
    var p := PlanRule(m, literals, aliases).value;
    var keys := p.cond.keys;
    assert NoneMatched(db, src, keys);
    RuleSelectScoped(src, keys, p.matchSelect.cols);
    RuleSelectScoped(src, keys, [Column(IdCol(src))]);
    QuietSelect(db, src, keys, p.matchSelect.cols);
    InsertNothing(db, src.matching, p.names, p.matchSelect);
    QuietIds(db, src, keys);
    DeleteInNothing(db, p.delete);
  }

  /** Idempotence: running a rule a second time changes nothing, neither the
      tables nor the matcher's builders. */
  lemma StepIdempotent(db: Db, m: Matcher, literals: seq<(string, string)>, aliases: seq<string>)
    requires Layout(db, m.src) && IdsPresent(db, m.src) && |aliases| > 0
    requires Step(db, m, literals, aliases).Success?
    ensures var (db', m') := Step(db, m, literals, aliases).value;
            Step(db', m', literals, aliases) == Success((db', m'))
  {
    var (db', m') := Step(db, m, literals, aliases).value;
    StepUnfold(db, m, literals, aliases);
    StepExactly(db, m, literals, aliases, false);
    PlanIgnoresBuilderState(m, m', literals, aliases);
    StepInserts(db, m, literals, aliases);
    QuietStep(db', m', literals, aliases);
    assert PlanRule(m', literals, aliases).value.after == m';
  }

  /** The rules of the 'drm' section, run in order, each on the tables the
      previous ones left; a raising rule leaves the earlier rules' effects. */
  function RunRules(db: Db, m: Matcher, rules: Rules, literalsOf: string -> seq<(string, string)>): (r: Run<(Db, Matcher)>)
    ensures r.Final().1.src == m.src
    decreases |rules|
  {
    if |rules| == 0 then Completed((db, m))
    else
      match Step(db, m, literalsOf(rules[0].0), rules[0].1)
      case Failure(e) => Aborted((db, m), e)
      case Success((db1, m1)) => RunRules(db1, m1, rules[1..], literalsOf)
  }

  /** `execute_matching` behind the `_can_matcher_be_used` gate: without
      'drm' rules the matcher raises before any statement, leaving the tables
      and builders as they were. */
  function Execute(db: Db, m: Matcher, p: Policy, literalsOf: string -> seq<(string, string)>): (r: Run<(Db, Matcher)>)
    ensures !HasRuleType(p, MatchingType) ==> r == Aborted((db, m), DirectResidualMatchingNotInPolicy)
    ensures r.Completed? ==> HasRuleType(p, MatchingType)
  {
    match CanMatcherBeUsed(p)
    case Failure(e) => Aborted((db, m), e)
    case Success(rules) => RunRules(db, m, rules, literalsOf)
  }

  /** Any rule, with or without aliases, keeps the layout and the referential
      table and only removes residual rows. */
  lemma StepShrinks(db: Db, m: Matcher, literals: seq<(string, string)>, aliases: seq<string>)
    requires Layout(db, m.src) && IdsPresent(db, m.src) && Step(db, m, literals, aliases).Success?
    ensures var db' := Step(db, m, literals, aliases).value.0;
            && Layout(db', m.src) && IdsPresent(db', m.src)
            && db'[m.src.referential] == db[m.src.referential]
            && multiset(db'[m.src.noMatching]) <= multiset(db[m.src.noMatching])
  {
    var db' := Step(db, m, literals, aliases).value.0;
    forall row | row in db'[m.src.noMatching] ensures Field(row, m.src.matchingId).Some? {
      assert row in multiset(db'[m.src.noMatching]);
    }
  }

  /** Across a run of rules the referential table is unchanged, the
      no-matching table only loses rows, and every rule's aliases resolve. */
  lemma {:induction false} RunRulesShrinks(db: Db, m: Matcher, rules: Rules, literalsOf: string -> seq<(string, string)>)
    requires Layout(db, m.src) && IdsPresent(db, m.src)
    requires RunRules(db, m, rules, literalsOf).Completed?
    ensures var db' := RunRules(db, m, rules, literalsOf).state.0;
            && Layout(db', m.src)
            && db'[m.src.referential] == db[m.src.referential]
            && multiset(db'[m.src.noMatching]) <= multiset(db[m.src.noMatching])
            && (forall i :: 0 <= i < |rules| ==> JoinKeys(m.src, rules[i].1).Success?)
    decreases |rules|
  {
    if |rules| > 0 {
      var db1, m1 := RunRulesFirst(db, m, rules, literalsOf);
      RunRulesShrinks(db1, m1, rules[1..], literalsOf);
      ResolvesTail(m.src, rules);
    }
  }

  /** The first rule of a completed run: the tables and builders it leaves,
      on which the other rules run, and what it keeps. */
  lemma RunRulesFirst(db: Db, m: Matcher, rules: Rules, literalsOf: string -> seq<(string, string)>) returns (db1: Db, m1: Matcher)
    requires Layout(db, m.src) && IdsPresent(db, m.src)
    requires |rules| > 0 && RunRules(db, m, rules, literalsOf).Completed?
    ensures RunRules(db, m, rules, literalsOf) == RunRules(db1, m1, rules[1..], literalsOf)
    ensures m1.src == m.src && Layout(db1, m.src) && IdsPresent(db1, m.src)
    ensures db1[m.src.referential] == db[m.src.referential]
    ensures multiset(db1[m.src.noMatching]) <= multiset(db[m.src.noMatching])
    ensures JoinKeys(m.src, rules[0].1).Success?
  {
    RunRulesCons(db, m, rules, literalsOf);
    db1, m1 := Step(db, m, literalsOf(rules[0].0), rules[0].1).value.0, Step(db, m, literalsOf(rules[0].0), rules[0].1).value.1;
    StepResolves(db, m, literalsOf(rules[0].0), rules[0].1);
    StepShrinks(db, m, literalsOf(rules[0].0), rules[0].1);
  }

  /** Every rule resolves when the first one and all the others do. */
  lemma ResolvesTail(src: Sources, rules: Rules)
    requires |rules| > 0 && JoinKeys(src, rules[0].1).Success?
    requires forall i :: 0 <= i < |rules[1..]| ==> JoinKeys(src, rules[1..][i].1).Success?
    ensures forall i :: 0 <= i < |rules| ==> JoinKeys(src, rules[i].1).Success?
  {
    forall i | 0 < i < |rules| ensures JoinKeys(src, rules[i].1).Success? {
      assert rules[1..][i - 1] == rules[i];
    }
  }

  /** A completed run of rules is a completed first rule, then a completed
      run of the others. */
  lemma RunRulesCons(db: Db, m: Matcher, rules: Rules, literalsOf: string -> seq<(string, string)>)
    requires |rules| > 0 && RunRules(db, m, rules, literalsOf).Completed?
    ensures Step(db, m, literalsOf(rules[0].0), rules[0].1).Success?
    ensures var (db1, m1) := Step(db, m, literalsOf(rules[0].0), rules[0].1).value;
            RunRules(db, m, rules, literalsOf) == RunRules(db1, m1, rules[1..], literalsOf)
  {
  }

  /** A rule that runs has aliases that all resolve. */
  lemma StepResolves(db: Db, m: Matcher, literals: seq<(string, string)>, aliases: seq<string>)
    requires Step(db, m, literals, aliases).Success?
    ensures JoinKeys(m.src, aliases).Success?
  {
  }

  /** Removing residual rows keeps a rule purged. */
  lemma PurgedShrink(db1: Db, db2: Db, src: Sources, aliases: seq<string>)
    requires src.noMatching in db1 && src.referential in db1 && src.noMatching in db2 && src.referential in db2
    requires Purged(db1, src, aliases)
    requires db2[src.referential] == db1[src.referential]
    requires multiset(db2[src.noMatching]) <= multiset(db1[src.noMatching])
    ensures Purged(db2, src, aliases)
  {
    forall row | row in db2[src.noMatching] ensures row in db1[src.noMatching] {
      assert row in multiset(db2[src.noMatching]);
    }
  }

  /** After all rules ran, every rule with aliases stays purged: a later rule
      only removes residual rows, so it cannot make an earlier rule's join
      succeed again. */
  lemma {:induction false} RunRulesPurged(db: Db, m: Matcher, rules: Rules, literalsOf: string -> seq<(string, string)>)
    requires Layout(db, m.src) && IdsPresent(db, m.src)
    requires RunRules(db, m, rules, literalsOf).Completed?
    ensures var db' := RunRules(db, m, rules, literalsOf).state.0;
            && Layout(db', m.src)
            && forall i :: 0 <= i < |rules| && |rules[i].1| > 0 ==> Purged(db', m.src, rules[i].1)
    decreases |rules|
  {
    RunRulesShrinks(db, m, rules, literalsOf);
    if |rules| > 0 {
      var (db1, m1) := Step(db, m, literalsOf(rules[0].0), rules[0].1).value;
      var db' := RunRules(db, m, rules, literalsOf).state.0;
      assert db' == RunRules(db1, m1, rules[1..], literalsOf).state.0;
      StepShrinks(db, m, literalsOf(rules[0].0), rules[0].1);
      RunRulesShrinks(db1, m1, rules[1..], literalsOf);
      RunRulesPurged(db1, m1, rules[1..], literalsOf);
      if |rules[0].1| > 0 {
        StepExactly(db, m, literalsOf(rules[0].0), rules[0].1, false);
        assert Purged(db1, m.src, rules[0].1);
        PurgedShrink(db1, db', m.src, rules[0].1);
      }
      forall i | 1 <= i < |rules| && |rules[i].1| > 0 ensures Purged(db', m.src, rules[i].1) {
        assert rules[1..][i - 1] == rules[i];
      }
    }
  }
}
