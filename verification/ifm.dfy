/** The indirect matcher (IFM): for each rule of the policy's 'ifm' section,
    it means to join the residual rows of one target with the rows already in
    the matching table, on the rule's target columns, and to insert the joined
    rows into the matching table. Unlike the residual matcher it deletes
    nothing from the no-matching table, and it runs inside a database session
    it commits after every rule.

    As written, a rule's select joins the no-matching table to the
    referential table while its ON clause reads the matching table, so the
    database refuses it unless the two are the same table (`StepRejected`);
    `IntendedStep` is the rule joining the matching table. */
module Ifm {
  import opened Wrappers
  import opened Errors
  import opened Relational
  import opened Statements
  import opened DbMatcher
  import CB = ConditionBuilder
  import SB = SelectBuilder

  const MatchingType := "ifm"
  const LiteralType := "indirect"
  const LiteralScope := "full"
  /** The column, in both the no-matching and the matching table, naming the target of a row. */
  const TgtNameColumn := "TGT_NAME"

  /** The matcher object: its data sources and the builders it uses. */
  datatype Matcher = Matcher(
    src: Sources,
    joinB: CB.CondBuilder,
    whereB: CB.CondBuilder,
    sel: SB.SelectState)

  /** `_can_matcher_be_used` */
  function CanMatcherBeUsed(p: Policy): (r: Result<Rules, Error>)
    ensures r.Success? <==> HasRuleType(p, MatchingType)
    ensures r.Success? ==> r.value == p[MatchingType] && |r.value| > 0
    ensures r.Failure? ==> r.error == IndirectMatchingNotInPolicy
  {
    if HasRuleType(p, MatchingType) then Success(p[MatchingType]) else Failure(IndirectMatchingNotInPolicy)
  }

  /** Resolves each alias to the target column it names; the same column is
      read from the no-matching and from the matching table. */
  function JoinKeys(src: Sources, aliases: seq<string>): (r: Result<seq<(string, string)>, Error>)
    ensures r.Success? <==> forall i :: 0 <= i < |aliases| ==> aliases[i] in src.targetAlias
    ensures r.Success? ==>
              && |r.value| == |aliases|
              && forall i :: 0 <= i < |aliases| ==>
                   r.value[i] == (src.targetAlias[aliases[i]], src.targetAlias[aliases[i]])
    ensures r.Failure? ==> exists i :: 0 <= i < |aliases| && r.error == AliasNotResolvable(aliases[i])
  {
    if |aliases| == 0 then Success([])
    else
      var a := aliases[0];
      if a !in src.targetAlias then Failure(AliasNotResolvable(a))
      else
        var rest := JoinKeys(src, aliases[1..]);
        if rest.Failure? then Failure(rest.error)
        else Success([(src.targetAlias[a], src.targetAlias[a])] + rest.value)
  }

  /** The WHERE condition `_get_conditions` returns: this target's residual rows. */
  function ResidualFilter(src: Sources): Cond {
    EqVal(ColRef(src.noMatching, TgtNameColumn), src.targetName)
  }

  /** `_get_conditions`. The join pairs each key column of the no-matching
      table with the same column of the matching table. After computing the
      returned WHERE condition the where builder goes on to conjoin it with
      "matching `TGT_NAME` differs from the target"; that conjunction stays in
      the builder and is not returned. */
  function GetConditions(m: Matcher, aliases: seq<string>): (r: Result<(Conditions, Matcher), Error>)
    ensures r.Success? <==> JoinKeys(m.src, aliases).Success?
    ensures r.Success? ==>
              var c := r.value.0;
              && c.keys == JoinKeys(m.src, aliases).value
              && c.join == LeftAnd(CB.EqLeaves(KeyPairs(m.src.noMatching, m.src.matching, c.keys)))
              && (c.join.Some? <==> |aliases| > 0)
              && (|aliases| > 0 ==> Leaves(c.join.value) == CB.EqLeaves(KeyPairs(m.src.noMatching, m.src.matching, c.keys)))
              && c.filter == ResidualFilter(m.src)
              && CB.GetCondition(r.value.1.whereB) ==
                   Some(And(c.filter, NeVal(ColRef(m.src.matching, TgtNameColumn), m.src.targetName)))
              && r.value.1.src == m.src && r.value.1.sel == m.sel
  {
    var keys :- JoinKeys(m.src, aliases);
    var pairs := KeyPairs(m.src.noMatching, m.src.matching, keys);
    var join := CB.FoldEqualCols(m.joinB, pairs);
    CB.FoldEqualColsIsLeftAnd(m.joinB, pairs);
    var tgtName := m.src.targetName;
    var where1 := CB.EqualValue(CB.CreateCondition(m.whereB), ColRef(m.src.noMatching, TgtNameColumn), tgtName);
    var filter := CB.GetCondition(where1).value;
    var where2 := CB.NotEqualValue(CB.CreateCondition(where1), ColRef(m.src.matching, TgtNameColumn), tgtName);
    var where3 := CB.AndCondition(where2, Some(filter));
    var joinB := if |pairs| == 0 then m.joinB else CB.CondBuilder(join);
    Success((Conditions(join, filter, keys), m.(joinB := joinB, whereB := where3)))
  }

  /** The condition left in the where builder is stricter than the returned
      one: a residual row of the target paired with a matching row of the
      same target satisfies the returned condition but not the builder's. */
  lemma WhereBuilderNotReturned(m: Matcher, aliases: seq<string>)
    requires GetConditions(m, aliases).Success? && m.src.noMatching != m.src.matching
    ensures var (c, m') := GetConditions(m, aliases).value;
            exists bd :: Holds(c.filter, bd) && !Holds(CB.GetCondition(m'.whereB).value, bd)
  {
    var (c, m') := GetConditions(m, aliases).value;
    var row: Row := map[TgtNameColumn := Some(m.src.targetName)];
    var bd := Pair(m.src.noMatching, row, m.src.matching, row);
    assert Holds(c.filter, bd) && !Holds(CB.GetCondition(m'.whereB).value, bd);
  }

  /** `_get_cols_no_match`: literal columns, then the target's columns mapped
      to the no-matching table, given as (target column, no-matching name)
      pairs; the names are built in parallel. */
  function ColsNoMatch(literals: seq<(string, string)>, target: string, mapped: seq<(string, string)>): (r: (seq<SelectCol>, seq<string>))
    ensures |r.0| == |r.1| == |literals| + |mapped|
    ensures forall i :: 0 <= i < |literals| ==>
              r.0[i] == Literal(literals[i].0, literals[i].1) && r.1[i] == literals[i].1
    ensures forall i :: 0 <= i < |mapped| ==>
              r.0[|literals| + i] == Column(ColRef(target, mapped[i].0)) && r.1[|literals| + i] == mapped[i].1
  {
    var lits := seq(|literals|, i requires 0 <= i < |literals| => Literal(literals[i].0, literals[i].1));
    var litNames := seq(|literals|, i requires 0 <= i < |literals| => literals[i].1);
    var cols := seq(|mapped|, i requires 0 <= i < |mapped| => Column(ColRef(target, mapped[i].0)));
    var names := seq(|mapped|, i requires 0 <= i < |mapped| => mapped[i].1);
    (lits + cols, litNames + names)
  }

  /** What `execute_matching` asks of the connection and the database, in order. */
  datatype Effect =
    | OpenSession
    | InsertRows(table: string, names: seq<string>, query: Select)
    | Commit
    | CloseSession

  datatype State = State(db: Db, m: Matcher, session: bool, effects: seq<Effect>)

  /** One rule, as written: build the select (the no-matching table joined to
      the referential table), insert its rows into the matching table, commit. */
  function Step(st: State, literals: seq<(string, string)>, aliases: seq<string>): (r: Result<State, Error>)
    ensures r.Success? <==>
              && GetConditions(st.m, aliases).Success?
              && ExecInsert(st.db, st.m.src.matching, ColsMatch(st.m.src, literals).1,
                            SelectChain(st.m.sel, st.m.src, ColsMatch(st.m.src, literals).0, GetConditions(st.m, aliases).value.0).1).Success?
    ensures r.Success? ==>
              var n := |st.effects|;
              && |r.value.effects| == n + 2 && r.value.effects[..n] == st.effects
              && r.value.effects[n].InsertRows? && r.value.effects[n].table == st.m.src.matching
              && r.value.effects[n].names == ColsMatch(st.m.src, literals).1
              && r.value.effects[n + 1] == Commit
              && r.value.session == st.session && r.value.m.src == st.m.src
              && r.value.db.Keys == st.db.Keys
              && (forall t :: t in st.db && t != st.m.src.matching ==> r.value.db[t] == st.db[t])
  {
    var src := st.m.src;
    var (cols, names) := ColsMatch(src, literals);
    var (cond, m1) :- GetConditions(st.m, aliases);
    var (s1, q) := SelectChain(m1.sel, src, cols, cond);
    var db1 :- ExecInsert(st.db, src.matching, names, q);
    Success(State(db1, m1.(sel := s1), st.session, st.effects + [InsertRows(src.matching, names, q), Commit]))
  }

  /** The effects of a run of rules: per rule, in order, an insert into the
      matching table with that rule's column names, then a commit. */
  predicate RuleEffects(es: seq<Effect>, matching: string, rules: Rules, literalsOf: string -> seq<(string, string)>, src: Sources)
    decreases |es|
  {
    if |es| == 0 then true
    else
      && |es| >= 2 && |rules| > 0
      && es[0].InsertRows? && es[0].table == matching && es[0].names == ColsMatch(src, literalsOf(rules[0].0)).1
      && es[1] == Commit
      && RuleEffects(es[2..], matching, rules[1..], literalsOf, src)
  }

  function RunRules(st: State, rules: Rules, literalsOf: string -> seq<(string, string)>): (r: Run<State>)
    ensures r.Final().m.src == st.m.src && r.Final().session == st.session
    ensures Seqs.IsPrefix(st.effects, r.Final().effects)
    ensures r.Final().db.Keys == st.db.Keys
    ensures forall t :: t in st.db && t != st.m.src.matching ==> r.Final().db[t] == st.db[t]
    decreases |rules|
  {
    if |rules| == 0 then Completed(st)
    else
      match Step(st, literalsOf(rules[0].0), rules[0].1)
      case Failure(e) => Aborted(st, e)
      case Success(st1) =>
        var r := RunRules(st1, rules[1..], literalsOf);
        Seqs.PrefixTransitive(st.effects, st1.effects, r.Final().effects);
        r
  }

  /** `execute_matching` behind the `_can_matcher_be_used` gate: open a
      session unless one is open, run the rules, close the session. A raising
      rule leaves the session open and the earlier rules' rows committed. */
  function Execute(db: Db, m: Matcher, session: bool, p: Policy, literalsOf: string -> seq<(string, string)>): (r: Run<State>)
    ensures !HasRuleType(p, MatchingType) ==> r == Aborted(State(db, m, session, []), IndirectMatchingNotInPolicy)
    ensures r.Completed? ==> HasRuleType(p, MatchingType) && !r.state.session
    ensures r.Aborted? && HasRuleType(p, MatchingType) ==> r.state.session
    ensures r.Final().db.Keys == db.Keys
    ensures forall t :: t in db && t != m.src.matching ==> r.Final().db[t] == db[t]
  {
    match CanMatcherBeUsed(p)
    case Failure(e) => Aborted(State(db, m, session, []), e)
    case Success(rules) =>
      var st := State(db, m, true, if session then [] else [OpenSession]);
      match RunRules(st, rules, literalsOf)
      case Aborted(s, e) => Aborted(s, e)
      case Completed(s) => Completed(s.(session := false, effects := s.effects + [CloseSession]))
  }

  /** The effects a run of rules appends: one insert-then-commit per rule
      run; all rules when the run completes, fewer when one raises. */
  lemma {:induction false} RunRulesEffects(st: State, rules: Rules, literalsOf: string -> seq<(string, string)>)
    ensures var r := RunRules(st, rules, literalsOf);
            var es := r.Final().effects[|st.effects|..];
            && RuleEffects(es, st.m.src.matching, rules, literalsOf, st.m.src)
            && (r.Completed? <==> |es| == 2 * |rules|)
    decreases |rules|
  {
    var r := RunRules(st, rules, literalsOf);
    if |rules| > 0 {
      var step := Step(st, literalsOf(rules[0].0), rules[0].1);
      if step.Failure? {
        assert r.Final().effects[|st.effects|..] == [];
      } else {
        var st1 := step.value;
        var n := |st.effects|;
        assert |st1.effects| == n + 2;
        var r1 := RunRules(st1, rules[1..], literalsOf);
        RunRulesEffects(st1, rules[1..], literalsOf);
        assert r == r1;
        var f := r1.Final().effects;
        assert RuleEffects(f[n + 2..], st.m.src.matching, rules[1..], literalsOf, st.m.src);
        assert f[n] == st1.effects[n] && f[n + 1] == st1.effects[n + 1];
        PrependRule(f, n, st.m.src.matching, rules, literalsOf, st.m.src);
      }
    }
  }

  /** An insert-then-commit for the first rule in front of the effects of
      the other rules gives the effects of all of them. */
  lemma PrependRule(es: seq<Effect>, n: nat, matching: string, rules: Rules, literalsOf: string -> seq<(string, string)>, src: Sources)
    requires |rules| > 0 && n + 2 <= |es|
    requires es[n].InsertRows? && es[n].table == matching && es[n].names == ColsMatch(src, literalsOf(rules[0].0)).1
    requires es[n + 1] == Commit
    requires RuleEffects(es[n + 2..], matching, rules[1..], literalsOf, src)
    ensures RuleEffects(es[n..], matching, rules, literalsOf, src)
    ensures |es[n..]| == |es[n + 2..]| + 2
  {
    assert es[n..][2..] == es[n + 2..];
  }

  /** The whole trace of a completed run: the session is opened exactly when
      none was open, every rule inserts and commits, the session is closed
      last, and nothing is deleted. */
  lemma ExecuteTrace(db: Db, m: Matcher, session: bool, p: Policy, literalsOf: string -> seq<(string, string)>)
    requires Execute(db, m, session, p, literalsOf).Completed?
    ensures var es := Execute(db, m, session, p, literalsOf).state.effects;
            var open := if session then 0 else 1;
            && |es| == open + 2 * |p[MatchingType]| + 1
            && (!session <==> es[0] == OpenSession)
            && RuleEffects(es[open..|es| - 1], m.src.matching, p[MatchingType], literalsOf, m.src)
            && es[|es| - 1] == CloseSession
  {
    var rules := p[MatchingType];
    var st := State(db, m, true, if session then [] else [OpenSession]);
    var run := RunRules(st, rules, literalsOf);
    ExecuteUnfold(db, m, session, p, literalsOf);
    RunRulesEffects(st, rules, literalsOf);
    TraceShape(st.effects, run.state.effects, m.src.matching, rules, literalsOf, m.src);
  }

  /** A completed execution is a completed run of the policy's rules from an
      open session, followed by the close. */
  lemma ExecuteUnfold(db: Db, m: Matcher, session: bool, p: Policy, literalsOf: string -> seq<(string, string)>)
    requires Execute(db, m, session, p, literalsOf).Completed?
    ensures HasRuleType(p, MatchingType) && |p[MatchingType]| > 0
    ensures var st := State(db, m, true, if session then [] else [OpenSession]);
            var run := RunRules(st, p[MatchingType], literalsOf);
            && run.Completed?
            && Execute(db, m, session, p, literalsOf).state.effects == run.state.effects + [CloseSession]
  {
  }

  /** The opening effects, the effects of every rule, then the close. */
  lemma TraceShape(pre: seq<Effect>, all: seq<Effect>, matching: string, rules: Rules, literalsOf: string -> seq<(string, string)>, src: Sources)
    requires pre == [] || pre == [OpenSession]
    requires Seqs.IsPrefix(pre, all) && |rules| > 0
    requires RuleEffects(all[|pre|..], matching, rules, literalsOf, src) && |all[|pre|..]| == 2 * |rules|
    ensures var es := all + [CloseSession];
            var open := |pre|;
            && |es| == open + 2 * |rules| + 1
            && (pre == [OpenSession] <==> es[0] == OpenSession)
            && RuleEffects(es[open..|es| - 1], matching, rules, literalsOf, src)
            && es[|es| - 1] == CloseSession
  {
    var open := |pre|;
    var tail := all[open..];
    var es := all + [CloseSession];
    assert all == pre + tail;
    assert es[open..|es| - 1] == tail;
    if pre == [] {
      assert es[0] == tail[0] && tail[0].InsertRows?;
    }
  }

  /** The tables the matcher reads: the no-matching and matching tables are
      distinct and present; the referential table too. */
  predicate Layout(db: Db, src: Sources) {
    && src.noMatching in db && src.referential in db && src.matching in db
    && src.noMatching != src.referential && src.noMatching != src.matching
  }

  /** The select a rule builds joins the no-matching table to the referential
      table, but its join condition reads the matching table: it reads only
      tables of its FROM clause exactly when the referential table is the
      matching table. */
  lemma SelectScope(m: Matcher, literals: seq<(string, string)>, aliases: seq<string>)
    requires GetConditions(m, aliases).Success? && |aliases| > 0
    requires m.src.noMatching != m.src.referential && m.src.noMatching != m.src.matching
    ensures var (cols, _) := ColsMatch(m.src, literals);
            var q := SelectChain(m.sel, m.src, cols, GetConditions(m, aliases).value.0).1;
            WellScoped(q) <==> m.src.referential == m.src.matching
  {
    var src := m.src;
    var (cols, _) := ColsMatch(src, literals);
    var c := GetConditions(m, aliases).value.0;
    var q := SelectChain(m.sel, src, cols, c).1;
    KeyJoinTables(src.noMatching, src.matching, c.keys);
    assert q.source.on == KeyJoin(src.noMatching, src.matching, c.keys);
    assert ColTables(cols) <= {src.noMatching, src.referential};
  }

  /** A rule with aliases, joining the referential table while its ON clause
      reads the matching table, is refused by the database whenever the two
      tables differ: the rule raises before inserting anything. */
  lemma StepRejected(st: State, literals: seq<(string, string)>, aliases: seq<string>)
    requires Layout(st.db, st.m.src) && st.m.src.referential != st.m.src.matching && |aliases| > 0
    requires JoinKeys(st.m.src, aliases).Success?
    ensures Step(st, literals, aliases) == Failure(ColumnOutsideJoin)
  {
    var src := st.m.src;
    var c := GetConditions(st.m, aliases).value.0;
    JoinOutside(src.noMatching, src.matching, src.referential, c.keys,
                JoinTables(src.noMatching, src.referential, KeyJoin(src.noMatching, src.matching, c.keys), false));
    StepRefused(st, literals, aliases);
  }

  /** A join of `l` and `other` on a key join of `l` with a third table `r`
      reads a table outside the join. */
  lemma JoinOutside(l: string, r: string, other: string, keys: seq<(string, string)>, s: Source)
    requires |keys| > 0 && r != l && r != other
    requires s == JoinTables(l, other, KeyJoin(l, r, keys), false)
    ensures !OnInScope(s)
  {
    KeyJoinTables(l, r, keys);
    ReadsOnlyTables(s.on, l, other);
    assert r in Tables(s.on);
  }

  /** The source of a rule's select: the no-matching table joined to the
      referential table on the key join of the no-matching and matching tables. */
  lemma RuleSource(m: Matcher, cols: seq<SelectCol>, aliases: seq<string>)
    requires GetConditions(m, aliases).Success? && |aliases| > 0
    ensures var c := GetConditions(m, aliases).value.0;
            && |c.keys| > 0
            && SelectChain(m.sel, m.src, cols, c).1.source ==
                 JoinTables(m.src.noMatching, m.src.referential, KeyJoin(m.src.noMatching, m.src.matching, c.keys), false)
  {
  }

  /** A rule whose select joins out of scope raises the database's refusal. */
  lemma StepRefused(st: State, literals: seq<(string, string)>, aliases: seq<string>)
    requires GetConditions(st.m, aliases).Success? && |aliases| > 0
    requires st.m.src.noMatching in st.db && st.m.src.referential in st.db && st.m.src.matching in st.db
    requires var src := st.m.src;
             !OnInScope(JoinTables(src.noMatching, src.referential,
                                   KeyJoin(src.noMatching, src.matching, GetConditions(st.m, aliases).value.0.keys), false))
    ensures Step(st, literals, aliases) == Failure(ColumnOutsideJoin)
  {
    var src := st.m.src;
    var (cols, names) := ColsMatch(src, literals);
    var c := GetConditions(st.m, aliases).value.0;
    RuleSource(st.m, cols, aliases);
    var q := SelectChain(st.m.sel, src, cols, c).1;
    assert SourceTables(q.source) == {src.noMatching, src.referential};
    InsertRefused(st.db, src.matching, names, q);
    StepFailure(st, literals, aliases);
  }

  /** A rule whose aliases resolve raises what its insert raises. */
  lemma StepFailure(st: State, literals: seq<(string, string)>, aliases: seq<string>)
    requires GetConditions(st.m, aliases).Success?
    ensures var (cols, names) := ColsMatch(st.m.src, literals);
            var q := SelectChain(st.m.sel, st.m.src, cols, GetConditions(st.m, aliases).value.0).1;
            var ins := ExecInsert(st.db, st.m.src.matching, names, q);
            ins.Failure? ==> Step(st, literals, aliases) == Failure(ins.error)
  {
  }

  /** So a run whose first rule has aliases raises at that rule with the
      session left open, no rows inserted and nothing committed. */
  lemma ExecuteRejected(db: Db, m: Matcher, session: bool, p: Policy, literalsOf: string -> seq<(string, string)>)
    requires Layout(db, m.src) && m.src.referential != m.src.matching
    requires HasRuleType(p, MatchingType)
    requires |p[MatchingType][0].1| > 0 && JoinKeys(m.src, p[MatchingType][0].1).Success?
    ensures var r := Execute(db, m, session, p, literalsOf);
            && r == Aborted(r.state, ColumnOutsideJoin)
            && r.state.session && r.state.db == db
            && r.state.effects == (if session then [] else [OpenSession])
  {
    var rules := p[MatchingType];
    var st := State(db, m, true, if session then [] else [OpenSession]);
    StepRejected(st, literalsOf(rules[0].0), rules[0].1);
  }

  /** A rule with aliases that succeeds reads the matching table as its
      referential table; it then appends to the matching table one row per
      pair of a residual row of the target and a matching row whose key
      columns hold the same non-NULL values, and the no-matching table keeps
      every row. */
  lemma StepInserts(st: State, literals: seq<(string, string)>, aliases: seq<string>)
    requires Layout(st.db, st.m.src) && |aliases| > 0
    requires Step(st, literals, aliases).Success?
    ensures st.m.src.referential == st.m.src.matching
    ensures var src := st.m.src;
            var keys := JoinKeys(src, aliases).value;
            var names := ColsMatch(src, literals).1;
            var q := SelectChain(st.m.sel, src, ColsMatch(src, literals).0, GetConditions(st.m, aliases).value.0).1;
            var db' := Step(st, literals, aliases).value.db;
            var ts := EvalSelect(st.db, q);
            && KeyJoinSelect(q, keys, TgtNameColumn, src.targetName)
            && SourceIn(st.db, q.source)
            && db'[src.noMatching] == st.db[src.noMatching]
            && Appended(st.db[src.matching], db'[src.matching], names, ts)
            && forall t :: t in ts <==>
                 exists a, c :: a in st.db[src.noMatching] && c in st.db[src.matching] &&
                   Field(a, TgtNameColumn) == Some(src.targetName) && KeysMatch(a, c, keys) &&
                   t == Project(Pair(src.noMatching, a, src.matching, c), q.cols)
  {
    var src := st.m.src;
    var keys := JoinKeys(src, aliases).value;
    var (cols, names) := ColsMatch(src, literals);
    var q := SelectChain(st.m.sel, src, cols, GetConditions(st.m, aliases).value.0).1;
    if src.referential != src.matching {
      StepRejected(st, literals, aliases);
    }
    StepQuery(st, literals, aliases);
    StepTables(st, literals, aliases);
    forall t ensures t in EvalSelect(st.db, q) <==>
                 exists a, c :: a in st.db[src.noMatching] && c in st.db[src.matching] &&
                   Field(a, TgtNameColumn) == Some(src.targetName) && KeysMatch(a, c, keys) &&
                   t == Project(Pair(src.noMatching, a, src.matching, c), q.cols)
    {
      KeyJoinSelectMember(st.db, q, keys, TgtNameColumn, src.targetName, t);
    }
  }

  /** The sources the rule evidently means to read, as the class
      documentation describes indirect matching (residual rows joined with
      the matching table): the matching table takes the referential table's
      place, and each referential column mapped to the matching table is read
      from the matching table under its matching-table name. */
  function IntendedSources(src: Sources): (r: Sources)
    ensures r.referential == r.matching == src.matching
    ensures r.noMatching == src.noMatching && r.targetAlias == src.targetAlias && r.targetName == src.targetName
    ensures |r.refMapped| == |src.refMapped|
    ensures forall i :: 0 <= i < |src.refMapped| ==> r.refMapped[i] == (src.refMapped[i].1, src.refMapped[i].1)
  {
    src.(referential := src.matching,
         refMapped := seq(|src.refMapped|, i requires 0 <= i < |src.refMapped| => (src.refMapped[i].1, src.refMapped[i].1)))
  }

  /** The state a rule reads when it reads the intended sources. */
  function Retarget(st: State): State {
    st.(m := st.m.(src := IntendedSources(st.m.src)))
  }

  /** The corrected rule: its select joins the residual rows to the matching
      table, the table its join condition reads. */
  function IntendedStep(st: State, literals: seq<(string, string)>, aliases: seq<string>): (r: Result<State, Error>)
    ensures r.Success? <==> Step(Retarget(st), literals, aliases).Success?
    ensures r.Success? ==> r.value.m.src == st.m.src && r.value.db == Step(Retarget(st), literals, aliases).value.db
  {
    var st1 :- Step(Retarget(st), literals, aliases);
    Success(st1.(m := st1.m.(src := st.m.src)))
  }

  /** The select of the corrected rule: the no-matching table joined to the
      matching table on the rule's keys, keeping this target's residual rows. */
  function IntendedSelect(src: Sources, literals: seq<(string, string)>, keys: seq<(string, string)>): (q: Select)
    requires |keys| > 0
    ensures q.source.JoinTables? && q.source.left == src.noMatching && q.source.right == src.matching
  {
    Select(ColsMatch(IntendedSources(src), literals).0,
           JoinTables(src.noMatching, src.matching, KeyJoin(src.noMatching, src.matching, keys), false),
           Some(ResidualFilter(src)))
  }

  /** The corrected rule inserts under the same matching-table names as the rule as written. */
  lemma IntendedNames(src: Sources, literals: seq<(string, string)>)
    ensures ColsMatch(IntendedSources(src), literals).1 == ColsMatch(src, literals).1
  {
    var i1, i2 := ColsMatch(IntendedSources(src), literals).1, ColsMatch(src, literals).1;
    assert forall k :: 0 <= k < |i1| ==> i1[k] == i2[k];
  }

  /** Retargeting keeps the aliases, so the rule's conditions and keys. */
  lemma RetargetConditions(st: State, aliases: seq<string>)
    requires JoinKeys(st.m.src, aliases).Success?
    ensures JoinKeys(Retarget(st).m.src, aliases) == JoinKeys(st.m.src, aliases)
    ensures GetConditions(Retarget(st).m, aliases).Success?
    ensures GetConditions(Retarget(st).m, aliases).value.0.filter == ResidualFilter(st.m.src)
  {
  }

  /** The retargeted rule builds the corrected select. */
  lemma IntendedQuery(st: State, literals: seq<(string, string)>, aliases: seq<string>)
    requires |aliases| > 0 && JoinKeys(st.m.src, aliases).Success?
    ensures var st' := Retarget(st);
            var c := GetConditions(st'.m, aliases).value.0;
            && |c.keys| > 0 && c.keys == JoinKeys(st.m.src, aliases).value
            && SelectChain(st'.m.sel, st'.m.src, ColsMatch(st'.m.src, literals).0, c).1 ==
                 IntendedSelect(st.m.src, literals, c.keys)
  {
    var st' := Retarget(st);
    RetargetConditions(st, aliases);
    RuleSource(st'.m, ColsMatch(st'.m.src, literals).0, aliases);
  }

  /** A rule whose select reads only its joined tables, from present tables,
      with distinct column names, succeeds. */
  lemma StepRuns(st: State, literals: seq<(string, string)>, aliases: seq<string>)
    requires GetConditions(st.m, aliases).Success? && |aliases| > 0
    requires st.m.src.noMatching in st.db && st.m.src.referential in st.db && st.m.src.matching in st.db
    requires Seqs.NoDuplicates(ColsMatch(st.m.src, literals).1)
    requires var src := st.m.src;
             OnInScope(JoinTables(src.noMatching, src.referential,
                                  KeyJoin(src.noMatching, src.matching, GetConditions(st.m, aliases).value.0.keys), false))
    ensures Step(st, literals, aliases).Success?
  {
    var src := st.m.src;
    var (cols, names) := ColsMatch(src, literals);
    var c := GetConditions(st.m, aliases).value.0;
    RuleSource(st.m, cols, aliases);
    var q := SelectChain(st.m.sel, src, cols, c).1;
    assert SourceTables(q.source) == {src.noMatching, src.referential};
  }

  /** Where the rule as written is refused, the corrected rule runs: it
      succeeds whenever its aliases resolve and its column names are distinct. */
  lemma IntendedStepRuns(st: State, literals: seq<(string, string)>, aliases: seq<string>)
    requires st.m.src.noMatching in st.db && st.m.src.matching in st.db
    requires |aliases| > 0 && JoinKeys(st.m.src, aliases).Success?
    requires Seqs.NoDuplicates(ColsMatch(st.m.src, literals).1)
    ensures IntendedStep(st, literals, aliases).Success?
  {
    RetargetReady(st, literals, aliases);
    StepRuns(Retarget(st), literals, aliases);
  }

  /** The retargeted rule meets every condition of `StepRuns`: its join
      reads the no-matching and the matching table, both present. */
  lemma RetargetReady(st: State, literals: seq<(string, string)>, aliases: seq<string>)
    requires st.m.src.noMatching in st.db && st.m.src.matching in st.db
    requires |aliases| > 0 && JoinKeys(st.m.src, aliases).Success?
    requires Seqs.NoDuplicates(ColsMatch(st.m.src, literals).1)
    ensures var st' := Retarget(st);
            var src := st'.m.src;
            && GetConditions(st'.m, aliases).Success?
            && src.noMatching in st'.db && src.referential in st'.db && src.matching in st'.db
            && Seqs.NoDuplicates(ColsMatch(src, literals).1)
            && OnInScope(JoinTables(src.noMatching, src.referential,
                                    KeyJoin(src.noMatching, src.matching, GetConditions(st'.m, aliases).value.0.keys), false))
  {
    var st' := Retarget(st);
    var src := st'.m.src;
    RetargetConditions(st, aliases);
    IntendedNames(st.m.src, literals);
    KeyJoinReadsOnly(src.noMatching, src.matching, GetConditions(st'.m, aliases).value.0.keys);
  }

  /** The corrected rule's effect on the tables: the matching table grows by
      one row per row of the corrected select, laid out on the same names as
      the rule as written; the no-matching table keeps every row. */
  lemma IntendedStepInserts(st: State, literals: seq<(string, string)>, aliases: seq<string>)
    requires st.m.src.noMatching in st.db && st.m.src.matching in st.db && st.m.src.noMatching != st.m.src.matching
    requires |aliases| > 0 && IntendedStep(st, literals, aliases).Success?
    ensures JoinKeys(st.m.src, aliases).Success? && |JoinKeys(st.m.src, aliases).value| > 0
    ensures var src := st.m.src;
            var q := IntendedSelect(src, literals, JoinKeys(src, aliases).value);
            var names := ColsMatch(src, literals).1;
            var db' := IntendedStep(st, literals, aliases).value.db;
            var ts := EvalSelect(st.db, q);
            && SourceIn(st.db, q.source)
            && db'[src.noMatching] == st.db[src.noMatching]
            && Appended(st.db[src.matching], db'[src.matching], names, ts)
  {
    var st' := Retarget(st);
    assert JoinKeys(st.m.src, aliases).Success?;
    IntendedNames(st.m.src, literals);
    IntendedQuery(st, literals, aliases);
    StepTables(st', literals, aliases);
  }

  /** The rows of the corrected select: one per pair of a residual row of
      the target and a matching row whose key columns hold the same non-NULL
      values. */
  lemma IntendedSelectMember(db: Db, src: Sources, literals: seq<(string, string)>, keys: seq<(string, string)>, t: Tuple)
    requires src.noMatching in db && src.matching in db && src.noMatching != src.matching && |keys| > 0
    ensures SourceIn(db, IntendedSelect(src, literals, keys).source)
    ensures var q := IntendedSelect(src, literals, keys);
            t in EvalSelect(db, q) <==>
              exists a, c :: a in db[src.noMatching] && c in db[src.matching] &&
                Field(a, TgtNameColumn) == Some(src.targetName) && KeysMatch(a, c, keys) &&
                t == Project(Pair(src.noMatching, a, src.matching, c), q.cols)
  {
    KeyJoinSelectMember(db, IntendedSelect(src, literals, keys), keys, TgtNameColumn, src.targetName, t);
  }

  /** A rule appends the rows of its select to the matching table and
      leaves the no-matching table alone. */
  lemma StepTables(st: State, literals: seq<(string, string)>, aliases: seq<string>)
    requires Layout(st.db, st.m.src) && Step(st, literals, aliases).Success?
    ensures var src := st.m.src;
            var names := ColsMatch(src, literals).1;
            var q := SelectChain(st.m.sel, src, ColsMatch(src, literals).0, GetConditions(st.m, aliases).value.0).1;
            var db' := Step(st, literals, aliases).value.db;
            var ts := EvalSelect(st.db, q);
            && db'[src.noMatching] == st.db[src.noMatching]
            && Appended(st.db[src.matching], db'[src.matching], names, ts)
  {
    var src := st.m.src;
    var (cols, names) := ColsMatch(src, literals);
    var q := SelectChain(st.m.sel, src, cols, GetConditions(st.m, aliases).value.0).1;
    StepDb(st, literals, aliases);
    var db1 := ExecInsert(st.db, src.matching, names, q).value;
    assert db1[src.noMatching] == st.db[src.noMatching];
  }

  /** The tables after a rule are those its insert leaves. */
  lemma StepDb(st: State, literals: seq<(string, string)>, aliases: seq<string>)
    requires Step(st, literals, aliases).Success?
    ensures var src := st.m.src;
            var (cols, names) := ColsMatch(src, literals);
            var q := SelectChain(st.m.sel, src, cols, GetConditions(st.m, aliases).value.0).1;
            Step(st, literals, aliases).value.db == ExecInsert(st.db, src.matching, names, q).value
  {
  }

  /** The select of a rule reading the matching table as its referential
      table is a key join restricted to the rule's target. */
  lemma StepQuery(st: State, literals: seq<(string, string)>, aliases: seq<string>)
    requires Layout(st.db, st.m.src) && st.m.src.referential == st.m.src.matching && |aliases| > 0
    requires Step(st, literals, aliases).Success?
    ensures var src := st.m.src;
            var q := SelectChain(st.m.sel, src, ColsMatch(src, literals).0, GetConditions(st.m, aliases).value.0).1;
            && KeyJoinSelect(q, JoinKeys(src, aliases).value, TgtNameColumn, src.targetName)
            && SourceIn(st.db, q.source)
  {
  }
}
