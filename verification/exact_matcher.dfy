/** The exact matcher: for every target data source, the target rows whose
    keys equal a referential row's keys are inserted, joined to that row,
    into a fresh matching table, and the target rows that join with no
    referential row into a fresh no-matching table.

    The data sources (`EntityDataSource`) and the created entities
    (`EntityDB`) are not part of this model: a data source is its table, its
    attribute renaming and its keys, and its columns are the renamed
    attributes of its table. */
module ExactMatcher {
  import opened Wrappers
  import opened Errors
  import opened Relational
  import opened Statements
  import Seqs
  import Dicts
  import SU = SqlUtility
  import SE = SqlEngine
  import MB = MatcherBase

  /** A data source: its table, its attributes (original name to renamed
      column, in dict order) and its key attributes. */
  datatype DataSource = DataSource(table: string, attributes: Dicts.Dict<string, string>, keys: seq<string>)

  /** A table the matcher created, with the columns it declared. */
  datatype Entity = Entity(table: string, columns: seq<string>)

  datatype State = State(
    m: MB.Matcher<DataSource>,
    engine: Option<SE.Engine>,
    matching: Option<Entity>,
    noMatching: Option<Entity>)

  const RefPrefix := "ref_"
  const NoMatchingPrefix := "No_"
  /** `get_db_type('str')`, the type of every attribute column. */
  const StrType := SU.GetDbType("str").value

  /** The constructor: no engine and no entity yet. */
  function New(name: string, ref: DataSource): (s: State)
    ensures s.m == MB.New(name, ref) && s.engine.None?
    ensures s.matching.None? && s.noMatching.None?
  {
    State(MB.New(name, ref), None, None, None)
  }

  /** The argument of `set_database_engine`: an `SqlEngine`, or an object of another type. */
  datatype EngineArg = SqlEngineArg(e: SE.Engine) | OtherObject

  /** `set_database_engine`: only a connected `SqlEngine` is stored. */
  function SetDatabaseEngine(s: State, arg: EngineArg): (r: Result<State, Error>)
    ensures arg.OtherObject? ==> r == Failure(ValueErrorDatabaseEngine)
    ensures arg.SqlEngineArg? && !SE.IsConnected(arg.e) ==> r == Failure(NotConnectedToDatabase)
    ensures r.Success? <==> arg.SqlEngineArg? && SE.IsConnected(arg.e)
    ensures r.Success? ==> r.value.engine == Some(arg.e) && r.value.(engine := s.engine) == s
  {
    match arg
    case OtherObject => Failure(ValueErrorDatabaseEngine)
    case SqlEngineArg(e) => if SE.IsConnected(e) then Success(s.(engine := Some(e))) else Failure(NotConnectedToDatabase)
  }

  // ---------------------------------------------------------------------------
  // Table layouts

  /** The attribute pairs of the targets, target after target, each in dict order. */
  function AttributePairs(targets: seq<DataSource>): seq<(string, string)> {
    Seqs.FlatMap((t: DataSource) => t.attributes, targets)
  }

  /** `__get_target_attributes_and_types` over the attribute pairs: a pair
      whose renamed name is not yet a value of the collected dict is assigned
      to it (`d[original] = renamed`), and a 'str' type is appended for it. */
  function CollectTargetAttributes(pairs: seq<(string, string)>): (r: (Dicts.Dict<string, string>, seq<DbType>))
    ensures Seqs.NoDuplicates(Dicts.Keys(r.0)) && Seqs.NoDuplicates(Dicts.Values(r.0))
    ensures |r.0| <= |r.1| <= |pairs|
    ensures forall i :: 0 <= i < |r.1| ==> r.1[i] == StrType
    decreases |pairs|
  {
    if |pairs| == 0 then ([], [])
    else
      var n := |pairs| - 1;
      CollectStep(CollectTargetAttributes(pairs[..n]), pairs[n])
  }

  /** One pair of the collection loop. */
  function CollectStep(acc: (Dicts.Dict<string, string>, seq<DbType>), p: (string, string)): (r: (Dicts.Dict<string, string>, seq<DbType>))
    requires Seqs.NoDuplicates(Dicts.Keys(acc.0)) && Seqs.NoDuplicates(Dicts.Values(acc.0))
    ensures Seqs.NoDuplicates(Dicts.Keys(r.0)) && Seqs.NoDuplicates(Dicts.Values(r.0))
    ensures p.1 in Dicts.Values(acc.0) ==> r == acc
    ensures p.1 !in Dicts.Values(acc.0) ==> r.1 == acc.1 + [StrType] && |r.0| <= |acc.0| + 1
    ensures p.1 !in Dicts.Values(acc.0) && !Dicts.HasKey(acc.0, p.0) ==> r.0 == acc.0 + [p]
  {
    if p.1 in Dicts.Values(acc.0) then acc
    else
      SetKeepsDistinct(acc.0, p.0, p.1);
      (Dicts.Set(acc.0, p.0, p.1), acc.1 + [StrType])
  }

  /** Assigning a value not yet present keeps keys and values distinct, and
      adds at most the assigned pair. */
  lemma SetKeepsDistinct(d: Dicts.Dict<string, string>, o: string, rn: string)
    requires Seqs.NoDuplicates(Dicts.Keys(d)) && Seqs.NoDuplicates(Dicts.Values(d)) && rn !in Dicts.Values(d)
    ensures var r := Dicts.Set(d, o, rn);
            && Seqs.NoDuplicates(Dicts.Keys(r)) && Seqs.NoDuplicates(Dicts.Values(r))
            && |r| <= |d| + 1
            && forall i :: 0 <= i < |r| ==> r[i] in d || r[i] == (o, rn)
  {
    if Dicts.HasKey(d, o) {
      var i := Dicts.IndexOf(d, o);
      ReplaceKeepsDistinct(d, i, o, rn);
    } else {
      assert Dicts.Set(d, o, rn) == d + [(o, rn)];
      AppendKeepsDistinct(d, o, rn);
    }
  }

  lemma AppendKeepsDistinct(d: Dicts.Dict<string, string>, o: string, rn: string)
    requires o !in Dicts.Keys(d) && rn !in Dicts.Values(d)
    requires Seqs.NoDuplicates(Dicts.Keys(d)) && Seqs.NoDuplicates(Dicts.Values(d))
    ensures var r := d + [(o, rn)];
            && Seqs.NoDuplicates(Dicts.Keys(r)) && Seqs.NoDuplicates(Dicts.Values(r))
            && forall j :: 0 <= j < |r| ==> r[j] in d || r[j] == (o, rn)
  {
    var r := d + [(o, rn)];
    assert Dicts.Keys(r) == Dicts.Keys(d) + [o];
    assert Dicts.Values(r) == Dicts.Values(d) + [rn];
    assert forall j :: 0 <= j < |d| ==> r[j] == d[j];
  }

  lemma ReplaceKeepsDistinct(d: Dicts.Dict<string, string>, i: nat, o: string, rn: string)
    requires i < |d| && d[i].0 == o
    requires Seqs.NoDuplicates(Dicts.Keys(d)) && Seqs.NoDuplicates(Dicts.Values(d)) && rn !in Dicts.Values(d)
    ensures var r := d[i := (o, rn)];
            && Seqs.NoDuplicates(Dicts.Keys(r)) && Seqs.NoDuplicates(Dicts.Values(r))
            && forall j :: 0 <= j < |r| ==> r[j] in d || r[j] == (o, rn)
  {
    var r := d[i := (o, rn)];
    var vs := Dicts.Values(d);
    assert Dicts.Keys(r) == Dicts.Keys(d);
    assert Dicts.Values(r) == vs[i := rn];
    assert forall j :: 0 <= j < |r| && j != i ==> r[j] == d[j];
  }

  /** When no original name repeats, every renamed name is kept, every
      collected original name is one of the pairs', and there is exactly one
      type per collected column. */
  lemma {:induction false} CollectExact(pairs: seq<(string, string)>)
    requires Seqs.NoDuplicates(Dicts.Keys(pairs))
    ensures var r := CollectTargetAttributes(pairs);
            && |r.0| == |r.1|
            && (forall k :: 0 <= k < |pairs| ==> pairs[k].1 in Dicts.Values(r.0))
            && (forall i :: 0 <= i < |r.0| ==> r.0[i].0 in Dicts.Keys(pairs))
    decreases |pairs|
  {
    if |pairs| > 0 {
      var n := |pairs| - 1;
      var init := pairs[..n];
      assert pairs == init + [pairs[n]];
      LastKeyFresh(pairs, init);
      CollectExact(init);
      CollectUnfold(pairs);
      var prev := CollectTargetAttributes(init);
      CollectExactStep(prev, init, pairs[n], pairs);
      var r := CollectTargetAttributes(pairs);
      assert r == CollectStep(prev, pairs[n]);
      assert |r.0| == |r.1|;
      assert (forall k :: 0 <= k < |pairs| ==> pairs[k].1 in Dicts.Values(r.0));
    }
  }

  /** One step of `CollectExact`, stated over plain values. */
  lemma CollectExactStep(acc: (Dicts.Dict<string, string>, seq<DbType>), init: seq<(string, string)>, p: (string, string), pairs: seq<(string, string)>)
    requires pairs == init + [p]
    requires Seqs.NoDuplicates(Dicts.Keys(acc.0)) && Seqs.NoDuplicates(Dicts.Values(acc.0))
    requires |acc.0| == |acc.1|
    requires forall k :: 0 <= k < |init| ==> init[k].1 in Dicts.Values(acc.0)
    requires forall i :: 0 <= i < |acc.0| ==> acc.0[i].0 in Dicts.Keys(init)
    requires forall j :: 0 <= j < |init| ==> init[j].0 != p.0
    ensures var r := CollectStep(acc, p);
            && |r.0| == |r.1|
            && (forall k :: 0 <= k < |pairs| ==> pairs[k].1 in Dicts.Values(r.0))
            && (forall i :: 0 <= i < |r.0| ==> r.0[i].0 in Dicts.Keys(pairs))
  {
    assert Dicts.Keys(pairs) == Dicts.Keys(init) + [p.0];
    if p.1 !in Dicts.Values(acc.0) {
      assert p.0 !in Dicts.Keys(init);
      assert !Dicts.HasKey(acc.0, p.0);
      var d := acc.0;
      var r := d + [p];
      assert Dicts.Values(r) == Dicts.Values(acc.0) + [p.1];
      assert forall i :: 0 <= i < |d| ==> r[i] == d[i];
    }
    assert forall k :: 0 <= k < |init| ==> pairs[k] == init[k];
  }

  lemma LastKeyFresh(pairs: seq<(string, string)>, init: seq<(string, string)>)
    requires |pairs| > 0 && init == pairs[..|pairs| - 1] && Seqs.NoDuplicates(Dicts.Keys(pairs))
    ensures forall j :: 0 <= j < |init| ==> init[j].0 != pairs[|pairs| - 1].0
    ensures Seqs.NoDuplicates(Dicts.Keys(init))
  {
    var ks := Dicts.Keys(pairs);
    assert forall j :: 0 <= j < |init| ==> ks[j] != ks[|pairs| - 1];
    assert Dicts.Keys(init) == ks[..|init|];
  }

  lemma CollectUnfold(pairs: seq<(string, string)>)
    requires |pairs| > 0
    ensures CollectTargetAttributes(pairs) ==
              CollectStep(CollectTargetAttributes(pairs[..|pairs| - 1]), pairs[|pairs| - 1])
  {
  }

  /** Two targets renaming the same original name differently: the second
      renamed name overwrites the first, yet both add a type, so the first
      renamed name gets no column and the types outnumber the columns. */
  lemma CollectOverwrites()
    ensures var r := CollectTargetAttributes([("name", "company"), ("name", "issuer")]);
            r.0 == [("name", "issuer")] && |r.1| == 2
  {
    var p := [("name", "company"), ("name", "issuer")];
    assert p[..1] == [("name", "company")] && p[..1][..0] == [];
    var r1 := CollectTargetAttributes(p[..1]);
    assert r1.0 == [("name", "company")];
    assert Dicts.Values(r1.0) == ["company"];
    assert Dicts.Set(r1.0, "name", "issuer") == [("name", "issuer")];
  }

  /** `__get_ref_attributes_and_types`: every referential attribute renamed
      with the prefix 'ref_', one 'str' type each. */
  function RefAttributes(ref: DataSource): (r: (Dicts.Dict<string, string>, seq<DbType>))
    ensures |r.0| == |r.1| == |ref.attributes|
    ensures forall i :: 0 <= i < |r.0| ==>
              && r.0[i].0 == ref.attributes[i].0
              && r.0[i].1 == RefPrefix + ref.attributes[i].1
              && r.1[i] == StrType
  {
    var a := ref.attributes;
    (seq(|a|, i requires 0 <= i < |a| => (a[i].0, RefPrefix + a[i].1)), seq(|a|, _ => StrType))
  }

  /** The matching table's columns and types: 'match' (int), 'target_name'
      and 'ref_name', the collected target columns, the referential ones. */
  function MatchingLayout(m: MB.Matcher<DataSource>): (r: (seq<string>, seq<DbType>))
    ensures 3 <= |r.0| <= |r.1|
    ensures r.0[..3] == ["match", "target_name", "ref_name"]
    ensures r.1[0] == SU.GetDbType("int").value && r.1[1] == r.1[2] == StrType
  {
    var (ta, tt) := CollectTargetAttributes(AttributePairs(m.targets));
    var (ra, rt) := RefAttributes(m.refSource);
    (["match", "target_name", "ref_name"] + Dicts.Values(ta) + Dicts.Values(ra),
     [SU.GetDbType("int").value, StrType, StrType] + tt + rt)
  }

  /** The no-matching table's columns and types: 'target_name' and the collected target columns. */
  function NoMatchingLayout(m: MB.Matcher<DataSource>): (r: (seq<string>, seq<DbType>))
    ensures 1 <= |r.0| <= |r.1|
    ensures r.0[0] == "target_name" && r.1[0] == StrType
  {
    var (ta, tt) := CollectTargetAttributes(AttributePairs(m.targets));
    (["target_name"] + Dicts.Values(ta), [StrType] + tt)
  }

  /** The columns `create_table(name, columns, types, True, True)` declares. */
  function Declared(layout: (seq<string>, seq<DbType>)): seq<SE.ColumnDef> {
    SE.CreateTableColumns(layout.0, layout.1, true, true)
  }

  /** Both created tables declare 'idx', 'timestamp' and then every layout
      column: the extra types the collector may produce are cut off by the
      zip, never a column. */
  lemma LayoutsDeclared(m: MB.Matcher<DataSource>)
    ensures SE.ColumnNames(Declared(MatchingLayout(m))) == ["idx", "timestamp"] + MatchingLayout(m).0
    ensures SE.ColumnNames(Declared(NoMatchingLayout(m))) == ["idx", "timestamp"] + NoMatchingLayout(m).0
    ensures Declared(MatchingLayout(m))[2] == SE.PlainColumn("match", Integer)
  {
    SE.CreateTableNames(MatchingLayout(m).0, MatchingLayout(m).1, true, true);
    SE.CreateTableNames(NoMatchingLayout(m).0, NoMatchingLayout(m).1, true, true);
  }

  // ---------------------------------------------------------------------------
  // Columns and keys of the data sources

  /** `get_table_columns_from_renamed_attributes(prefix)`: under each renamed
      name, prefixed, the table's column of that renamed name. */
  function RenamedColumns(ds: DataSource, prefix: string): (r: Dicts.Dict<string, ColRef>)
    ensures |r| == |ds.attributes|
    ensures forall i :: 0 <= i < |r| ==> r[i].0 == prefix + ds.attributes[i].1 && r[i].1.table == ds.table
  {
    var a := ds.attributes;
    seq(|a|, i requires 0 <= i < |a| => (prefix + a[i].1, ColRef(ds.table, a[i].1)))
  }

  /** The referential columns: its renamed attributes prefixed with 'ref_',
      then `ref_columns['ref_name']` = its 'data_source' column. */
  function RefColumns(ref: DataSource): Dicts.Dict<string, ColRef> {
    Dicts.Set(RenamedColumns(ref, RefPrefix), "ref_name", ColRef(ref.table, "data_source"))
  }

  /** The target columns: its renamed attributes, then
      `target_columns['target_name']` = its 'data_source' column. */
  function TargetColumns(t: DataSource): Dicts.Dict<string, ColRef> {
    Dicts.Set(RenamedColumns(t, ""), "target_name", ColRef(t.table, "data_source"))
  }

  /** Every column a data source contributes reads its own table, and the
      name column is among them. */
  lemma ColumnsOfOwnTable(ref: DataSource, t: DataSource)
    ensures Dicts.HasKey(RefColumns(ref), "ref_name") && Dicts.HasKey(TargetColumns(t), "target_name")
    ensures forall i :: 0 <= i < |RefColumns(ref)| ==> RefColumns(ref)[i].1.table == ref.table
    ensures forall i :: 0 <= i < |TargetColumns(t)| ==> TargetColumns(t)[i].1.table == t.table
  {
  }

  /** The keys derived from the two data sources when no matching key is
      set: the referential keys the target has too, in referential order. */
  function DerivedKeys(ref: DataSource, t: DataSource): (ks: seq<string>)
    ensures forall k :: k in ks <==> k in ref.keys && k in t.keys
  {
    Seqs.Filter(ref.keys, k => k in t.keys)
  }

  /** The join keys of one target: the matcher's keys when set, the derived ones otherwise. */
  function KeysFor(m: MB.Matcher<DataSource>, t: DataSource): (ks: seq<string>)
    ensures |MB.MatchingKeys(m)| > 0 ==> ks == MB.MatchingKeys(m)
    ensures |MB.MatchingKeys(m)| == 0 ==> forall k :: k in ks <==> k in m.refSource.keys && k in t.keys
  {
    if |MB.MatchingKeys(m)| == 0 then DerivedKeys(m.refSource, t) else MB.MatchingKeys(m)
  }

  /** The entry `matching_keys_obj[key] = [target column, referential column]`. */
  function KeyEntry(tt: string, rt: string, k: string): (ColRef, SU.Operand) {
    (ColRef(tt, k), SU.ColOperand(ColRef(rt, k)))
  }

  /** `matching_keys_obj`, filled key after key: one entry per distinct key. */
  function KeyColumns(tt: string, rt: string, keys: seq<string>): (d: Dicts.Dict<string, (ColRef, SU.Operand)>)
    ensures forall i :: 0 <= i < |d| ==> d[i].0 in keys && d[i].1 == KeyEntry(tt, rt, d[i].0)
    ensures forall k :: k in keys ==> Dicts.HasKey(d, k)
    decreases |keys|
  {
    if |keys| == 0 then []
    else
      var n := |keys| - 1;
      var prev := KeyColumns(tt, rt, keys[..n]);
      assert forall x :: x in keys[..n] ==> x in keys;
      assert keys == keys[..n] + [keys[n]];
      Dicts.Set(prev, keys[n], KeyEntry(tt, rt, keys[n]))
  }

  /** The join condition `get_multi_where_clause(matching_keys_obj)`. */
  function JoinCond(tt: string, rt: string, keys: seq<string>): Option<Cond> {
    LeftAnd(SU.EqLeaves(KeyColumns(tt, rt, keys)))
  }

  /** A target row and a referential row agree on every key, none NULL. */
  predicate SameKeys(a: Row, c: Row, keys: seq<string>) {
    forall k :: k in keys ==> Field(a, k).Some? && Field(a, k) == Field(c, k)
  }

  /** A target row that agrees on the keys with none of the referential rows. */
  predicate Unmatched(a: Row, refRows: seq<Row>, keys: seq<string>) {
    forall c :: c in refRows ==> !SameKeys(a, c, keys)
  }

  /** The join condition exists exactly when there is a key, and then holds
      of a target row and a referential row exactly when they agree, non-NULL,
      on every key. */
  lemma KeyJoinHolds(tt: string, rt: string, keys: seq<string>, a: Row, c: Row)
    requires tt != rt
    ensures JoinCond(tt, rt, keys).Some? <==> |keys| > 0
    ensures |keys| > 0 ==> (Holds(JoinCond(tt, rt, keys).value, Pair(tt, a, rt, c)) <==> SameKeys(a, c, keys))
  {
    var d := KeyColumns(tt, rt, keys);
    if |keys| > 0 {
      assert keys[0] in keys;
      assert |d| > 0 by {
        assert Dicts.HasKey(d, keys[0]);
      }
      LeftAndHolds(SU.EqLeaves(d), Pair(tt, a, rt, c));
      KeyLeavesHold(tt, rt, keys, a, c, SU.EqLeaves(d));
    } else {
      assert |d| == 0;
    }
  }

  /** Every key equality holds exactly when the rows agree, non-NULL, on every key. */
  lemma KeyLeavesHold(tt: string, rt: string, keys: seq<string>, a: Row, c: Row, cs: seq<Cond>)
    requires tt != rt && cs == SU.EqLeaves(KeyColumns(tt, rt, keys))
    ensures (forall i :: 0 <= i < |cs| ==> Holds(cs[i], Pair(tt, a, rt, c))) <==> SameKeys(a, c, keys)
  {
    if SameKeys(a, c, keys) {
      KeyLeavesComplete(tt, rt, keys, a, c, cs);
    }
    if forall i :: 0 <= i < |cs| ==> Holds(cs[i], Pair(tt, a, rt, c)) {
      KeyLeavesSound(tt, rt, keys, a, c, cs);
    }
  }

  lemma KeyLeavesComplete(tt: string, rt: string, keys: seq<string>, a: Row, c: Row, cs: seq<Cond>)
    requires tt != rt && cs == SU.EqLeaves(KeyColumns(tt, rt, keys)) && SameKeys(a, c, keys)
    ensures forall i :: 0 <= i < |cs| ==> Holds(cs[i], Pair(tt, a, rt, c))
  {
    var d := KeyColumns(tt, rt, keys);
    forall i | 0 <= i < |cs| ensures Holds(cs[i], Pair(tt, a, rt, c)) {
      assert d[i].0 in keys && cs[i] == SU.EqLeaf(KeyEntry(tt, rt, d[i].0));
      EntryHolds(tt, rt, d[i].0, a, c);
    }
  }

  lemma KeyLeavesSound(tt: string, rt: string, keys: seq<string>, a: Row, c: Row, cs: seq<Cond>)
    requires tt != rt && cs == SU.EqLeaves(KeyColumns(tt, rt, keys))
    requires forall i :: 0 <= i < |cs| ==> Holds(cs[i], Pair(tt, a, rt, c))
    ensures SameKeys(a, c, keys)
  {
    var d := KeyColumns(tt, rt, keys);
    forall k | k in keys ensures Field(a, k).Some? && Field(a, k) == Field(c, k) {
      var i := Dicts.IndexOf(d, k);
      assert cs[i] == SU.EqLeaf(KeyEntry(tt, rt, k));
      assert Holds(cs[i], Pair(tt, a, rt, c));
      EntryHolds(tt, rt, k, a, c);
    }
  }

  /** One key's equality holds exactly when the rows agree, non-NULL, on that key. */
  lemma EntryHolds(tt: string, rt: string, k: string, a: Row, c: Row)
    requires tt != rt
    ensures Holds(SU.EqLeaf(KeyEntry(tt, rt, k)), Pair(tt, a, rt, c)) <==> Field(a, k).Some? && Field(a, k) == Field(c, k)
  {
  }

  // ---------------------------------------------------------------------------
  // The statements of one target

  /** The columns the matching insert selects: the target's, then the referential's. */
  function MatchCols(m: MB.Matcher<DataSource>, t: DataSource): seq<SelectCol> {
    SU.ColumnsWithLabels(TargetColumns(t)) + SU.ColumnsWithLabels(RefColumns(m.refSource))
  }

  /** `SELECT target cols, ref cols FROM target JOIN ref ON keys`. */
  function MatchSelect(m: MB.Matcher<DataSource>, t: DataSource): Result<Select, Error> {
    SU.GetQueryJoin(t.table, m.refSource.table, MatchCols(m, t), JoinCond(t.table, m.refSource.table, KeysFor(m, t)), None)
  }

  /** The referential key columns whose NULL-ness marks a target row without partner. */
  function RefKeyCols(m: MB.Matcher<DataSource>, t: DataSource): (cs: seq<ColRef>)
    ensures |cs| == |KeysFor(m, t)|
    ensures forall i :: 0 <= i < |cs| ==> cs[i] == ColRef(m.refSource.table, KeysFor(m, t)[i])
  {
    var ks := KeysFor(m, t);
    seq(|ks|, i requires 0 <= i < |ks| => ColRef(m.refSource.table, ks[i]))
  }

  /** `SELECT target cols FROM target LEFT OUTER JOIN ref ON keys WHERE every ref key IS NULL`. */
  function AntiSelect(m: MB.Matcher<DataSource>, t: DataSource): Result<Select, Error> {
    var w := LeftAnd(SU.NullLeaves(RefKeyCols(m, t)));
    SU.GetQueryJoinWhereClause(t.table, m.refSource.table, SU.ColumnsWithLabels(TargetColumns(t)),
      JoinCond(t.table, m.refSource.table, KeysFor(m, t)), w.GetOr(NullLit))
  }

  /** A tuple of the matching select comes from a target row and a
      referential row agreeing on every key, and every such pair gives one. */
  lemma MatchSelectMember(db: Db, m: MB.Matcher<DataSource>, t: DataSource, tup: Tuple)
    requires t.table != m.refSource.table && |KeysFor(m, t)| > 0
    requires t.table in db && m.refSource.table in db
    ensures MatchSelect(m, t).Success? && SourceIn(db, MatchSelect(m, t).value.source)
    ensures tup in EvalSelect(db, MatchSelect(m, t).value) <==>
              exists a, c :: a in db[t.table] && c in db[m.refSource.table] &&
                SameKeys(a, c, KeysFor(m, t)) && tup == Project(Pair(t.table, a, m.refSource.table, c), MatchCols(m, t))
  {
    var tt, rt, keys := t.table, m.refSource.table, KeysFor(m, t);
    KeyJoinHolds(tt, rt, keys, map[], map[]);
    var q := MatchSelect(m, t).value;
    var on := JoinCond(tt, rt, keys).value;
    forall bd ensures bd in Bindings(db, q.source) <==> Joined(bd, tt, db[tt], rt, db[rt], on) {
      InnerJoinMember(bd, tt, db[tt], rt, db[rt], on);
    }
    forall a, c ensures Holds(on, Pair(tt, a, rt, c)) <==> SameKeys(a, c, keys) {
      KeyJoinHolds(tt, rt, keys, a, c);
    }
  }

  /** The no-matching select is an anti-join: its tuples are the target
      rows that agree on the keys with no referential row, and every such
      row gives one. */
  lemma AntiSelectMember(db: Db, m: MB.Matcher<DataSource>, t: DataSource, tup: Tuple)
    requires t.table != m.refSource.table && |KeysFor(m, t)| > 0
    requires t.table in db && m.refSource.table in db
    ensures AntiSelect(m, t).Success? && SourceIn(db, AntiSelect(m, t).value.source)
    ensures tup in EvalSelect(db, AntiSelect(m, t).value) <==>
              exists a :: a in db[t.table] && Unmatched(a, db[m.refSource.table], KeysFor(m, t)) &&
                tup == Project(Single(t.table, a), SU.ColumnsWithLabels(TargetColumns(t)))
  {
    var tt, rt, keys := t.table, m.refSource.table, KeysFor(m, t);
    AntiSelectShape(m, t);
    var q := AntiSelect(m, t).value;
    var kc := RefKeyCols(m, t);
    forall a, c | Holds(q.source.on, Pair(tt, a, rt, c)) ensures Lookup(Pair(tt, a, rt, c), kc[0]).Some? {
      KeyJoinLookup(tt, rt, keys, a, c);
    }
    SU.AntiJoinMember(db, q, kc, tup);
    forall a ensures Unpartnered(a, tt, rt, db[rt], q.source.on) <==> Unmatched(a, db[rt], keys) {
      UnpartneredUnmatched(tt, rt, keys, db[rt], a);
    }
  }

  /** The no-matching select is an outer join on the keys filtered by the
      referential keys being NULL. */
  lemma AntiSelectShape(m: MB.Matcher<DataSource>, t: DataSource)
    requires t.table != m.refSource.table && |KeysFor(m, t)| > 0
    ensures AntiSelect(m, t).Success?
    ensures var q := AntiSelect(m, t).value;
            && SU.AntiJoin(q, RefKeyCols(m, t))
            && q.source.left == t.table && q.source.right == m.refSource.table
            && q.source.on == JoinCond(t.table, m.refSource.table, KeysFor(m, t)).value
            && q.cols == SU.ColumnsWithLabels(TargetColumns(t))
  {
    KeyJoinHolds(t.table, m.refSource.table, KeysFor(m, t), map[], map[]);
  }

  /** A key-join pair has a non-NULL first referential key. */
  lemma KeyJoinLookup(tt: string, rt: string, keys: seq<string>, a: Row, c: Row)
    requires tt != rt && |keys| > 0
    requires Holds(JoinCond(tt, rt, keys).value, Pair(tt, a, rt, c))
    ensures Lookup(Pair(tt, a, rt, c), ColRef(rt, keys[0])).Some?
  {
    KeyJoinHolds(tt, rt, keys, a, c);
    assert keys[0] in keys;
  }

  /** A target row has no partner under the key join exactly when it agrees
      on the keys with no referential row. */
  lemma UnpartneredUnmatched(tt: string, rt: string, keys: seq<string>, rs: seq<Row>, a: Row)
    requires tt != rt && |keys| > 0
    ensures Unpartnered(a, tt, rt, rs, JoinCond(tt, rt, keys).value) <==> Unmatched(a, rs, keys)
  {
    KeyJoinHolds(tt, rt, keys, a, a);
    forall c ensures Holds(JoinCond(tt, rt, keys).value, Pair(tt, a, rt, c)) <==> SameKeys(a, c, keys) {
      KeyJoinHolds(tt, rt, keys, a, c);
    }
  }

  // ---------------------------------------------------------------------------
  // Execution

  /** Every row of the matching table has a non-NULL 'match' flag. */
  predicate Flagged(db: Db, name: string) {
    name in db && forall i :: 0 <= i < |db[name]| ==> Field(db[name][i], "match").Some?
  }

  /** `update_where_is_null(matching, 'match', 1)` leaves no NULL flag. */
  lemma UpdateFlags(db: Db, name: string)
    requires name in db
    ensures ExecUpdateNull(db, name, "match", "1").Success?
    ensures Flagged(ExecUpdateNull(db, name, "match", "1").value, name)
  {
  }

  /** The matching-table row a pair of joined rows gives, once flagged. */
  function MatchRow(m: MB.Matcher<DataSource>, t: DataSource, a: Row, c: Row): Row {
    var cols := Dicts.Keys(TargetColumns(t)) + Dicts.Keys(RefColumns(m.refSource));
    var tup := Project(Pair(t.table, a, m.refSource.table, c), MatchCols(m, t));
    if |cols| == |tup| then FillNull(RowOf(cols, tup), "match", "1") else map[]
  }

  /** The no-matching-table row a target row without partner gives. */
  function NoMatchRow(t: DataSource, a: Row): Row {
    var cols := Dicts.Keys(TargetColumns(t));
    var tup := Project(Single(t.table, a), SU.ColumnsWithLabels(TargetColumns(t)));
    RowOf(cols, tup)
  }

  /** The matching half of a pass: insert the matches into the matching
      table, then set every NULL 'match' flag there to 1. */
  function InsertMatches(db: Db, m: MB.Matcher<DataSource>, t: DataSource, name: string): (r: Result<Db, Error>)
    ensures r.Success? ==> r.value.Keys == db.Keys && Flagged(r.value, name)
    ensures r.Success? ==> forall x :: x in db && x != name ==> r.value[x] == db[x]
  {
    match MatchSelect(m, t)
    case Failure(e) => Failure(e)
    case Success(q) =>
      match ExecInsert(db, name, Dicts.Keys(TargetColumns(t)) + Dicts.Keys(RefColumns(m.refSource)), q)
      case Failure(e) => Failure(e)
      case Success(db1) =>
        UpdateFlags(db1, name);
        ExecUpdateNull(db1, name, "match", "1")
  }

  /** The no-matching half of a pass: insert the target rows without partner. */
  function InsertNoMatches(db: Db, m: MB.Matcher<DataSource>, t: DataSource, name: string): (r: Result<Db, Error>)
    ensures r.Success? ==> r.value.Keys == db.Keys
    ensures r.Success? ==> NoMatchingPrefix + name in db && Seqs.IsPrefix(db[NoMatchingPrefix + name], r.value[NoMatchingPrefix + name])
    ensures r.Success? ==> forall x :: x in db && x != NoMatchingPrefix + name ==> r.value[x] == db[x]
  {
    var aq :- AntiSelect(m, t);
    ExecInsert(db, NoMatchingPrefix + name, Dicts.Keys(TargetColumns(t)), aq)
  }

  /** Whether the coverage division raises: the target's count of distinct
      'idx' values is 0. The target table's 'idx' is its autoincrement
      primary key, which the database fills in for every inserted row, so
      that count is the number of rows. */
  predicate CoverageDividesByZero(db: Db, t: DataSource) {
    t.table !in db || |db[t.table]| == 0
  }

  /** One pass of the target loop: the matching half, the coverage
      division, the no-matching half. A raising statement stops the pass
      with the changes made so far. Only the two matching tables change. */
  function TargetStep(db: Db, m: MB.Matcher<DataSource>, t: DataSource, name: string): (r: Run<Db>)
    ensures r.Final().Keys == db.Keys
    ensures forall x :: x in db && x != name && x != NoMatchingPrefix + name ==> r.Final()[x] == db[x]
    ensures Flagged(db, name) ==> Flagged(r.Final(), name)
    ensures NoMatchingPrefix + name in db ==> Seqs.IsPrefix(db[NoMatchingPrefix + name], r.Final()[NoMatchingPrefix + name])
  {
    match InsertMatches(db, m, t, name)
    case Failure(e) => Aborted(db, e)
    case Success(db2) => CoverageAndNoMatches(db2, m, t, name)
  }

  /** The rest of a pass after the matching half: the coverage division and
      the no-matching half, which leave the matching table alone. */
  function CoverageAndNoMatches(db: Db, m: MB.Matcher<DataSource>, t: DataSource, name: string): (r: Run<Db>)
    ensures r.Final().Keys == db.Keys
    ensures forall x :: x in db && x != NoMatchingPrefix + name ==> r.Final()[x] == db[x]
    ensures NoMatchingPrefix + name in db ==> Seqs.IsPrefix(db[NoMatchingPrefix + name], r.Final()[NoMatchingPrefix + name])
  {
    if CoverageDividesByZero(db, t) then Aborted(db, ZeroDivision)
    else
      match InsertNoMatches(db, m, t, name)
      case Failure(e) => Aborted(db, e)
      case Success(db3) => Completed(db3)
  }

  /** The update fills the rows past any position one by one, in place. */
  lemma FillAppended(db: Db, name: string, k: nat, row: Row)
    requires name in db && k <= |db[name]|
    ensures var filled := ExecUpdateNull(db, name, "match", "1").value[name];
            row in filled[k..] <==> exists r1 :: r1 in db[name][k..] && row == FillNull(r1, "match", "1")
  {
    var filled := ExecUpdateNull(db, name, "match", "1").value[name];
    if row in filled[k..] {
      var i :| 0 <= i < |filled[k..]| && filled[k..][i] == row;
      assert db[name][k..][i] == db[name][k + i];
    }
    if exists r1 :: r1 in db[name][k..] && row == FillNull(r1, "match", "1") {
      var r1 :| r1 in db[name][k..] && row == FillNull(r1, "match", "1");
      var i :| 0 <= i < |db[name][k..]| && db[name][k..][i] == r1;
      assert filled[k + i] == row;
    }
  }

  /** The tables of one pass are the target, the referential and the two
      matching tables, all different. */
  predicate DistinctTables(m: MB.Matcher<DataSource>, t: DataSource, name: string) {
    var tt, rt := t.table, m.refSource.table;
    && tt != rt && tt != name && rt != name
    && tt != NoMatchingPrefix + name && rt != NoMatchingPrefix + name
  }

  /** The matching half appends to the matching table exactly one flagged
      row per pair of a target row and a referential row agreeing on every key. */
  lemma MatchesAppended(db: Db, m: MB.Matcher<DataSource>, t: DataSource, name: string, row: Row)
    requires DistinctTables(m, t, name) && |KeysFor(m, t)| > 0
    requires InsertMatches(db, m, t, name).Success?
    ensures var grown := InsertMatches(db, m, t, name).value[name];
            name in db && |db[name]| <= |grown| &&
            (row in grown[|db[name]|..] <==>
               exists a, c :: a in db[t.table] && c in db[m.refSource.table] &&
                 SameKeys(a, c, KeysFor(m, t)) && row == MatchRow(m, t, a, c))
  {
    var tt, rt := t.table, m.refSource.table;
    var q := MatchSelect(m, t).value;
    var cols := Dicts.Keys(TargetColumns(t)) + Dicts.Keys(RefColumns(m.refSource));
    var db1 := ExecInsert(db, name, cols, q).value;
    var k := |db[name]|;
    FillAppended(db1, name, k, row);
    assert |cols| == |MatchCols(m, t)|;
    if exists r1 :: r1 in db1[name][k..] && row == FillNull(r1, "match", "1") {
      var r1 :| r1 in db1[name][k..] && row == FillNull(r1, "match", "1");
      InsertAppended(db, name, cols, q, r1);
      var tup :| tup in EvalSelect(db, q) && r1 == RowOf(cols, tup);
      MatchSelectMember(db, m, t, tup);
      var a, c :| a in db[tt] && c in db[rt] && SameKeys(a, c, KeysFor(m, t)) && tup == Project(Pair(tt, a, rt, c), MatchCols(m, t));
      assert row == MatchRow(m, t, a, c);
    }
    if exists a, c :: a in db[tt] && c in db[rt] && SameKeys(a, c, KeysFor(m, t)) && row == MatchRow(m, t, a, c) {
      var a, c :| a in db[tt] && c in db[rt] && SameKeys(a, c, KeysFor(m, t)) && row == MatchRow(m, t, a, c);
      var tup := Project(Pair(tt, a, rt, c), MatchCols(m, t));
      MatchSelectMember(db, m, t, tup);
      var r1 := RowOf(cols, tup);
      InsertAppended(db, name, cols, q, r1);
      assert r1 in db1[name][k..];
    }
  }

  /** The no-matching half appends to the no-matching table exactly one
      row per target row that agrees on the keys with no referential row. */
  lemma NoMatchesAppended(db: Db, m: MB.Matcher<DataSource>, t: DataSource, name: string, row: Row)
    requires DistinctTables(m, t, name) && |KeysFor(m, t)| > 0
    requires InsertNoMatches(db, m, t, name).Success?
    ensures var nm := NoMatchingPrefix + name;
            var grown := InsertNoMatches(db, m, t, name).value[nm];
            nm in db && |db[nm]| <= |grown| &&
            (row in grown[|db[nm]|..] <==>
               exists a :: a in db[t.table] && Unmatched(a, db[m.refSource.table], KeysFor(m, t)) &&
                 row == NoMatchRow(t, a))
  {
    var tt, rt, keys := t.table, m.refSource.table, KeysFor(m, t);
    var aq := AntiSelect(m, t).value;
    var cols := Dicts.Keys(TargetColumns(t));
    InsertAppended(db, NoMatchingPrefix + name, cols, aq, row);
    if exists tup :: tup in EvalSelect(db, aq) && row == RowOf(cols, tup) {
      var tup :| tup in EvalSelect(db, aq) && row == RowOf(cols, tup);
      AntiSelectMember(db, m, t, tup);
    }
    if exists a :: a in db[tt] && Unmatched(a, db[rt], keys) && row == NoMatchRow(t, a) {
      var a :| a in db[tt] && Unmatched(a, db[rt], keys) && row == NoMatchRow(t, a);
      var tup := Project(Single(tt, a), SU.ColumnsWithLabels(TargetColumns(t)));
      AntiSelectMember(db, m, t, tup);
    }
  }

  /** A completed pass over one target: the matching table gains exactly the
      flagged rows of the key-agreeing pairs, the no-matching table exactly
      the rows of the target rows without partner, and both keep their
      earlier rows in front. */
  lemma TargetStepRows(db: Db, m: MB.Matcher<DataSource>, t: DataSource, name: string, row: Row)
    requires DistinctTables(m, t, name) && |KeysFor(m, t)| > 0
    requires TargetStep(db, m, t, name).Completed?
    ensures var nm := NoMatchingPrefix + name;
            var after := TargetStep(db, m, t, name).state;
            && name in db && nm in db
            && |db[name]| <= |after[name]| && |db[nm]| <= |after[nm]|
            && Seqs.IsPrefix(db[nm], after[nm])
            && (row in after[name][|db[name]|..] <==>
                 exists a, c :: a in db[t.table] && c in db[m.refSource.table] &&
                   SameKeys(a, c, KeysFor(m, t)) && row == MatchRow(m, t, a, c))
            && (row in after[nm][|db[nm]|..] <==>
                 exists a :: a in db[t.table] && Unmatched(a, db[m.refSource.table], KeysFor(m, t)) &&
                   row == NoMatchRow(t, a))
  {
    var nm := NoMatchingPrefix + name;
    var db2 := InsertMatches(db, m, t, name).value;
    var after := TargetStep(db, m, t, name).state;
    TargetStepHalves(db, m, t, name);
    MatchesAppended(db, m, t, name, row);
    NoMatchesAppended(db2, m, t, name, row);
    assert after[name] == db2[name] && db2[nm] == db[nm];
    assert db2[t.table] == db[t.table] && db2[m.refSource.table] == db[m.refSource.table];
  }

  /** A completed pass is the two halves, each successful, one after the other. */
  lemma TargetStepHalves(db: Db, m: MB.Matcher<DataSource>, t: DataSource, name: string)
    requires DistinctTables(m, t, name)
    requires TargetStep(db, m, t, name).Completed?
    ensures InsertMatches(db, m, t, name).Success?
    ensures var db2 := InsertMatches(db, m, t, name).value;
            && InsertNoMatches(db2, m, t, name).Success?
            && TargetStep(db, m, t, name).state == InsertNoMatches(db2, m, t, name).value
            && db2[NoMatchingPrefix + name] == db[NoMatchingPrefix + name]
            && InsertNoMatches(db2, m, t, name).value[name] == db2[name]
  {
    assert |NoMatchingPrefix + name| != |name|;
  }

  /** A table that only grew in two steps only grew. */
  lemma GrowsTransitive(d0: Db, d1: Db, d2: Db, x: string)
    ensures x in d0 && x in d1 && x in d2 && Seqs.IsPrefix(d0[x], d1[x]) && Seqs.IsPrefix(d1[x], d2[x]) ==>
              Seqs.IsPrefix(d0[x], d2[x])
  {
    if x in d0 && x in d1 && x in d2 && Seqs.IsPrefix(d0[x], d1[x]) && Seqs.IsPrefix(d1[x], d2[x]) {
      assert d2[x][..|d0[x]|] == d2[x][..|d1[x]|][..|d0[x]|];
    }
  }

  /** The loop over the targets, in order; the first raising pass stops it
      with the changes made so far. Only the two matching tables change, and
      the no-matching table only grows. */
  function MatchTargets(db: Db, m: MB.Matcher<DataSource>, targets: seq<DataSource>, name: string): (r: Run<Db>)
    ensures r.Final().Keys == db.Keys
    ensures forall x :: x in db && x != name && x != NoMatchingPrefix + name ==> r.Final()[x] == db[x]
    ensures Flagged(db, name) ==> Flagged(r.Final(), name)
    ensures NoMatchingPrefix + name in db ==> Seqs.IsPrefix(db[NoMatchingPrefix + name], r.Final()[NoMatchingPrefix + name])
    decreases |targets|
  {
    if |targets| == 0 then Completed(db)
    else
      match TargetStep(db, m, targets[0], name)
      case Aborted(d, e) => Aborted(d, e)
      case Completed(d) =>
        var r := MatchTargets(d, m, targets[1..], name);
        GrowsTransitive(db, d, r.Final(), NoMatchingPrefix + name);
        r
  }

  /** The tables and the matcher after `execute_matching`. */
  datatype World = World(s: State, db: Db)

  /** The existence check and, with `drop_table`, the drop of both previous
      tables. Only the matching table's existence is checked: a no-matching
      table left alone raises at its drop, or later at its creation. */
  function ClearPrevious(db: Db, name: string, drop: bool): (r: Run<Db>)
    ensures !SE.TableExists(db, name) ==> r == Completed(db)
    ensures SE.TableExists(db, name) && !drop ==> r == Aborted(db, MatchingTableAlreadyExists)
    ensures SE.TableExists(db, name) && drop ==>
              (r.Completed? <==> SE.TableExists(db, NoMatchingPrefix + name))
    ensures SE.TableExists(db, name) && r.Completed? ==> r.state == db - {name, NoMatchingPrefix + name}
    ensures r.Completed? ==> !SE.TableExists(r.state, name)
  {
    if !SE.TableExists(db, name) then Completed(db)
    else if !drop then Aborted(db, MatchingTableAlreadyExists)
    else
      var d1 := SE.DropTable(db, name).value;
      match SE.DropTable(d1, NoMatchingPrefix + name)
      case Failure(e) => Aborted(d1, e)
      case Success(d2) =>
        assert d2 == db - {name, NoMatchingPrefix + name};
        Completed(d2)
  }

  function MatchingEntity(m: MB.Matcher<DataSource>, name: string): Entity {
    Entity(name, SE.ColumnNames(Declared(MatchingLayout(m))))
  }

  function NoMatchingEntity(m: MB.Matcher<DataSource>, name: string): Entity {
    Entity(NoMatchingPrefix + name, SE.ColumnNames(Declared(NoMatchingLayout(m))))
  }

  /** `__create_matching_entity` then `__create_no_matching_entity`: each
      re-raises a failure of its `create_table` as `ErrorDB`; the first
      table stays created when the second fails. */
  function CreateEntities(db: Db, name: string): (r: Run<Db>)
    ensures r.Completed? <==> !SE.TableExists(db, name) && !SE.TableExists(db, NoMatchingPrefix + name)
    ensures r.Aborted? ==> r.error.ErrorDB?
    ensures r.Completed? ==>
              && r.state.Keys == db.Keys + {name, NoMatchingPrefix + name}
              && r.state[name] == [] && r.state[NoMatchingPrefix + name] == []
              && forall x :: x in db ==> r.state[x] == db[x]
  {
    match SE.CreateTable(db, name)
    case Failure(e) => Aborted(db, ErrorDB(e))
    case Success(d1) =>
      assert |NoMatchingPrefix + name| != |name|;
      match SE.CreateTable(d1, NoMatchingPrefix + name)
      case Failure(e) => Aborted(d1, ErrorDB(e))
      case Success(d2) => Completed(d2)
  }

  /** `execute_matching(name, desc, drop_table)`: clear the previous tables,
      create both, run every target, and record the two entities. Every
      failure, the matcher's own included, is re-raised as `ErrorDB`, with
      the database changes made so far kept and the matcher unchanged. */
  function ExecuteMatching(s: State, db: Db, name: string, drop: bool): (r: Run<World>)
    ensures s.engine.None? ==> r == Aborted(World(s, db), ErrorDB(EngineNotSet))
    ensures s.engine.Some? && SE.TableExists(db, name) && !drop ==>
              r == Aborted(World(s, db), ErrorDB(MatchingTableAlreadyExists))
    ensures r.Aborted? ==> r.error.ErrorDB? && r.state.s == s
    ensures r.Completed? ==>
              && r.state.s == s.(matching := Some(MatchingEntity(s.m, name)), noMatching := Some(NoMatchingEntity(s.m, name)))
              && Flagged(r.state.db, name) && SE.TableExists(r.state.db, NoMatchingPrefix + name)
              && forall x :: x in db && x != name && x != NoMatchingPrefix + name ==> x in r.state.db && r.state.db[x] == db[x]
  {
    if s.engine.None? then Aborted(World(s, db), ErrorDB(EngineNotSet))
    else
      match ClearPrevious(db, name, drop)
      case Aborted(d, e) => Aborted(World(s, d), ErrorDB(e))
      case Completed(d0) =>
        match CreateAndMatch(d0, s.m, name)
        case Aborted(d, e) => Aborted(World(s, d), e)
        case Completed(d2) =>
          Completed(World(s.(matching := Some(MatchingEntity(s.m, name)), noMatching := Some(NoMatchingEntity(s.m, name))), d2))
  }

  /** The part of `execute_matching` after the clearing: create both tables
      and run every target, re-raising any failure as `ErrorDB`. */
  function CreateAndMatch(db: Db, m: MB.Matcher<DataSource>, name: string): (r: Run<Db>)
    ensures r.Aborted? ==> r.error.ErrorDB?
    ensures r.Completed? ==>
              && Flagged(r.state, name) && SE.TableExists(r.state, NoMatchingPrefix + name)
              && forall x :: x in db && x != name && x != NoMatchingPrefix + name ==> x in r.state && r.state[x] == db[x]
  {
    match CreateEntities(db, name)
    case Aborted(d, e) => Aborted(d, ErrorDB(e))
    case Completed(d1) =>
      match MatchTargets(d1, m, m.targets, name)
      case Aborted(d, e) => Aborted(d, ErrorDB(e))
      case Completed(d2) => Completed(d2)
  }

  /** The guard of `execute_indirect_matching`. */
  function IndirectMatchingGuard(s: State): (r: Result<State, Error>)
    ensures r.Success? <==> s.matching.Some? && s.noMatching.Some?
    ensures r.Failure? ==> r.error == IndirectMatchingMustBeExecutedAfterExactMatching
  {
    if s.matching.None? || s.noMatching.None? then Failure(IndirectMatchingMustBeExecutedAfterExactMatching)
    else Success(s)
  }

  /** The indirect matching is refused on a fresh matcher, and allowed once
      an exact matching has completed. */
  lemma IndirectAfterExact(name: string, ref: DataSource, s: State, db: Db, table: string, drop: bool)
    ensures IndirectMatchingGuard(New(name, ref)).Failure?
    ensures ExecuteMatching(s, db, table, drop).Completed? ==>
              IndirectMatchingGuard(ExecuteMatching(s, db, table, drop).state.s).Success?
  {
  }

  /** Over the whole loop: every row of a target that agrees on the keys
      with no referential row ends up in the no-matching table. */
  lemma {:induction false} NoMatchingComplete(db: Db, m: MB.Matcher<DataSource>, targets: seq<DataSource>, name: string, i: nat, a: Row)
    requires MatchTargets(db, m, targets, name).Completed?
    requires i < |targets| && DistinctTables(m, targets[i], name) && |KeysFor(m, targets[i])| > 0
    requires targets[i].table in db && m.refSource.table in db && a in db[targets[i].table]
    requires Unmatched(a, db[m.refSource.table], KeysFor(m, targets[i]))
    requires NoMatchingPrefix + name in db
    ensures NoMatchRow(targets[i], a) in MatchTargets(db, m, targets, name).state[NoMatchingPrefix + name]
    decreases |targets|, 1
  {
    var nm := NoMatchingPrefix + name;
    var step := TargetStep(db, m, targets[0], name);
    assert step.Completed?;
    var d := step.state;
    assert MatchTargets(db, m, targets, name) == MatchTargets(d, m, targets[1..], name);
    if i == 0 {
      var row := NoMatchRow(targets[0], a);
      TargetStepRows(db, m, targets[0], name, row);
      RowKept(d, MatchTargets(d, m, targets[1..], name).Final(), nm, |db[nm]|, row);
    } else {
      NoMatchingCompleteLater(db, d, m, targets, name, i, a);
    }
  }

  /** The inductive step of `NoMatchingComplete`, for a target after the first. */
  lemma {:induction false} NoMatchingCompleteLater(db: Db, d: Db, m: MB.Matcher<DataSource>, targets: seq<DataSource>, name: string, i: nat, a: Row)
    requires 0 < i < |targets| && MatchTargets(d, m, targets[1..], name).Completed?
    requires DistinctTables(m, targets[i], name) && |KeysFor(m, targets[i])| > 0
    requires targets[i].table in db && m.refSource.table in db && a in db[targets[i].table]
    requires Unmatched(a, db[m.refSource.table], KeysFor(m, targets[i]))
    requires d.Keys == db.Keys && NoMatchingPrefix + name in db
    requires forall x :: x in db && x != name && x != NoMatchingPrefix + name ==> d[x] == db[x]
    ensures NoMatchRow(targets[i], a) in MatchTargets(d, m, targets[1..], name).state[NoMatchingPrefix + name]
    decreases |targets|, 0
  {
    var t := targets[i];
    assert targets[1..][i - 1] == t;
    assert d[t.table] == db[t.table] && d[m.refSource.table] == db[m.refSource.table];
    NoMatchingComplete(d, m, targets[1..], name, i - 1, a);
  }

  /** A row past position `k` of a table that then only grew is still in it. */
  lemma RowKept(d: Db, final: Db, x: string, k: nat, row: Row)
    requires x in d && x in final && k <= |d[x]| && Seqs.IsPrefix(d[x], final[x])
    requires row in d[x][k..]
    ensures row in final[x]
  {
    var j :| 0 <= j < |d[x][k..]| && d[x][k..][j] == row;
    assert final[x][k + j] == d[x][k + j];
  }
}
