/** The SQL helper functions: the NULL normaliser, the type-name map, the
    where-clause folds, labelled columns and the two join queries. */
module SqlUtility {
  import opened Wrappers
  import opened Errors
  import opened Relational
  import opened Statements
  import Dicts

  /** The characters Python's `str.strip()` removes. */
  predicate IsSpace(c: char) {
    || c == ' ' || '\t' <= c <= '\r' || '\U{1C}' <= c <= '\U{1F}' || c == '\U{85}' || c == '\U{A0}'
    || c == '\U{1680}' || '\U{2000}' <= c <= '\U{200A}' || c == '\U{2028}' || c == '\U{2029}'
    || c == '\U{202F}' || c == '\U{205F}' || c == '\U{3000}'
  }

  predicate AllSpace(s: string) {
    forall i :: 0 <= i < |s| ==> IsSpace(s[i])
  }

  /** No whitespace at either end. */
  predicate Trimmed(s: string) {
    |s| == 0 || (!IsSpace(s[0]) && !IsSpace(s[|s| - 1]))
  }

  function LeadingSpaces(s: string): (k: nat)
    ensures k <= |s| && AllSpace(s[..k]) && (k < |s| ==> !IsSpace(s[k]))
  {
    if |s| == 0 || !IsSpace(s[0]) then 0
    else
      var k := LeadingSpaces(s[1..]);
      assert s[..k + 1] == [s[0]] + s[1..][..k];
      k + 1
  }

  function TrailingSpaces(s: string): (k: nat)
    ensures k <= |s| && AllSpace(s[|s| - k..]) && (k < |s| ==> !IsSpace(s[|s| - k - 1]))
  {
    if |s| == 0 || !IsSpace(s[|s| - 1]) then 0
    else
      var init := s[..|s| - 1];
      var k := TrailingSpaces(init);
      assert s[|s| - (k + 1)..] == init[|init| - k..] + [s[|s| - 1]];
      k + 1
  }

  /** `str.strip()`: the text between the leading and the trailing whitespace. */
  function Strip(s: string): (r: string)
    ensures Trimmed(r)
    ensures |r| == 0 <==> AllSpace(s)
    ensures exists p, q :: s == p + r + q && AllSpace(p) && AllSpace(q)
  {
    var k := LeadingSpaces(s);
    if k == |s| then
      assert s[..k] == s;
      assert s == s + "" + "" && AllSpace("");
      ""
    else
      var t := TrailingSpaces(s);
      StripSplit(s, k, t);
      s[k..|s| - t]
  }

  /** Past the leading whitespace of a text that is not all whitespace, the
      trailing whitespace leaves a trimmed, non-empty middle. */
  lemma StripSplit(s: string, k: nat, t: nat)
    requires k < |s| && AllSpace(s[..k]) && !IsSpace(s[k])
    requires t <= |s| && AllSpace(s[|s| - t..]) && (t < |s| ==> !IsSpace(s[|s| - t - 1]))
    ensures k < |s| - t
    ensures s == s[..k] + s[k..|s| - t] + s[|s| - t..]
    ensures !AllSpace(s)
    ensures Trimmed(s[k..|s| - t])
  {
    forall j | |s| - t <= j < |s| ensures IsSpace(s[j]) {
      assert s[|s| - t..][j - (|s| - t)] == s[j];
    }
    var r := s[k..|s| - t];
    assert r[0] == s[k] && r[|r| - 1] == s[|s| - t - 1];
  }

  /** The result of stripping is the only trimmed text that whitespace pads to the input. */
  lemma StripUnique(s: string, p: string, w: string, q: string)
    requires s == p + w + q && AllSpace(p) && AllSpace(q) && Trimmed(w)
    ensures Strip(s) == w
  {
    if |w| == 0 {
      assert AllSpace(s) by {
        forall i | 0 <= i < |s| ensures IsSpace(s[i]) {
          if i < |p| { assert s[i] == p[i]; } else { assert s[i] == q[i - |p|]; }
        }
      }
    } else {
      var k := LeadingSpaces(s);
      assert s[|p|] == w[0];
      assert forall i :: 0 <= i < |p| ==> s[i] == p[i];
      assert k == |p|;
      var t := TrailingSpaces(s);
      assert s[|s| - |q| - 1] == w[|w| - 1];
      assert forall i :: |s| - |q| <= i < |s| ==> s[i] == q[i - (|s| - |q|)];
      assert t == |q|;
      assert s[k..|s| - t] == w;
    }
  }

  /** Stripping twice strips once. */
  lemma StripIdempotent(s: string)
    ensures Strip(Strip(s)) == Strip(s)
  {
    StripUnique(Strip(s), "", Strip(s), "");
  }

  /** `get_value_db` on the text of a value: NULL for blank text, otherwise the stripped text. */
  function GetValueDb(text: string): (r: Value)
    ensures r.None? <==> AllSpace(text)
    ensures r.Some? ==> |r.value| > 0 && Trimmed(r.value) &&
                        exists p, q :: text == p + r.value + q && AllSpace(p) && AllSpace(q)
  {
    var v := Strip(text);
    if |v| == 0 then None else Some(v)
  }

  /** Normalising a normalised value changes nothing. */
  lemma GetValueDbIdempotent(text: string)
    requires GetValueDb(text).Some?
    ensures GetValueDb(GetValueDb(text).value) == GetValueDb(text)
  {
    StripIdempotent(text);
  }

  /** `get_db_type` */
  function GetDbType(name: string): (r: Option<DbType>)
    ensures r.Some? <==> name in {"str", "int", "bol", "datetime"}
    ensures r.Some? ==> TypeName(r.value) == name && (r.value.String? ==> r.value.length.None?)
  {
    if name == "str" then Some(String(None))
    else if name == "int" then Some(Integer)
    else if name == "bol" then Some(Boolean)
    else if name == "datetime" then Some(DateTime)
    else None
  }

  /** The name `get_db_type` maps to each type. */
  function TypeName(t: DbType): string {
    match t
    case String(_) => "str"
    case Integer => "int"
    case Boolean => "bol"
    case DateTime => "datetime"
  }

  /** Every unsized type is reached from exactly its name; `'bool'`, the
      name the connectors use, is not recognised. */
  lemma GetDbTypeRoundTrip(t: DbType)
    requires t.String? ==> t.length.None?
    ensures GetDbType(TypeName(t)) == Some(t)
    ensures forall n :: GetDbType(n) == Some(t) ==> n == TypeName(t)
    ensures GetDbType("bool").None?
  {
  }

  /** `get_function_where_clause`: for 'null' and 'not_null' it calls
      `Select.where` on the class rather than on a select, with the condition
      in the `self` slot, which raises; any other kind gives None. So it
      never yields a condition. */
  function FunctionWhereClause(kind: string): (r: Result<Option<Cond>, Error>)
    ensures r.Failure? <==> kind == "null" || kind == "not_null"
    ensures r.Failure? ==> r.error == UnboundWhere
    ensures r.Success? ==> r.value.None?
  {
    if kind == "null" || kind == "not_null" then Failure(UnboundWhere) else Success(None)
  }

  /** The right operand of a where-clause entry: a column, or a Python value. */
  datatype Operand = ColOperand(col: ColRef) | ValueOperand(value: string)

  /** An entry of `get_multi_where_clause`: a non-column operand is wrapped as raw SQL text. */
  function EqLeaf(e: (ColRef, Operand)): Cond {
    match e.1
    case ColOperand(c) => EqCols(e.0, c)
    case ValueOperand(v) => EqText(e.0, v)
  }

  /** An entry of `get_multi_where_clause_notequal`: a non-column operand is a bound value. */
  function NeLeaf(e: (ColRef, Operand)): Cond {
    match e.1
    case ColOperand(c) => NeCols(e.0, c)
    case ValueOperand(v) => NeVal(e.0, v)
  }

  function EqLeaves(columns: Dicts.Dict<string, (ColRef, Operand)>): (cs: seq<Cond>)
    ensures |cs| == |columns| && forall i :: 0 <= i < |columns| ==> cs[i] == EqLeaf(columns[i].1)
  {
    seq(|columns|, i requires 0 <= i < |columns| => EqLeaf(columns[i].1))
  }

  function NeLeaves(columns: Dicts.Dict<string, (ColRef, Operand)>): (cs: seq<Cond>)
    ensures |cs| == |columns| && forall i :: 0 <= i < |columns| ==> cs[i] == NeLeaf(columns[i].1)
  {
    seq(|columns|, i requires 0 <= i < |columns| => NeLeaf(columns[i].1))
  }

  function NullLeaves(cols: seq<ColRef>): (cs: seq<Cond>)
    ensures |cs| == |cols| && forall i :: 0 <= i < |cols| ==> cs[i] == IsNull(cols[i])
  {
    seq(|cols|, i requires 0 <= i < |cols| => IsNull(cols[i]))
  }

  /** One step of the folds: the first leaf as is, then `and_(accumulated, leaf)`. */
  function AndStep(acc: Option<Cond>, leaf: Cond): Cond {
    if acc.None? then leaf else And(acc.value, leaf)
  }

  lemma AndStepExtends(cs: seq<Cond>, i: nat)
    requires i < |cs|
    ensures Some(AndStep(LeftAnd(cs[..i]), cs[i])) == LeftAnd(cs[..i + 1])
  {
    assert cs[..i + 1][..i] == cs[..i];
  }

  /** `get_multi_where_clause`: the entries' equalities, in dict order, as a
      left-nested AND; None for no entry. */
  method GetMultiWhereClause(columns: Dicts.Dict<string, (ColRef, Operand)>) returns (w: Option<Cond>)
    ensures w == LeftAnd(EqLeaves(columns))
    ensures w.None? <==> |columns| == 0
    ensures w.Some? ==> forall bd :: Holds(w.value, bd) <==> forall i :: 0 <= i < |columns| ==> Holds(EqLeaf(columns[i].1), bd)
  {
    var cs := EqLeaves(columns);
    w := None;
    var i := 0;
    while i < |columns|
      invariant 0 <= i <= |columns|
      invariant w == LeftAnd(cs[..i])
    {
      AndStepExtends(cs, i);
      w := Some(AndStep(w, EqLeaf(columns[i].1)));
      i := i + 1;
    }
    assert cs[..i] == cs;
    if w.Some? {
      forall bd ensures Holds(w.value, bd) <==> forall i :: 0 <= i < |columns| ==> Holds(EqLeaf(columns[i].1), bd) {
        LeftAndHolds(cs, bd);
      }
    }
  }

  /** `get_multi_where_clause_notequal`: the same fold with inequalities. */
  method GetMultiWhereClauseNotEqual(columns: Dicts.Dict<string, (ColRef, Operand)>) returns (w: Option<Cond>)
    ensures w == LeftAnd(NeLeaves(columns))
    ensures w.None? <==> |columns| == 0
    ensures w.Some? ==> forall bd :: Holds(w.value, bd) <==> forall i :: 0 <= i < |columns| ==> Holds(NeLeaf(columns[i].1), bd)
  {
    var cs := NeLeaves(columns);
    w := None;
    var i := 0;
    while i < |columns|
      invariant 0 <= i <= |columns|
      invariant w == LeftAnd(cs[..i])
    {
      AndStepExtends(cs, i);
      w := Some(AndStep(w, NeLeaf(columns[i].1)));
      i := i + 1;
    }
    assert cs[..i] == cs;
    if w.Some? {
      forall bd ensures Holds(w.value, bd) <==> forall i :: 0 <= i < |columns| ==> Holds(NeLeaf(columns[i].1), bd) {
        LeftAndHolds(cs, bd);
      }
    }
  }

  /** `get_multi_where_clause_isnull`: every listed column is NULL. */
  method GetMultiWhereClauseIsNull(cols: seq<ColRef>) returns (w: Option<Cond>)
    ensures w == LeftAnd(NullLeaves(cols))
    ensures w.None? <==> |cols| == 0
    ensures w.Some? ==> forall bd :: Holds(w.value, bd) <==> forall i :: 0 <= i < |cols| ==> Lookup(bd, cols[i]).None?
  {
    var cs := NullLeaves(cols);
    w := None;
    var i := 0;
    while i < |cols|
      invariant 0 <= i <= |cols|
      invariant w == LeftAnd(cs[..i])
    {
      AndStepExtends(cs, i);
      w := Some(AndStep(w, IsNull(cols[i])));
      i := i + 1;
    }
    assert cs[..i] == cs;
    if w.Some? {
      forall bd ensures Holds(w.value, bd) <==> forall i :: 0 <= i < |cols| ==> Lookup(bd, cols[i]).None? {
        LeftAndHolds(cs, bd);
      }
    }
  }

  /** `get_db_columns_with_labels`: each column labelled with its key, in key order. */
  function ColumnsWithLabels(columns: Dicts.Dict<string, ColRef>): (r: seq<SelectCol>)
    ensures |r| == |columns|
    ensures forall i :: 0 <= i < |r| ==> r[i].Labelled? && r[i].name == columns[i].0 && r[i].col == columns[i].1
  {
    seq(|columns|, i requires 0 <= i < |columns| => Labelled(columns[i].1, columns[i].0))
  }

  /** A row selected through labelled columns holds, under each key, the value of its column. */
  lemma LabelledProjection(columns: Dicts.Dict<string, ColRef>, bd: Binding)
    ensures forall i :: 0 <= i < |columns| ==> Project(bd, ColumnsWithLabels(columns))[i] == Lookup(bd, columns[i].1)
  {
  }

  /** `get_query_join`: an inner join with an optional WHERE clause. A join
      without condition cannot be formed (the tables have no foreign keys to
      infer one from). */
  function GetQueryJoin(main: string, link: string, cols: seq<SelectCol>, join: Option<Cond>, where: Option<Cond>): (r: Result<Select, Error>)
    ensures r.Success? <==> join.Some?
    ensures r.Success? ==> r.value == Select(cols, JoinTables(main, link, join.value, false), where)
  {
    if join.None? then Failure(JoinWithoutCondition)
    else Success(Select(cols, JoinTables(main, link, join.value, false), where))
  }

  /** `get_query_join_where_clause`: a left outer join with a mandatory WHERE clause. */
  function GetQueryJoinWhereClause(main: string, link: string, cols: seq<SelectCol>, join: Option<Cond>, where: Cond): (r: Result<Select, Error>)
    ensures r.Success? <==> join.Some?
    ensures r.Success? ==> r.value == Select(cols, JoinTables(main, link, join.value, true), Some(where))
  {
    if join.None? then Failure(JoinWithoutCondition)
    else Success(Select(cols, JoinTables(main, link, join.value, true), Some(where)))
  }

  /** The outer-join select's filter on "every right key column is NULL". */
  predicate AntiJoin(q: Select, keys: seq<ColRef>) {
    && q.source.JoinTables? && q.source.outer && q.source.left != q.source.right
    && |keys| > 0 && q.filter == LeftAnd(NullLeaves(keys))
    && (forall i :: 0 <= i < |keys| ==> keys[i].table == q.source.right)
  }

  /** A binding an anti-join keeps is a left row without partner, alone. */
  lemma AntiJoinKeptSound(db: Db, q: Select, keys: seq<ColRef>, bd: Binding)
    requires AntiJoin(q, keys) && SourceIn(db, q.source) && bd in Kept(db, q)
    requires forall a, c :: Holds(q.source.on, Pair(q.source.left, a, q.source.right, c)) ==>
               Lookup(Pair(q.source.left, a, q.source.right, c), keys[0]).Some?
    ensures exists a :: a in db[q.source.left] && Unpartnered(a, q.source.left, q.source.right, db[q.source.right], q.source.on) &&
              bd == Single(q.source.left, a)
  {
    var l, r, on := q.source.left, q.source.right, q.source.on;
    var cs := NullLeaves(keys);
    assert bd in JoinRows(l, db[l], r, db[r], on, true) && Holds(q.filter.value, bd);
    OuterJoinMember(bd, l, db[l], r, db[r], on);
    LeftAndHolds(cs, bd);
    assert !Holds(cs[0], bd) ==> !Holds(q.filter.value, bd);
  }

  /** Every left row without partner is kept by an anti-join, alone. */
  lemma AntiJoinKeptComplete(db: Db, q: Select, keys: seq<ColRef>, a: Row)
    requires AntiJoin(q, keys) && SourceIn(db, q.source)
    requires a in db[q.source.left] && Unpartnered(a, q.source.left, q.source.right, db[q.source.right], q.source.on)
    ensures Single(q.source.left, a) in Kept(db, q)
  {
    var l, r, on := q.source.left, q.source.right, q.source.on;
    var bd := Single(l, a);
    OuterJoinMember(bd, l, db[l], r, db[r], on);
    assert OuterOf(bd, a, l, r, db[r], on);
    LeftAndHolds(NullLeaves(keys), bd);
    assert Holds(q.filter.value, bd);
  }

  /** The anti-join: a left outer join filtered on "every key column of the
      right table is NULL", where the join condition can only hold with those
      columns non-NULL, returns exactly the left rows that join with no right row. */
  lemma AntiJoinMember(db: Db, q: Select, keys: seq<ColRef>, t: Tuple)
    requires AntiJoin(q, keys) && SourceIn(db, q.source)
    requires forall a, c :: Holds(q.source.on, Pair(q.source.left, a, q.source.right, c)) ==>
               Lookup(Pair(q.source.left, a, q.source.right, c), keys[0]).Some?
    ensures t in EvalSelect(db, q) <==>
              exists a :: a in db[q.source.left] && Unpartnered(a, q.source.left, q.source.right, db[q.source.right], q.source.on) &&
                t == Project(Single(q.source.left, a), q.cols)
  {
    var l := q.source.left;
    forall bd | bd in Kept(db, q)
      ensures exists a :: a in db[l] && Unpartnered(a, l, q.source.right, db[q.source.right], q.source.on) && bd == Single(l, a)
    {
      AntiJoinKeptSound(db, q, keys, bd);
    }
    forall a | a in db[l] && Unpartnered(a, l, q.source.right, db[q.source.right], q.source.on)
      ensures Single(l, a) in Kept(db, q)
    {
      AntiJoinKeptComplete(db, q, keys, a);
    }
  }
}
