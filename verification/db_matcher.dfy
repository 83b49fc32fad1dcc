/** What the matchers share: the matching policy, the data sources a matcher
    reads, and the column lists of the insert that records positive matches.
    (The matchers' common base class is not part of this model; these are the
    shapes both matchers rely on.) */
module DbMatcher {
  import opened Wrappers
  import opened Relational
  import opened Statements
  import Dicts
  import Seqs
  import CB = ConditionBuilder
  import SB = SelectBuilder

  /** A policy section: rule name to the aliases the rule joins on, in order. */
  type Rules = Dicts.Dict<string, seq<string>>
  /** A matching policy: matching type ('dfm', 'drm', 'ifm') to its rules. */
  type Policy = map<string, Rules>

  predicate HasRuleType(p: Policy, t: string) {
    t in p && |p[t]| > 0
  }

  /** What the matcher needs to know of its data sources. */
  datatype Sources = Sources(
    targetName: string,
    /** alias to target (and no-matching) column */
    targetAlias: map<string, string>,
    /** target columns mapped to the matching table, by name */
    targetMapped: seq<string>,
    noMatching: string,
    matchingId: string,
    referential: string,
    /** alias to referential column */
    refAlias: map<string, string>,
    /** referential columns mapped to the matching table: (column, matching-table name) */
    refMapped: seq<(string, string)>,
    matching: string)

  /** `_get_cols_match`: the select columns and the matching-table names are
      built in parallel — literal columns, then the target's mapped columns
      read from the no-matching table under their own names, then the
      referential mapped columns. */
  function ColsMatch(src: Sources, literals: seq<(string, string)>): (r: (seq<SelectCol>, seq<string>))
    ensures |r.0| == |r.1| == |literals| + |src.targetMapped| + |src.refMapped|
    ensures forall i :: 0 <= i < |literals| ==>
              r.0[i] == Literal(literals[i].0, literals[i].1) && r.1[i] == literals[i].1
    ensures forall i :: 0 <= i < |src.targetMapped| ==>
              var k := |literals| + i;
              r.0[k] == Column(ColRef(src.noMatching, src.targetMapped[i])) && r.1[k] == src.targetMapped[i]
    ensures forall i :: 0 <= i < |src.refMapped| ==>
              var k := |literals| + |src.targetMapped| + i;
              r.0[k] == Column(ColRef(src.referential, src.refMapped[i].0)) && r.1[k] == src.refMapped[i].1
  {
    var lits := LiteralCols(literals);
    var nmCols := TableCols(src.noMatching, src.targetMapped);
    var refs := RefCols(src.referential, src.refMapped);
    var r := (lits.0 + nmCols + refs.0, lits.1 + src.targetMapped + refs.1);
    LiteralPart(src, literals, lits, nmCols, refs, r);
    TargetPart(src, literals, lits, nmCols, refs, r);
    RefPart(src, literals, lits, nmCols, refs, r);
    r
  }

  /** The three parts of `ColsMatch`'s two parallel lists. */
  predicate ColsMatchParts(src: Sources, literals: seq<(string, string)>, lits: (seq<SelectCol>, seq<string>),
                           nmCols: seq<SelectCol>, refs: (seq<SelectCol>, seq<string>), r: (seq<SelectCol>, seq<string>)) {
    && lits == LiteralCols(literals) && nmCols == TableCols(src.noMatching, src.targetMapped)
    && refs == RefCols(src.referential, src.refMapped)
    && r == (lits.0 + nmCols + refs.0, lits.1 + src.targetMapped + refs.1)
  }

  /** The literal columns open both lists. */
  lemma LiteralPart(src: Sources, literals: seq<(string, string)>, lits: (seq<SelectCol>, seq<string>),
                    nmCols: seq<SelectCol>, refs: (seq<SelectCol>, seq<string>), r: (seq<SelectCol>, seq<string>))
    requires ColsMatchParts(src, literals, lits, nmCols, refs, r)
    ensures forall i :: 0 <= i < |literals| ==>
              r.0[i] == Literal(literals[i].0, literals[i].1) && r.1[i] == literals[i].1
  {
    forall i | 0 <= i < |literals|
      ensures r.0[i] == Literal(literals[i].0, literals[i].1) && r.1[i] == literals[i].1
    {
      assert r.0[i] == lits.0[i] && r.1[i] == lits.1[i];
    }
  }

  /** The target's columns follow the literal columns in both lists. */
  lemma TargetPart(src: Sources, literals: seq<(string, string)>, lits: (seq<SelectCol>, seq<string>),
                   nmCols: seq<SelectCol>, refs: (seq<SelectCol>, seq<string>), r: (seq<SelectCol>, seq<string>))
    requires ColsMatchParts(src, literals, lits, nmCols, refs, r)
    ensures forall i :: 0 <= i < |src.targetMapped| ==>
              var k := |literals| + i;
              r.0[k] == Column(ColRef(src.noMatching, src.targetMapped[i])) && r.1[k] == src.targetMapped[i]
  {
    forall i | 0 <= i < |src.targetMapped|
      ensures r.0[|literals| + i] == Column(ColRef(src.noMatching, src.targetMapped[i]))
      ensures r.1[|literals| + i] == src.targetMapped[i]
    {
      TargetAt(src, literals, lits, nmCols, refs, r, i);
    }
  }

  /** Position `|literals| + i` of both lists holds the target's `i`-th column. */
  lemma TargetAt(src: Sources, literals: seq<(string, string)>, lits: (seq<SelectCol>, seq<string>),
                 nmCols: seq<SelectCol>, refs: (seq<SelectCol>, seq<string>), r: (seq<SelectCol>, seq<string>), i: nat)
    requires ColsMatchParts(src, literals, lits, nmCols, refs, r) && i < |src.targetMapped|
    ensures r.0[|literals| + i] == Column(ColRef(src.noMatching, src.targetMapped[i]))
    ensures r.1[|literals| + i] == src.targetMapped[i]
  {
    assert r.0[|literals| + i] == (lits.0 + nmCols)[|literals| + i] == nmCols[i];
    assert r.1[|literals| + i] == (lits.1 + src.targetMapped)[|literals| + i];
  }

  /** The referential columns close both lists. */
  lemma RefPart(src: Sources, literals: seq<(string, string)>, lits: (seq<SelectCol>, seq<string>),
                nmCols: seq<SelectCol>, refs: (seq<SelectCol>, seq<string>), r: (seq<SelectCol>, seq<string>))
    requires ColsMatchParts(src, literals, lits, nmCols, refs, r)
    ensures forall i :: 0 <= i < |src.refMapped| ==>
              var k := |literals| + |src.targetMapped| + i;
              r.0[k] == Column(ColRef(src.referential, src.refMapped[i].0)) && r.1[k] == src.refMapped[i].1
  {
    forall i | 0 <= i < |src.refMapped|
      ensures r.0[|literals| + |src.targetMapped| + i] == Column(ColRef(src.referential, src.refMapped[i].0))
      ensures r.1[|literals| + |src.targetMapped| + i] == src.refMapped[i].1
    {
      RefAt(src, literals, lits, nmCols, refs, r, i);
    }
  }

  /** Position `|literals| + |targetMapped| + i` of both lists holds the
      referential's `i`-th column. */
  lemma RefAt(src: Sources, literals: seq<(string, string)>, lits: (seq<SelectCol>, seq<string>),
              nmCols: seq<SelectCol>, refs: (seq<SelectCol>, seq<string>), r: (seq<SelectCol>, seq<string>), i: nat)
    requires ColsMatchParts(src, literals, lits, nmCols, refs, r) && i < |src.refMapped|
    ensures r.0[|literals| + |src.targetMapped| + i] == Column(ColRef(src.referential, src.refMapped[i].0))
    ensures r.1[|literals| + |src.targetMapped| + i] == src.refMapped[i].1
  {
    assert r.0[|literals| + |src.targetMapped| + i] == refs.0[i];
    assert r.1[|literals| + |src.targetMapped| + i] == refs.1[i];
  }

  /** The literal columns of a rule, and the names they are inserted under. */
  function LiteralCols(literals: seq<(string, string)>): (r: (seq<SelectCol>, seq<string>))
    ensures |r.0| == |r.1| == |literals|
    ensures forall i :: 0 <= i < |literals| ==> r.0[i] == Literal(literals[i].0, literals[i].1) && r.1[i] == literals[i].1
  {
    (seq(|literals|, i requires 0 <= i < |literals| => Literal(literals[i].0, literals[i].1)),
     seq(|literals|, i requires 0 <= i < |literals| => literals[i].1))
  }

  /** The columns `names` of `table`, in order. */
  function TableCols(table: string, names: seq<string>): (cols: seq<SelectCol>)
    ensures |cols| == |names| && forall i :: 0 <= i < |names| ==> cols[i] == Column(ColRef(table, names[i]))
  {
    seq(|names|, i requires 0 <= i < |names| => Column(ColRef(table, names[i])))
  }

  /** The referential mapped columns, and the matching-table names they are inserted under. */
  function RefCols(table: string, mapped: seq<(string, string)>): (r: (seq<SelectCol>, seq<string>))
    ensures |r.0| == |r.1| == |mapped|
    ensures forall i :: 0 <= i < |mapped| ==> r.0[i] == Column(ColRef(table, mapped[i].0)) && r.1[i] == mapped[i].1
  {
    (seq(|mapped|, i requires 0 <= i < |mapped| => Column(ColRef(table, mapped[i].0))),
     seq(|mapped|, i requires 0 <= i < |mapped| => mapped[i].1))
  }

  /** The column pairs of a key join: each key's left column against its right column. */
  function KeyPairs(left: string, right: string, keys: seq<(string, string)>): (ps: seq<(ColRef, ColRef)>)
    ensures |ps| == |keys|
  {
    seq(|keys|, i requires 0 <= i < |keys| => (ColRef(left, keys[i].0), ColRef(right, keys[i].1)))
  }

  /** Reference meaning of a key join: every key column of the left row is
      non-NULL and equal to the right row's key column. */
  predicate KeysMatch(row: Row, c: Row, keys: seq<(string, string)>) {
    forall i :: 0 <= i < |keys| ==> Field(row, keys[i].0).Some? && Field(row, keys[i].0) == Field(c, keys[i].1)
  }

  /** The join condition the matchers fold from the keys: a left-nested AND
      of one column equality per key, in order. */
  function KeyJoin(left: string, right: string, keys: seq<(string, string)>): Cond
    requires |keys| > 0
  {
    LeftAnd(CB.EqLeaves(KeyPairs(left, right, keys))).value
  }

  /** The join condition holds for a pair of rows exactly when their keys match. */
  lemma JoinHoldsIffKeysMatch(left: string, right: string, keys: seq<(string, string)>, a: Row, c: Row)
    requires left != right && |keys| > 0
    ensures (Holds(KeyJoin(left, right, keys), Pair(left, a, right, c)) <==> KeysMatch(a, c, keys))
  {
    var eqs := CB.EqLeaves(KeyPairs(left, right, keys));
    var bd := Pair(left, a, right, c);
    LeftAndHolds(eqs, bd);
    assert forall i :: 0 <= i < |keys| ==>
             (Holds(eqs[i], bd) <==> Field(a, keys[i].0).Some? && Field(a, keys[i].0) == Field(c, keys[i].1));
  }

  /** The key join reads exactly the two tables it relates. */
  lemma {:induction false} KeyJoinTables(left: string, right: string, keys: seq<(string, string)>)
    requires |keys| > 0
    ensures Tables(KeyJoin(left, right, keys)) == {left, right}
    decreases |keys|
  {
    var n := |keys| - 1;
    if n > 0 {
      KeyJoinTables(left, right, keys[..n]);
      assert CB.EqLeaves(KeyPairs(left, right, keys))[..n] == CB.EqLeaves(KeyPairs(left, right, keys[..n]));
    }
  }

  /** So the key join, as the ON clause of a join of its two tables, reads
      only those tables. */
  lemma KeyJoinReadsOnly(left: string, right: string, keys: seq<(string, string)>)
    requires |keys| > 0
    ensures ReadsOnly(KeyJoin(left, right, keys), left, right)
  {
    KeyJoinTables(left, right, keys);
    ReadsOnlyTables(KeyJoin(left, right, keys), left, right);
  }

  /** The shape of a matcher's select: the left table inner-joined to the
      right one on the key join, keeping the left rows of one target. */
  predicate KeyJoinSelect(q: Select, keys: seq<(string, string)>, tgtCol: string, tgtName: string) {
    && |keys| > 0 && q.source.JoinTables? && !q.source.outer && q.source.left != q.source.right
    && q.source.on == KeyJoin(q.source.left, q.source.right, keys)
    && q.filter == Some(EqVal(ColRef(q.source.left, tgtCol), tgtName))
  }

  /** The rows of such a select: one per (left row of the target, right row)
      pair whose keys match. */
  lemma KeyJoinSelectMember(db: Db, q: Select, keys: seq<(string, string)>, tgtCol: string, tgtName: string, t: Tuple)
    requires KeyJoinSelect(q, keys, tgtCol, tgtName) && q.source.left in db && q.source.right in db
    ensures SourceIn(db, q.source)
    ensures t in EvalSelect(db, q) <==>
              exists a, c :: a in db[q.source.left] && c in db[q.source.right] &&
                Field(a, tgtCol) == Some(tgtName) && KeysMatch(a, c, keys) &&
                t == Project(Pair(q.source.left, a, q.source.right, c), q.cols)
  {
    var l, r := q.source.left, q.source.right;
    JoinSelectMember(db, q, t);
    if t in EvalSelect(db, q) {
      var a, c :| a in db[l] && c in db[r] &&
        var bd := Pair(l, a, r, c);
        Holds(q.source.on, bd) && Holds(q.filter.value, bd) && t == Project(bd, q.cols);
      KeyJoinPairHolds(q, keys, tgtCol, tgtName, a, c);
    }
    if exists a, c :: a in db[l] && c in db[r] &&
         Field(a, tgtCol) == Some(tgtName) && KeysMatch(a, c, keys) && t == Project(Pair(l, a, r, c), q.cols)
    {
      var a, c :| a in db[l] && c in db[r] &&
        Field(a, tgtCol) == Some(tgtName) && KeysMatch(a, c, keys) && t == Project(Pair(l, a, r, c), q.cols);
      KeyJoinPairHolds(q, keys, tgtCol, tgtName, a, c);
    }
  }

  /** A pair of rows passes such a select's ON and WHERE clauses exactly
      when the left row is of the target and the keys match. */
  lemma KeyJoinPairHolds(q: Select, keys: seq<(string, string)>, tgtCol: string, tgtName: string, a: Row, c: Row)
    requires KeyJoinSelect(q, keys, tgtCol, tgtName)
    ensures var bd := Pair(q.source.left, a, q.source.right, c);
            Holds(q.source.on, bd) && Holds(q.filter.value, bd) <==> Field(a, tgtCol) == Some(tgtName) && KeysMatch(a, c, keys)
  {
    JoinHoldsIffKeysMatch(q.source.left, q.source.right, keys, a, c);
    assert Lookup(Pair(q.source.left, a, q.source.right, c), ColRef(q.source.left, tgtCol)) == Field(a, tgtCol);
  }

  /** A matching pair of rows yields a row of such a select. */
  lemma KeyJoinSelectHas(db: Db, q: Select, keys: seq<(string, string)>, tgtCol: string, tgtName: string, a: Row, c: Row)
    requires KeyJoinSelect(q, keys, tgtCol, tgtName)
    requires q.source.left in db && q.source.right in db && a in db[q.source.left] && c in db[q.source.right]
    requires Field(a, tgtCol) == Some(tgtName) && KeysMatch(a, c, keys)
    ensures SourceIn(db, q.source)
    ensures Project(Pair(q.source.left, a, q.source.right, c), q.cols) in EvalSelect(db, q)
  {
    KeyJoinPairHolds(q, keys, tgtCol, tgtName, a, c);
    JoinSelectMember(db, q, Project(Pair(q.source.left, a, q.source.right, c), q.cols));
  }

  /** The conditions of a rule: the join condition (None without aliases),
      the WHERE condition, and the resolved key column pairs. */
  datatype Conditions = Conditions(join: Option<Cond>, filter: Cond, keys: seq<(string, string)>)

  /** The select builder calls both matchers make for a rule: from the
      no-matching table, joined to the referential table on the join
      condition, filtered by the WHERE condition. */
  function SelectChain(s: SB.SelectState, src: Sources, cols: seq<SelectCol>, c: Conditions): (r: (SB.SelectState, Select))
    ensures r.0 == SB.SelectState(cols, Some(src.noMatching), Some(src.referential), "join", c.join, Some(c.filter))
    ensures r.1.cols == cols && r.1.filter == Some(c.filter)
    ensures c.join.Some? ==> r.1.source == JoinTables(src.noMatching, src.referential, c.join.value, false)
    ensures c.join.None? ==> r.1.source == FromTable(src.noMatching)
  {
    var s1 := SB.CreateSelect(s, cols);
    var s2 := SB.FromTable(s1, src.noMatching);
    var s3 := SB.JoinOn(SB.JoinTable(s2, src.referential), c.join, "join");
    var s4 := SB.WhereCondition(s3, Some(c.filter));
    (s4, SB.Build(s4).value)
  }
}
