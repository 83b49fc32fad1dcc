/** The step-by-step condition builder. Its whole state is the condition it
    currently holds, `None` when empty.

    Each leaf operation REPLACES the held condition; only `AndCondition` and
    `OrCondition` combine, and they put the operand they are given first and
    the held condition second. A Python `None` operand of `and_`/`or_` is
    rendered by SQLAlchemy as the NULL constant, which is never TRUE. */
module ConditionBuilder {
  import opened Wrappers
  import opened Relational

  datatype CondBuilder = CondBuilder(cond: Option<Cond>)

  function NewBuilder(): (b: CondBuilder)
    ensures GetCondition(b).None?
  {
    CondBuilder(None)
  }

  function Clean(b: CondBuilder): (r: CondBuilder)
    ensures GetCondition(r).None?
  {
    CondBuilder(None)
  }

  /** `create_condition`: starts a new condition by cleaning the builder. */
  function CreateCondition(b: CondBuilder): (r: CondBuilder)
    ensures r == NewBuilder()
  {
    Clean(b)
  }

  function GetCondition(b: CondBuilder): Option<Cond> {
    b.cond
  }

  /** The operand SQLAlchemy substitutes for a Python value that may be None. */
  function Operand(c: Option<Cond>): (r: Cond)
    ensures forall bd :: Holds(r, bd) <==> c.Some? && Holds(c.value, bd)
  {
    match c
    case Some(x) => x
    case None => NullLit
  }

  /** `column_a = column_b`: true when both are non-NULL and equal. */
  function EqualCols(b: CondBuilder, left: ColRef, right: ColRef): (r: CondBuilder)
    ensures r.cond.Some? && Leaves(r.cond.value) == [r.cond.value]
    ensures forall bd :: Holds(r.cond.value, bd) <==> Lookup(bd, left).Some? && Lookup(bd, left) == Lookup(bd, right)
  {
    CondBuilder(Some(EqCols(left, right)))
  }

  /** `column_a != column_b`: true when both are non-NULL and differ. */
  function NotEqualCols(b: CondBuilder, left: ColRef, right: ColRef): (r: CondBuilder)
    ensures r.cond.Some? && Leaves(r.cond.value) == [r.cond.value]
    ensures forall bd :: Holds(r.cond.value, bd) <==>
              Lookup(bd, left).Some? && Lookup(bd, right).Some? && Lookup(bd, left) != Lookup(bd, right)
  {
    CondBuilder(Some(NeCols(left, right)))
  }

  /** `column = value` */
  function EqualValue(b: CondBuilder, col: ColRef, value: string): (r: CondBuilder)
    ensures r.cond.Some? && Leaves(r.cond.value) == [r.cond.value]
    ensures forall bd :: Holds(r.cond.value, bd) <==> Lookup(bd, col) == Some(value)
  {
    CondBuilder(Some(EqVal(col, value)))
  }

  /** `column != value`: true when the column is non-NULL and differs. */
  function NotEqualValue(b: CondBuilder, col: ColRef, value: string): (r: CondBuilder)
    ensures r.cond.Some? && Leaves(r.cond.value) == [r.cond.value]
    ensures forall bd :: Holds(r.cond.value, bd) <==> Lookup(bd, col).Some? && Lookup(bd, col).value != value
  {
    CondBuilder(Some(NeVal(col, value)))
  }

  function IsNullCond(b: CondBuilder, col: ColRef): (r: CondBuilder)
    ensures r.cond.Some? && Leaves(r.cond.value) == [r.cond.value]
    ensures forall bd :: Holds(r.cond.value, bd) <==> Lookup(bd, col).None?
  {
    CondBuilder(Some(IsNull(col)))
  }

  function IsNotNullCond(b: CondBuilder, col: ColRef): (r: CondBuilder)
    ensures r.cond.Some? && Leaves(r.cond.value) == [r.cond.value]
    ensures forall bd :: Holds(r.cond.value, bd) <==> Lookup(bd, col).Some?
  {
    CondBuilder(Some(NotNull(col)))
  }

  /** `and_(previous, held)` */
  function AndCondition(b: CondBuilder, previous: Option<Cond>): (r: CondBuilder)
    ensures r.cond.Some?
    ensures forall bd :: Holds(r.cond.value, bd) <==>
              previous.Some? && Holds(previous.value, bd) && b.cond.Some? && Holds(b.cond.value, bd)
    ensures previous.Some? && b.cond.Some? ==>
              Leaves(r.cond.value) == Leaves(previous.value) + Leaves(b.cond.value)
  {
    CondBuilder(Some(And(Operand(previous), Operand(b.cond))))
  }

  /** `or_(previous, held)` */
  function OrCondition(b: CondBuilder, previous: Option<Cond>): (r: CondBuilder)
    ensures r.cond.Some?
    ensures forall bd :: Holds(r.cond.value, bd) <==>
              (previous.Some? && Holds(previous.value, bd)) || (b.cond.Some? && Holds(b.cond.value, bd))
    ensures previous.Some? && b.cond.Some? ==>
              Leaves(r.cond.value) == Leaves(previous.value) + Leaves(b.cond.value)
  {
    CondBuilder(Some(Or(Operand(previous), Operand(b.cond))))
  }

  /** A leaf operation discards whatever the builder held: two leaves in a row
      leave only the second, not their conjunction. */
  lemma LeafDiscardsPrevious(b: CondBuilder, l1: ColRef, r1: ColRef, l2: ColRef, r2: ColRef)
    ensures GetCondition(EqualCols(EqualCols(b, l1, r1), l2, r2)) == GetCondition(EqualCols(NewBuilder(), l2, r2))
    ensures GetCondition(IsNullCond(EqualCols(b, l1, r1), l2)) == GetCondition(IsNullCond(NewBuilder(), l2))
  {
  }

  /** The fold the matchers use to join conditions — first leaf as is, then
      `leaf.and_condition(accumulated)` for each further leaf — builds the
      left-nested conjunction of the leaves, whatever the builder held before. */
  function FoldEqualCols(b: CondBuilder, pairs: seq<(ColRef, ColRef)>): (r: Option<Cond>)
    decreases |pairs|
  {
    if |pairs| == 0 then None
    else
      var acc := FoldEqualCols(b, pairs[..|pairs| - 1]);
      var leaf := EqualCols(CreateCondition(b), pairs[|pairs| - 1].0, pairs[|pairs| - 1].1);
      if acc.None? then GetCondition(leaf) else GetCondition(AndCondition(leaf, acc))
  }

  function EqLeaves(pairs: seq<(ColRef, ColRef)>): (cs: seq<Cond>)
    ensures |cs| == |pairs|
  {
    seq(|pairs|, i requires 0 <= i < |pairs| => EqCols(pairs[i].0, pairs[i].1))
  }

  /** The condition fold equals the left-nested conjunction of the column
      equalities, whose leaves are those equalities in order. */
  lemma {:induction false} FoldEqualColsIsLeftAnd(b: CondBuilder, pairs: seq<(ColRef, ColRef)>)
    ensures FoldEqualCols(b, pairs) == LeftAnd(EqLeaves(pairs))
    ensures |pairs| > 0 ==> Leaves(FoldEqualCols(b, pairs).value) == EqLeaves(pairs)
    decreases |pairs|
  {
    if |pairs| > 0 {
      var n := |pairs| - 1;
      FoldEqualColsIsLeftAnd(b, pairs[..n]);
      assert EqLeaves(pairs)[..n] == EqLeaves(pairs[..n]);
      LeftAndLeaves(EqLeaves(pairs));
    }
  }
}
