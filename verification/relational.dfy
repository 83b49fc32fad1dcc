/** The relational meaning given to the SQL the engine emits: rows, column
    references, and the condition trees built by the condition builder and the
    SQL utility folds.

    A condition is evaluated in two values with "unknown" read as false. SQL
    evaluates WHERE and ON clauses in three values and keeps a row only when the
    clause is TRUE; because no condition built here contains NOT, the
    two-valued reading is TRUE exactly when the three-valued one is. */
module Relational {
  import opened Wrappers

  /** A column value; `None` is SQL NULL. */
  type Value = Option<string>

  /** A table row: column name to value. A column the row does not hold reads as NULL. */
  type Row = map<string, Value>

  /** A column of a named table (SQLAlchemy's `table.c.column`). */
  datatype ColRef = ColRef(table: string, column: string)

  /** The column types the engine declares (SQLAlchemy's `String`,
      `Integer`, `Boolean`, `DateTime`); a string may carry a length. */
  datatype DbType = String(length: Option<nat>) | Integer | Boolean | DateTime

  /** One combination of rows of the tables in a statement's FROM clause,
      keyed by table name. */
  type Binding = map<string, Row>

  datatype Cond =
    | EqCols(left: ColRef, right: ColRef)
    | NeCols(left: ColRef, right: ColRef)
    | EqVal(col: ColRef, value: string)
    | NeVal(col: ColRef, value: string)
    | IsNull(col: ColRef)
    | NotNull(col: ColRef)
      /** `column == text(t)`: comparison with a raw SQL text fragment. */
    | EqText(col: ColRef, text: string)
      /** The SQL NULL constant that `and_`/`or_` substitute for a Python None operand. */
    | NullLit
    | And(prev: Cond, next: Cond)
    | Or(prev: Cond, next: Cond)

  /** The value a raw SQL text fragment denotes: a single-quoted literal
      denotes its contents, any other fragment (a number, say) its own text. */
  function TextValue(text: string): string {
    if |text| >= 2 && text[0] == '\'' && text[|text| - 1] == '\'' then text[1..|text| - 1]
    else text
  }

  /** The value of a column in a row; NULL when the row does not hold it. */
  function Field(row: Row, col: string): Value {
    if col in row then row[col] else None
  }

  function Lookup(b: Binding, c: ColRef): Value {
    if c.table in b then Field(b[c.table], c.column) else None
  }

  predicate Holds(c: Cond, b: Binding) {
    match c
    case EqCols(l, r) => Lookup(b, l).Some? && Lookup(b, l) == Lookup(b, r)
    case NeCols(l, r) => Lookup(b, l).Some? && Lookup(b, r).Some? && Lookup(b, l) != Lookup(b, r)
    case EqVal(x, v) => Lookup(b, x) == Some(v)
    case NeVal(x, v) => Lookup(b, x).Some? && Lookup(b, x) != Some(v)
    case IsNull(x) => Lookup(b, x).None?
    case NotNull(x) => Lookup(b, x).Some?
    case EqText(x, t) => Lookup(b, x) == Some(TextValue(t))
    case NullLit => false
    case And(p, q) => Holds(p, b) && Holds(q, b)
    case Or(p, q) => Holds(p, b) || Holds(q, b)
  }

  predicate IsLeaf(c: Cond) {
    !c.And? && !c.Or?
  }

  /** The leaves of a condition tree, left to right. */
  function Leaves(c: Cond): (r: seq<Cond>)
    ensures |r| >= 1
    ensures forall i :: 0 <= i < |r| ==> IsLeaf(r[i])
  {
    match c
    case And(p, q) => Leaves(p) + Leaves(q)
    case Or(p, q) => Leaves(p) + Leaves(q)
    case _ => [c]
  }

  /** The tables whose columns a condition reads. */
  function Tables(c: Cond): set<string> {
    match c
    case EqCols(l, r) => {l.table, r.table}
    case NeCols(l, r) => {l.table, r.table}
    case EqVal(x, _) => {x.table}
    case NeVal(x, _) => {x.table}
    case IsNull(x) => {x.table}
    case NotNull(x) => {x.table}
    case EqText(x, _) => {x.table}
    case NullLit => {}
    case And(p, q) => Tables(p) + Tables(q)
    case Or(p, q) => Tables(p) + Tables(q)
  }

  /** The condition reads columns of the tables `a` and `b` only. */
  predicate ReadsOnly(c: Cond, a: string, b: string) {
    match c
    case EqCols(l, r) => (l.table == a || l.table == b) && (r.table == a || r.table == b)
    case NeCols(l, r) => (l.table == a || l.table == b) && (r.table == a || r.table == b)
    case EqVal(x, _) => x.table == a || x.table == b
    case NeVal(x, _) => x.table == a || x.table == b
    case IsNull(x) => x.table == a || x.table == b
    case NotNull(x) => x.table == a || x.table == b
    case EqText(x, _) => x.table == a || x.table == b
    case NullLit => true
    case And(p, q) => ReadsOnly(p, a, b) && ReadsOnly(q, a, b)
    case Or(p, q) => ReadsOnly(p, a, b) && ReadsOnly(q, a, b)
  }

  /** A condition reads only `a` and `b` exactly when its tables lie within them. */
  lemma {:induction false} ReadsOnlyTables(c: Cond, a: string, b: string)
    ensures ReadsOnly(c, a, b) <==> Tables(c) <= {a, b}
  {
    match c
    case And(p, q) =>
      ReadsOnlyTables(p, a, b);
      ReadsOnlyTables(q, a, b);
    case Or(p, q) =>
      ReadsOnlyTables(p, a, b);
      ReadsOnlyTables(q, a, b);
    case _ =>
  }

  /** Reference definition of a left-nested conjunction `((c1 AND c2) AND c3) ...`;
      None for no conjuncts. */
  function LeftAnd(cs: seq<Cond>): (r: Option<Cond>)
    ensures r.Some? <==> |cs| > 0
  {
    if |cs| == 0 then None
    else if |cs| == 1 then Some(cs[0])
    else Some(And(LeftAnd(cs[..|cs| - 1]).value, cs[|cs| - 1]))
  }

  /** A left-nested conjunction holds exactly when every conjunct holds. */
  lemma {:induction false} LeftAndHolds(cs: seq<Cond>, b: Binding)
    requires |cs| > 0
    ensures Holds(LeftAnd(cs).value, b) <==> forall i :: 0 <= i < |cs| ==> Holds(cs[i], b)
    decreases |cs|
  {
    if |cs| > 1 {
      var init := cs[..|cs| - 1];
      LeftAndHolds(init, b);
      assert forall i :: 0 <= i < |init| ==> init[i] == cs[i];
    }
  }

  /** The leaves of a left-nested conjunction of leaves are the conjuncts, in order. */
  lemma {:induction false} LeftAndLeaves(cs: seq<Cond>)
    requires |cs| > 0
    requires forall i :: 0 <= i < |cs| ==> IsLeaf(cs[i])
    ensures Leaves(LeftAnd(cs).value) == cs
    decreases |cs|
  {
    if |cs| > 1 {
      LeftAndLeaves(cs[..|cs| - 1]);
      assert cs == cs[..|cs| - 1] + [cs[|cs| - 1]];
    }
  }

  /** A left-nested conjunction reads exactly the tables its conjuncts read. */
  lemma {:induction false} LeftAndTables(cs: seq<Cond>, ts: set<string>)
    requires |cs| > 0
    requires forall i :: 0 <= i < |cs| ==> Tables(cs[i]) <= ts
    ensures Tables(LeftAnd(cs).value) <= ts
    decreases |cs|
  {
    if |cs| > 1 {
      LeftAndTables(cs[..|cs| - 1], ts);
    }
  }

  /** The truth of a condition depends only on the rows of the tables it reads. */
  lemma {:induction false} HoldsOnlyReads(c: Cond, b1: Binding, b2: Binding)
    requires forall t :: t in Tables(c) ==> (t in b1 <==> t in b2) && (t in b1 ==> b1[t] == b2[t])
    ensures Holds(c, b1) <==> Holds(c, b2)
  {
    match c
    case And(p, q) =>
      HoldsOnlyReads(p, b1, b2);
      HoldsOnlyReads(q, b1, b2);
    case Or(p, q) =>
      HoldsOnlyReads(p, b1, b2);
      HoldsOnlyReads(q, b1, b2);
    case _ =>
  }
}
