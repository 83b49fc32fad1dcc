# esg-matching: a Dafny model of the reconciliation core

esg-matching reconciles a *target* dataset with a *referential* dataset
inside a relational database. Each step is expressed as SQL built with small
stateful builders:

- the exact matcher joins every target table to the referential table on
  its matching keys. It writes the pairs into a *matching* table and the
  unpartnered target rows into a *no-matching* table;
- the direct residual matcher (DRM) runs the rules of a matching policy
  over the no-matching table. For each rule it inserts the rows that now
  match into the matching table, then deletes them from the no-matching
  table by their matching id;
- the indirect matcher (IFM) runs its rules against the matching table.
  It inserts only, because its delete is commented out. As written, a
  rule's select joins the referential table while its ON clause reads the
  matching table, so the database refuses every rule with aliases unless
  the referential table is the matching table (see "## Findings").

Around these sit several supporting components:

- the condition, select, delete, column and table builders;
- the SQL helper functions;
- the database connector and engine with their session guards;
- a CSV reader, and a CSV-to-database loader that flushes rows in chunks;
- the JSON settings validator;
- the matching data source's standard-attribute checks;
- the file-name helpers.

The model gives SQL statements a relational meaning, and gives the builders
and matchers their behaviour as pure functions over that meaning:

- a database (`Relational.Db`) is a map from table name to a sequence of
  rows;
- a row is a map from column name to `Option<string>`, where `None` is SQL
  NULL;
- conditions are a tree of column and value comparisons, NULL tests, `And`
  and `Or`. They evaluate to two values, with "unknown" read as false.
  This is exact, because the tree has no negation;
- a select produces a sequence of tuples (`Statements.EvalSelect`). An
  insert-from-select appends one row per tuple. A delete-where-in removes
  the rows whose column value the subquery returns. The database refuses a
  statement whose ON clause reads a table outside its join
  (`Statements.OnInScope`);
- every Python exception becomes an `Errors.Error`. An operation that
  raises and leaves nothing behind returns a `Result`. An operation whose
  object survives the exception with changes made returns a
  `Run` (`Completed(state)` or `Aborted(state, error)`).

Modules follow the program: one Dafny module per source component. The
shared pieces are `Relational`, `Statements`, `Dicts` (Python dicts as
ordered key/value sequences), `Seqs`, `Wrappers` and `Errors`.

The headline results are:

- **DRM residual purge (`Drm.StepPurges`, `Drm.StepExactly`).** After a
  rule's insert-then-delete, no remaining no-matching row of the target
  joins with a referential row under that rule. The rule inserts exactly
  the matching pairs and deletes exactly the matched rows.
- **DRM idempotence (`Drm.StepIdempotent`).** Running the same rule again
  changes nothing.
- **DRM across a whole policy (`Drm.RunRulesPurged`).** Every rule of the
  policy stays purged when later rules have run.
- **Exact matcher coverage (`ExactMatcher.TargetStepRows`,
  `ExactMatcher.NoMatchingComplete`).** The matching table receives
  exactly the key-agreeing pairs, each flagged. Every unpartnered target
  row reaches the no-matching table.
- **IFM (`Ifm.ExecuteTrace`, `Ifm.ExecuteRejected`,
  `Ifm.IntendedStepInserts`).** The session, insert and commit protocol is
  stated as a trace of effects. A rule with aliases is refused whenever the
  referential table is not the matching table, leaving the session open.
  The corrected rule appends exactly the key-agreeing pairs of residual and
  matching rows.
- **Chunked load (`CsvToDb.FlushChunks`).** The flushed chunks concatenate
  back to the converted rows, in file order.

## Model

| member | source | states |
|---|---|---|
| ConditionBuilder.NewBuilder | esgmatching/db_engine/builders/sql_condition_builder.py:25-38 | a fresh builder holds no condition, so `get_condition` gives None |
| ConditionBuilder.CreateCondition | esgmatching/db_engine/builders/sql_condition_builder.py:40-54 | starting a condition gives exactly a fresh builder |
| ConditionBuilder.Clean | esgmatching/db_engine/builders/sql_condition_builder.py:207-220 | after `clean` no condition is held |
| ConditionBuilder.Operand | esgmatching/db_engine/builders/sql_condition_builder.py:158-190 | a None operand of `and_`/`or_` is the NULL literal: it holds on no binding, and a present condition holds exactly where it holds |
| ConditionBuilder.EqualCols | esgmatching/db_engine/builders/sql_condition_builder.py:56-71 | the builder now holds a single leaf, true exactly when both columns are non-NULL and equal |
| ConditionBuilder.NotEqualCols | esgmatching/db_engine/builders/sql_condition_builder.py:73-88 | a single leaf, true exactly when both columns are non-NULL and differ |
| ConditionBuilder.EqualValue | esgmatching/db_engine/builders/sql_condition_builder.py:90-106 | a single leaf, true exactly when the column holds the value |
| ConditionBuilder.NotEqualValue | esgmatching/db_engine/builders/sql_condition_builder.py:108-124 | a single leaf, true exactly when the column is non-NULL and differs from the value |
| ConditionBuilder.IsNullCond | esgmatching/db_engine/builders/sql_condition_builder.py:126-140 | a single leaf, true exactly when the column is NULL |
| ConditionBuilder.IsNotNullCond | esgmatching/db_engine/builders/sql_condition_builder.py:142-156 | a single leaf, true exactly when the column is non-NULL |
| ConditionBuilder.AndCondition | esgmatching/db_engine/builders/sql_condition_builder.py:158-173 | the result holds iff both the previous and the held condition hold; its leaves are the previous leaves followed by the held ones, so no earlier leaf is lost |
| ConditionBuilder.OrCondition | esgmatching/db_engine/builders/sql_condition_builder.py:175-190 | the result holds iff either condition holds; its leaves are the previous leaves followed by the held ones |
| ConditionBuilder.LeafDiscardsPrevious | esgmatching/db_engine/builders/sql_condition_builder.py:56-71 | a leaf method overwrites the held condition: the outcome is the same as from a fresh builder |
| ConditionBuilder.FoldEqualColsIsLeftAnd | esg_matching/matcher/drm.py:78-89 | the alias loop of `equal_cols` then `and_condition(previous)` builds the left-nested AND of the equalities in alias order, with exactly those leaves |
| SelectBuilder.NewSelect | esg_matching/db_engine/builders/select_builder.py:23-41 | a fresh select builder cannot build: it has no table |
| SelectBuilder.Clean | esg_matching/db_engine/builders/select_builder.py:155-173 | `clean` restores all six fields to the constructor's defaults |
| SelectBuilder.CreateSelect | esg_matching/db_engine/builders/select_builder.py:43-57 | `create_select` replaces only the column list; the from, join, join condition, join type and where are kept |
| SelectBuilder.FromTable | esg_matching/db_engine/builders/select_builder.py:59-73 | sets the from table and nothing else |
| SelectBuilder.JoinTable | esg_matching/db_engine/builders/select_builder.py:75-89 | sets the join table and nothing else |
| SelectBuilder.JoinOn | esg_matching/db_engine/builders/select_builder.py:91-107 | sets the join condition and join type together and nothing else |
| SelectBuilder.WhereCondition | esg_matching/db_engine/builders/select_builder.py:109-123 | sets the where condition and nothing else |
| SelectBuilder.Build | esg_matching/db_engine/builders/select_builder.py:125-153 | the build succeeds iff a from table is set and a join condition comes with a join table; it joins iff there is a join condition, outer iff the type is 'left', else reads only the from table; it keeps the columns and the where; the builder is unchanged |
| SelectBuilder.JoinTableIgnoredWithoutCondition | esg_matching/db_engine/builders/select_builder.py:147-148 | without a join condition, setting a join table does not change the statement |
| SelectBuilder.BuiltJoinSelectMember | esg_matching/db_engine/builders/select_builder.py:140-151 | the tuples of a built inner-join select are exactly the projections of the row pairs that satisfy both the join condition and the where |
| DeleteBuilder.NewDelete | esgmatching/db_engine/builders/delete_builder.py:17-34 | a fresh delete builder holds no last statement |
| DeleteBuilder.Clean | esgmatching/db_engine/builders/delete_builder.py:143-160 | `clean` resets all five fields, the last statement included |
| DeleteBuilder.CreateDelete | esgmatching/db_engine/builders/delete_builder.py:36-50 | `create_delete` is `clean`: `get_statement` is None afterwards |
| DeleteBuilder.FromTable | esgmatching/db_engine/builders/delete_builder.py:52-66 | sets the table and nothing else |
| DeleteBuilder.WhereCondition | esgmatching/db_engine/builders/delete_builder.py:68-82 | sets the where condition and nothing else |
| DeleteBuilder.WhereInCondition | esgmatching/db_engine/builders/delete_builder.py:84-101 | records the column and the subquery together and nothing else |
| DeleteBuilder.Build | esgmatching/db_engine/builders/delete_builder.py:103-141 | it succeeds iff a table is set and a subquery comes with its column; where-in iff a subquery is held, taking precedence over the plain where; with neither, every row is deleted; `get_statement` then returns the built statement |
| DeleteBuilder.BuiltWhereInDelete | esgmatching/db_engine/builders/delete_builder.py:105-123 | a built where-in delete keeps exactly the rows whose column value the subquery does not return |
| Drm.CanMatcherBeUsed | esg_matching/matcher/drm.py:40-57 | the policy's rules are returned iff it has non-empty 'drm' rules, else `DirectResidualMatchingNotInPolicy` |
| Drm.JoinKeys | esg_matching/matcher/drm.py:78-89 | each alias resolves to (no-matching column, referential column), in alias order; an alias missing from either mapping is reported |
| Drm.GetConditions | esg_matching/matcher/drm.py:59-95 | the join is the left-nested AND of one key equality per alias, holding iff the keys match; the where is "no-matching `tgt_name` = target name" |
| Drm.DeleteChain | esg_matching/matcher/drm.py:170-179 | the delete builder calls give "delete from no-matching where matching id in (ids)" and leave the builder holding it |
| Drm.PlanRule | esg_matching/matcher/drm.py:142-179 | a rule's statements are the conditions, the select of literal ++ no-matching ++ referential columns with parallel names, and the delete by id over the same join and where |
| Drm.PlanIgnoresBuilderState | esg_matching/matcher/drm.py:142-179 | the statements of a rule do not depend on what earlier rules left in the builders |
| Drm.Step | esg_matching/matcher/drm.py:155-179 | one rule changes only the matching and no-matching tables, and no table is created or dropped |
| Drm.RuleSelectScoped | esg_matching/matcher/drm.py:78-89 | the ON clause of a rule's select compares no-matching columns with referential columns only, so the database accepts it |
| Drm.RuleSelectMember | esg_matching/matcher/drm.py:155-159 | a rule's select returns exactly the projections of the pairs (no-matching row of this target, referential row) whose keys match |
| Drm.RuleIdValues | esg_matching/matcher/drm.py:170-179 | the delete's subquery returns exactly the matching ids of the matched rows |
| Drm.StepInserts | esg_matching/matcher/drm.py:161-165 | the insert appends one row per select tuple, named by the parallel names, in select order; the referential table is untouched |
| Drm.StepPurges | esg_matching/matcher/drm.py:168-179 | after the step, no remaining no-matching row of this target joins with a referential row |
| Drm.StepExactly | esg_matching/matcher/drm.py:155-179 | the step only removes no-matching rows, and no remaining row of this target is matched; when ids are unique, exactly the matched rows go; the referential table is untouched |
| Drm.QuietStep | esg_matching/matcher/drm.py:155-179 | a rule with nothing left to match changes no table |
| Drm.StepIdempotent | esg_matching/matcher/drm.py:168-179 | running a rule a second time changes nothing |
| Drm.RunRules | esg_matching/matcher/drm.py:142-179 | rules run in policy order, each on the tables as the earlier rules left them; the first error stops the run |
| Drm.Execute | esg_matching/matcher/drm.py:126-183 | without 'drm' rules it aborts with `DirectResidualMatchingNotInPolicy` before any statement |
| Drm.RunRulesShrinks | esg_matching/matcher/drm.py:142-179 | a completed run keeps the referential table, only removes no-matching rows, and resolved every rule's aliases |
| Drm.RunRulesPurged | esg_matching/matcher/drm.py:142-179 | after a completed run, every rule with aliases is still purged, earlier rules included |
| Drm.PurgedShrink | esg_matching/matcher/drm.py:168-179 | removing residual rows keeps a rule purged |
| DbMatcher.ColsMatch | esg_matching/matcher/drm.py:97-124 | the select columns are the literals, then the mapped no-matching columns, then the mapped referential columns; the names list runs in parallel |
| DbMatcher.JoinHoldsIffKeysMatch | esg_matching/matcher/drm.py:78-89 | the folded join condition holds for a pair of rows iff they agree, non-NULL, on every key pair |
| DbMatcher.KeyJoinTables | esg_matching/matcher/drm.py:78-89 | the key join reads exactly the two tables it relates |
| DbMatcher.KeyJoinSelectMember | esg_matching/matcher/drm.py:155-159 | a key-join select returns exactly the projections of this target's rows paired with key-agreeing rows |
| DbMatcher.SelectChain | esg_matching/matcher/drm.py:155-159 | the select builder calls of a rule give a select from no-matching joined to referential on the join condition, filtered by the where |
| Ifm.CanMatcherBeUsed | esgmatching/db_matcher/db_matcher_ifm.py:36-57 | the rules are returned iff the policy has non-empty 'ifm' rules, else `IndirectMatchingNotInPolicy` |
| Ifm.JoinKeys | esgmatching/db_matcher/db_matcher_ifm.py:78-90 | each alias pairs a no-matching column with the matching-table column of the same name, in alias order; an unknown alias is reported |
| Ifm.GetConditions | esgmatching/db_matcher/db_matcher_ifm.py:59-101 | the join is the left-nested AND of the key equalities; the returned where is only "no-matching `TGT_NAME` = target name" |
| Ifm.WhereBuilderNotReturned | esgmatching/db_matcher/db_matcher_ifm.py:91-101 | the conjunction left in the where builder differs from the returned where: some binding satisfies the latter and not the former |
| Ifm.ColsNoMatch | esgmatching/db_matcher/db_matcher_ifm.py:132-138 | the no-match columns are the literals, then the target's columns mapped to no-matching, with parallel names |
| Ifm.Step | esgmatching/db_matcher/db_matcher_ifm.py:156-194 | one rule, as written, succeeds iff its aliases resolve and the database accepts its insert-from-select; it then inserts into the matching table and commits, recording exactly an insert and a commit, and changes no other table |
| Ifm.StepRejected | esgmatching/db_matcher/db_matcher_ifm.py:166-179 | a rule with aliases whose referential table is not the matching table raises the database's refusal of an ON clause reading the matching table, which its select never joins |
| Ifm.ExecuteRejected | esgmatching/db_matcher/db_matcher_ifm.py:153-179 | so a run whose first rule has aliases aborts at that rule with the session open, no row inserted and only the session opening recorded |
| Ifm.RunRules | esgmatching/db_matcher/db_matcher_ifm.py:156-194 | rules run in order until one raises; only the matching table changes; the no-matching table is never deleted from; the session flag is kept |
| Ifm.Execute | esgmatching/db_matcher/db_matcher_ifm.py:140-196 | without 'ifm' rules it aborts; a completed run leaves no session open, a raising rule leaves it open; only the matching table changes |
| Ifm.RunRulesEffects | esgmatching/db_matcher/db_matcher_ifm.py:156-194 | the effects of a run are one insert then one commit per rule, and it completes iff every rule produced both |
| Ifm.ExecuteTrace | esgmatching/db_matcher/db_matcher_ifm.py:153-196 | a completed run opens a session only if none was open, inserts and commits once per rule, and closes the session at the end |
| Ifm.SelectScope | esgmatching/db_matcher/db_matcher_ifm.py:78-90 | the rule's join condition reads the matching table, which is in its FROM clause only when it is the referential table |
| Ifm.StepInserts | esgmatching/db_matcher/db_matcher_ifm.py:156-194 | a rule with aliases that succeeds has the matching table as its referential table; it keeps the matching table's rows in front and appends one row per pair of a residual row of the target and a matching row with the same non-NULL keys; the no-matching table is unchanged |
| Ifm.IntendedNames | esgmatching/db_matcher/db_matcher_ifm.py:123-130 | the corrected rule inserts under the same matching-table column names as the rule as written |
| Ifm.IntendedStepRuns | esgmatching/db_matcher/db_matcher_ifm.py:166-179 | the corrected rule, joining the matching table, succeeds whenever its aliases resolve and its column names are distinct |
| Ifm.IntendedStepInserts | esgmatching/db_matcher/db_matcher_ifm.py:166-179 | the corrected rule keeps the matching table's rows in front and appends one row per tuple of its select, on the rule's names; the no-matching table is unchanged |
| Ifm.IntendedSelectMember | esgmatching/db_matcher/db_matcher_ifm.py:166-173 | the corrected select returns exactly the projections of the pairs (residual row of the target, matching row) whose keys hold the same non-NULL values |
| MatcherBase.New | esgmatching/matcher/Matcher.py:13-31 | the constructor stores the name and reference source, with no targets and no keys |
| MatcherBase.SetMatchingKeys | esgmatching/matcher/Matcher.py:47-60 | the setter changes neither the name, the reference source nor the targets |
| MatcherBase.AddTarget | esgmatching/matcher/Matcher.py:62-74 | the target is appended at the end |
| MatcherBase.KeysRoundTrip | esgmatching/matcher/Matcher.py:33-60 | reading the keys after setting them gives them back; setting the keys just read changes nothing |
| MatcherBase.AddTargetKeepsRest | esgmatching/matcher/Matcher.py:62-74 | adding a target keeps the earlier targets in order and changes neither the keys, the name nor the reference |
| MatcherBase.AddTargetsInOrder | esgmatching/matcher/Matcher.py:62-74 | adding targets one by one appends them in order |
| SqlUtility.Strip | esgmatching/dbmanager/SqlUtility.py:18 | `strip()` gives the trimmed core: no surrounding whitespace, empty iff all whitespace |
| SqlUtility.StripUnique | esgmatching/dbmanager/SqlUtility.py:18 | any split into whitespace, trimmed core and whitespace determines the result |
| SqlUtility.StripIdempotent | esgmatching/dbmanager/SqlUtility.py:18 | stripping twice is stripping once |
| SqlUtility.GetValueDb | esgmatching/dbmanager/SqlUtility.py:5-22 | NULL iff the text is empty or whitespace, else the non-empty stripped text |
| SqlUtility.GetValueDbIdempotent | esgmatching/dbmanager/SqlUtility.py:5-22 | normalising a normalised value gives it back |
| SqlUtility.GetDbType | esgmatching/dbmanager/SqlUtility.py:25-47 | a type is returned iff the name is 'str', 'int', 'bol' or 'datetime', and the type returned is the one of that name |
| SqlUtility.GetDbTypeRoundTrip | esgmatching/dbmanager/SqlUtility.py:38-47 | each type is reached from exactly its name; 'bool' is not recognised |
| SqlUtility.FunctionWhereClause | esgmatching/dbmanager/SqlUtility.py:50-56 | it raises exactly for the kinds 'null' and 'not_null', which call `Select.where` on the class; any other kind gives None, so no condition is ever returned |
| SqlUtility.GetMultiWhereClause | esgmatching/dbmanager/SqlUtility.py:69-81 | the loop builds the left-nested AND of the equalities in dict order; None iff the dict is empty; it holds iff every equality holds |
| SqlUtility.GetMultiWhereClauseNotEqual | esgmatching/dbmanager/SqlUtility.py:84-96 | the same fold with `!=`: None iff empty, else holds iff every inequality holds |
| SqlUtility.GetMultiWhereClauseIsNull | esgmatching/dbmanager/SqlUtility.py:115-122 | the same fold with IS NULL: None iff empty, else holds iff every column is NULL |
| SqlUtility.ColumnsWithLabels | esgmatching/dbmanager/SqlUtility.py:99-103 | one labelled column per dict entry, in key order, labelled with the key |
| SqlUtility.LabelledProjection | esgmatching/dbmanager/SqlUtility.py:99-103 | projecting through the labelled columns reads each entry's column |
| SqlUtility.GetQueryJoin | esgmatching/dbmanager/SqlUtility.py:106-112 | an inner join with the optional where; a missing join condition is refused |
| SqlUtility.GetQueryJoinWhereClause | esgmatching/dbmanager/SqlUtility.py:125-128 | a left outer join with the where attached |
| SqlUtility.AntiJoinMember | esgmatching/dbmanager/SqlUtility.py:115-128 | a left outer join filtered by "all right keys NULL" returns exactly the left rows without a partner |
| SqlUtility.AntiJoinKeptSound | esgmatching/dbmanager/SqlUtility.py:115-128 | every binding the anti-join keeps is a left row without a partner, alone |
| SqlUtility.AntiJoinKeptComplete | esgmatching/dbmanager/SqlUtility.py:115-128 | every left row without a partner is kept |
| SqlEngine.New | esgmatching/dbmanager/SqlEngine.py:22-39 | a new engine is disconnected, without a session, holding the connection string |
| SqlEngine.Connect | esgmatching/dbmanager/SqlEngine.py:41-55 | connecting makes `is_connected` true and keeps the session flag |
| SqlEngine.CreateSession | esgmatching/dbmanager/SqlEngine.py:115-136 | a session is present afterwards; it is a no-op when one exists |
| SqlEngine.CloseSession | esgmatching/dbmanager/SqlEngine.py:138-152 | no session afterwards; a no-op without one |
| SqlEngine.Disconnect | esgmatching/dbmanager/SqlEngine.py:57-74 | no session and no connection afterwards |
| SqlEngine.ChangeDbConnection | esgmatching/dbmanager/SqlEngine.py:92-113 | the session is closed, the string replaced, and the engine connected |
| SqlEngine.SessionLifecycle | esgmatching/dbmanager/SqlEngine.py:115-152 | creating a session twice is creating it once; create then close restores the engine without a session |
| SqlEngine.CreateTableColumns | esgmatching/dbmanager/SqlEngine.py:182-237 | idx if requested, then timestamp if requested, then the names zipped with the types, cut at the shorter list; with no types every name is a string |
| SqlEngine.CreateTableNames | esgmatching/dbmanager/SqlEngine.py:203-234 | with enough types, the declared names are the optional idx and timestamp followed by every name |
| SqlEngine.CountWith | esgmatching/dbmanager/SqlEngine.py:314-327 | `get_count_by_column` (and `get_count_by_column_where_literal`, lines 346-363, with the same session handling) leaves the engine as it found it and gives 0 for a query returning no row |
| SqlEngine.CountNonNull | esgmatching/dbmanager/SqlEngine.py:329-345 | `get_count_non_null_by_column` always raises where it builds its condition (line 336, inside `get_function_where_clause`), before the query runs, with a session open afterwards: the one it opened if none was |
| SqlEngine.DmlRoute | esgmatching/dbmanager/SqlEngine.py:383-432 | DML goes through the session iff one exists |
| SqlEngine.CreateTable | esgmatching/dbmanager/SqlEngine.py:182-237 | a new empty table is added iff the name is free; no other table changes |
| SqlEngine.DropTable | esgmatching/dbmanager/SqlEngine.py:259-271 | the table is removed iff it exists; no other table changes |
| SqlEngine.CreateDropRoundTrip | esgmatching/dbmanager/SqlEngine.py:182-271 | dropping a just-created table restores the database; recreating a dropped table leaves it empty |
| Statements.EvalSelect | esg_matching/db_engine/builders/select_builder.py:125-153 | a select yields one tuple per binding its join and where keep, and every tuple is such a projection |
| Statements.JoinSelectMember | esg_matching/db_engine/builders/select_builder.py:140-151 | an inner-join select yields exactly the projections of the row pairs satisfying both the join condition and the where |
| Statements.ExecInsert | esgmatching/dbmanager/SqlEngine.py:412-432 | insert-from-select appends one row per tuple, in order, to the target table only; it succeeds iff the tables exist, the select's ON clause reads only the tables it joins, and the names are distinct and as many as the columns |
| Statements.InsertRefused | esgmatching/dbmanager/SqlEngine.py:412-432 | an insert whose select's ON clause reads a table outside its join raises the database's refusal |
| Statements.InsertAppended | esgmatching/dbmanager/SqlEngine.py:412-432 | the appended rows are exactly the named select tuples |
| Statements.InsertNothing | esgmatching/dbmanager/SqlEngine.py:412-432 | an empty select leaves the database unchanged |
| Statements.ExecUpdateNull | esgmatching/dbmanager/SqlEngine.py:402-410 | every row keeps its place; a NULL in the column becomes the value and nothing else changes |
| Statements.UpdateNullIdempotent | esgmatching/dbmanager/SqlEngine.py:402-410 | afterwards the column has no NULL, and a second update changes nothing |
| Statements.ExecDelete | esgmatching/db_engine/builders/delete_builder.py:103-126 | the delete keeps exactly the rows its condition does not doom, in order, and touches no other table |
| Statements.DeleteInNothing | esgmatching/db_engine/builders/delete_builder.py:119-121 | a where-in delete whose subquery returns no value removes nothing |
| Connector.New | esg_matching/engine/connectors/base_connector.py:27-43 | a new connector is disconnected, without a session, with an empty connection string |
| Connector.Connect | esg_matching/engine/connectors/base_connector.py:117-128 | `ConnectionAttributesNotDefined` when not ready, `ConnectionStringNotDefined` for an empty prepared string, otherwise connected with that string |
| Connector.Disconnect | esg_matching/engine/connectors/base_connector.py:130-154 | no session, no engine and an empty connection string afterwards |
| Connector.CreateSession | esg_matching/engine/connectors/base_connector.py:174-205 | `SessionAlreadyExists` with a session open; an unknown type raises `SessionTypeNotSupported` and leaves no session; 'normal' and 'scoped' open one |
| Connector.CloseSession | esg_matching/engine/connectors/base_connector.py:207-224 | `NoSessionOpen` without a session; otherwise the session is cleared and nothing else changes |
| Connector.CommitChanges | esg_matching/engine/connectors/base_connector.py:244-260 | `NoSessionOpen` without a session, else no state change |
| Connector.RollbackChanges | esg_matching/engine/connectors/base_connector.py:262-278 | `NoSessionOpen` without a session, else no state change |
| Connector.SessionLifecycle | esg_matching/engine/connectors/base_connector.py:174-260 | open then close restores the connector; opening twice raises; after `disconnect`, close and commit raise |
| Connector.GetColumnType | esg_matching/engine/connectors/base_connector.py:280-310 | a type is returned iff the name is 'str', 'int', 'bool' or 'datetime', else `DataTypeNotSupported`; a string is sized iff the size is positive |
| Connector.GetColumnTypeRoundTrip | esg_matching/engine/connectors/base_connector.py:295-310 | each column type comes back from its name, and from no other |
| Connector.TableExists | esg_matching/engine/connectors/base_connector.py:382-401 | `ConnectionNotDefined` when disconnected, else whether the table exists |
| Connector.GetTableFromMetadata | esg_matching/engine/connectors/base_connector.py:403-425 | `ConnectionNotDefined` when disconnected; a table is given iff it exists |
| Connector.DropTable | esg_matching/engine/connectors/base_connector.py:364-380 | `ConnectionNotDefined` when disconnected; otherwise exactly that table is removed |
| Connector.DropThenAbsent | esg_matching/engine/connectors/base_connector.py:364-401 | after a drop the table no longer exists; all three table calls raise when disconnected |
| ExactMatcher.New | esgmatching/matcher/ExactMatcherDB.py:23-40 | the matcher starts with no engine and no entities |
| ExactMatcher.SetDatabaseEngine | esgmatching/matcher/ExactMatcherDB.py:84-102 | `ValueErrorDatabaseEngine` for a non-engine argument; `NotConnectedToDatabase` for a disconnected engine; otherwise only the engine is stored |
| ExactMatcher.CollectTargetAttributes | esgmatching/matcher/ExactMatcherDB.py:104-113 | the collected names and renamed names are each distinct, with one 'str' type per kept pair, and never fewer types than names |
| ExactMatcher.CollectExact | esgmatching/matcher/ExactMatcherDB.py:104-113 | with distinct original names, every renamed name is kept, from one of its own pairs, with one type each |
| ExactMatcher.CollectOverwrites | esgmatching/matcher/ExactMatcherDB.py:104-113 | one original name renamed differently by two targets keeps only the later name but two types |
| ExactMatcher.RefAttributes | esgmatching/matcher/ExactMatcherDB.py:115-124 | every referential attribute is renamed with the prefix 'ref_', with one 'str' type each |
| ExactMatcher.MatchingLayout | esgmatching/matcher/ExactMatcherDB.py:143-155 | the matching table starts with match (int), target_name and ref_name (str), and declares at least as many types as names |
| ExactMatcher.NoMatchingLayout | esgmatching/matcher/ExactMatcherDB.py:191-199 | the no-matching table starts with target_name (str) |
| ExactMatcher.LayoutsDeclared | esgmatching/matcher/ExactMatcherDB.py:139-217 | both created tables declare idx, timestamp and then every layout column, with match an integer |
| ExactMatcher.RenamedColumns | esgmatching/matcher/ExactMatcherDB.py:253-271 | one column per attribute, named by the prefixed renamed name, read from the source's own table |
| ExactMatcher.ColumnsOfOwnTable | esgmatching/matcher/ExactMatcherDB.py:253-271 | the referential and target column dicts carry ref_name and target_name, and read only their own tables |
| ExactMatcher.KeysFor | esgmatching/matcher/ExactMatcherDB.py:279-282 | the explicit matching keys when there are any, else the keys the referential and target share |
| ExactMatcher.KeyColumns | esgmatching/matcher/ExactMatcherDB.py:284-289 | one entry per key, pairing the target column with the referential column of that key |
| ExactMatcher.KeyJoinHolds | esgmatching/matcher/ExactMatcherDB.py:284-294 | the join condition exists iff there is a key, and holds iff the rows agree, non-NULL, on every key |
| ExactMatcher.MatchSelectMember | esgmatching/matcher/ExactMatcherDB.py:296-299 | the matching select returns exactly the projections of the key-agreeing (target, referential) pairs |
| ExactMatcher.AntiSelectMember | esgmatching/matcher/ExactMatcherDB.py:323-330 | the anti-join returns exactly the target rows with no key-agreeing referential row |
| ExactMatcher.UpdateFlags | esgmatching/matcher/ExactMatcherDB.py:304-306 | after the update every matching-table row carries a match flag |
| ExactMatcher.InsertMatches | esgmatching/matcher/ExactMatcherDB.py:298-306 | the matching half leaves every matching row flagged and changes only the matching table |
| ExactMatcher.InsertNoMatches | esgmatching/matcher/ExactMatcherDB.py:323-333 | the no-matching half only appends to the no-matching table |
| ExactMatcher.TargetStep | esgmatching/matcher/ExactMatcherDB.py:266-333 | one target pass changes only the two matching tables, keeps the flags and only appends no-matching rows |
| ExactMatcher.MatchesAppended | esgmatching/matcher/ExactMatcherDB.py:298-306 | the matching half appends exactly one flagged row per key-agreeing pair |
| ExactMatcher.NoMatchesAppended | esgmatching/matcher/ExactMatcherDB.py:323-333 | the no-matching half appends exactly one row per unpartnered target row |
| ExactMatcher.TargetStepRows | esgmatching/matcher/ExactMatcherDB.py:266-333 | a completed pass appends exactly those matching and no-matching rows |
| ExactMatcher.MatchTargets | esgmatching/matcher/ExactMatcherDB.py:266-333 | the targets are processed in order, and only the two matching tables change |
| ExactMatcher.NoMatchingComplete | esgmatching/matcher/ExactMatcherDB.py:266-333 | every unpartnered row of every target is in the no-matching table after a completed run |
| ExactMatcher.ClearPrevious | esgmatching/matcher/ExactMatcherDB.py:235-242 | an existing matching table is dropped with its no-matching table when `drop_table` is set, else `MatchingTableAlreadyExists` |
| ExactMatcher.CreateEntities | esgmatching/matcher/ExactMatcherDB.py:245-250 | both tables are created empty iff neither exists; failures are `ErrorDB` |
| ExactMatcher.ExecuteMatching | esgmatching/matcher/ExactMatcherDB.py:219-347 | every failure is re-raised as `ErrorDB`; on success both entities are stored, every matching row is flagged, the no-matching table exists, and no other table changes |
| ExactMatcher.IndirectMatchingGuard | esgmatching/matcher/ExactMatcherDB.py:349-351 | raises `IndirectMatchingMustBeExecutedAfterExactMatching` unless both entities exist |
| ExactMatcher.IndirectAfterExact | esgmatching/matcher/ExactMatcherDB.py:336-351 | a new matcher fails the guard; one after a completed exact matching passes it |
| ColumnBuilder.New | esg_matching/engine/builders/column_builder.py:43-55 | `ConnectionNotDefined` for a missing or disconnected connector; otherwise a clean builder |
| ColumnBuilder.Clean | esg_matching/engine/builders/column_builder.py:57-74 | the name, type and flags return to the constructor's defaults |
| ColumnBuilder.CleanIsConstructor | esg_matching/engine/builders/column_builder.py:43-74 | `clean` gives exactly what the constructor gives |
| ColumnBuilder.CreateColumn | esg_matching/engine/builders/column_builder.py:109-111 | clears the type and all flags, then sets the name |
| ColumnBuilder.SetType | esg_matching/engine/builders/column_builder.py:127-130 | `ColumnNameNotDefine` without a name; otherwise only the type changes, to the connector's type for the name |
| ColumnBuilder.IsPrimaryKey | esg_matching/engine/builders/column_builder.py:145-148 | `ColumnNameNotDefine` without a name; otherwise only the flag changes |
| ColumnBuilder.IsAutoPrimaryKey | esg_matching/engine/builders/column_builder.py:163-166 | `ColumnNameNotDefine` without a name; otherwise only the flag changes |
| ColumnBuilder.IsAutoTimestamp | esg_matching/engine/builders/column_builder.py:181-184 | `ColumnNameNotDefine` without a name; otherwise only the flag changes |
| ColumnBuilder.CreatePlain | esg_matching/engine/builders/column_builder.py:224-227 | a plain column with no type set gets a string type of no fixed length |
| ColumnBuilder.BuildPrecedence | esg_matching/engine/builders/column_builder.py:199-207 | build refuses a nameless builder; auto primary key wins over auto timestamp, which wins over plain |
| ColumnBuilder.UsageChains | esg_matching/engine/builders/column_builder.py:109-207 | the usual call chains build the expected plain, auto-key and timestamp columns |
| ColumnBuilder.CreateColumnForgets | esg_matching/engine/builders/column_builder.py:109-111 | `create_column` forgets the flags of the previous column |
| ColumnBuilder.CreateLiteralColumn | esg_matching/engine/builders/column_builder.py:76-94 | the value wrapped in single quotes, typed as a string and labelled with the given name |
| ColumnBuilder.LiteralNotEscaped | esg_matching/engine/builders/column_builder.py:91-94 | a quote inside the value is not escaped |
| TableBuilder.New | esg_matching/engine/builders/table_builder.py:48-59 | `ConnectionNotDefined` for a missing or disconnected connector, the same guard as the column builder |
| TableBuilder.Reset | esg_matching/engine/builders/table_builder.py:74-76 | an empty name, no columns and no data frame |
| TableBuilder.CreateTable | esg_matching/engine/builders/table_builder.py:91-93 | resets the builder, then sets the name |
| TableBuilder.AddColumns | esg_matching/engine/builders/table_builder.py:110 | replaces the column list wholesale, nothing else |
| TableBuilder.Execute | esg_matching/engine/builders/table_builder.py:126-138 | `TableColumnsNotDefined` for None columns, `TableNameNotDefine` for an empty name; otherwise a new empty table |
| TableBuilder.CreateTableDiscardsColumns | esg_matching/engine/builders/table_builder.py:91-110 | `create_table` drops columns added before it; `add_columns` replaces earlier ones |
| TableBuilder.ColumnsNeverNone | esg_matching/engine/builders/table_builder.py:74-127 | no call sequence without `add_columns(None)` reaches `TableColumnsNotDefined` |
| TableBuilder.CreateThenExecute | esg_matching/engine/builders/table_builder.py:91-138 | create, add and execute make the table; executing again raises that it exists |
| MatchDataSource.New | esg_matching/db_data_source/db_match_data_source.py:23-49 | no match type and no standard attributes; the auto columns are TIMESTAMP and MATCHING_ID |
| MatchDataSource.SetMatchType | esg_matching/db_data_source/db_match_data_source.py:55-63 | only 'matching' (five standard attributes) and 'no-matching' (TGT_NAME) are accepted, else `MatchingDataSourceTypeNotSupported` |
| MatchDataSource.CheckMatchType | esg_matching/db_data_source/db_match_data_source.py:146-148 | `MatchingDataSourceTypeNotDefined` iff the match type is unset |
| MatchDataSource.ChangeStdAttributeName | esg_matching/db_data_source/db_match_data_source.py:81-96 | raises while the type is unset; otherwise renames that key's value and keeps the keys |
| MatchDataSource.GetStdAttributeName | esg_matching/db_data_source/db_match_data_source.py:98-112 | raises while the type is unset, raises for an unknown key, else gives that key's name |
| MatchDataSource.GetStdAttributeNames | esg_matching/db_data_source/db_match_data_source.py:114-128 | raises while the type is unset, else the names in key order |
| MatchDataSource.GetStdAttributeKeys | esg_matching/db_data_source/db_match_data_source.py:130-144 | raises while the type is unset, else exactly the keys, in the dict's order |
| MatchDataSource.AccessorsNeedMatchType | esg_matching/db_data_source/db_match_data_source.py:81-148 | every accessor raises `MatchingDataSourceTypeNotDefined` while the type is unset |
| MatchDataSource.ChangeThenGet | esg_matching/db_data_source/db_match_data_source.py:81-112 | reading a renamed key gives the new name; other keys are unaffected |
| MatchDataSource.IsStdAttributesInList | esg_matching/db_data_source/db_match_data_source.py:150-166 | true iff every standard key is in the list |
| MatchDataSource.ChecksKeysNotNames | esg_matching/db_data_source/db_match_data_source.py:150-166 | the check compares keys, not renamed names |
| MatchDataSource.CreateTable | esg_matching/db_data_source/db_match_data_source.py:198-226 | raises while the type is unset, or with `StandardMatchingAttributeMissingInDatabaseTable` when a standard key is missing, before delegating |
| MatchDataSource.CreateTableFromDf | esg_matching/db_data_source/db_match_data_source.py:228-253 | the same guards over the data frame's columns |
| MatchDataSource.SyncWithDbTable | esg_matching/db_data_source/db_match_data_source.py:168-196 | the reflected table is linked; an unset type raises with it still linked; a missing standard key unlinks it and raises `StandardMatchingAttributeMissingInDatabaseTable` |
| MatchDataSource.StdRequirements | esg_matching/db_data_source/db_match_data_source.py:24-29 | a table with TGT_NAME syncs as no-matching but not as matching |
| FileSettings.Defaults | esgmatching/file_reader/file_settings.py:39-60 | the documented defaults: utf-8, ';', 'unknown' names, create table, drop, role target, no keys or maps |
| FileSettings.FileProcessing | esgmatching/file_reader/file_settings.py:78-104 | no section leaves the settings unchanged; a dict section always succeeds, and each of its five keys (`file_path`, `file_extension_pattern`, `filename_pattern`, `encoding`, `separator`) sets its own field to the section's value when present and leaves it as it was when absent (corrected); nothing else changes |
| FileSettings.FileProcessingOther | esgmatching/file_reader/file_settings.py:93-104 | a section that is no dict passes only when it is a string or list naming none of the keys, and changes nothing |
| FileSettings.FileProcessingPathAndPattern | esgmatching/file_reader/file_settings.py:93-104 | corrected, a section holding exactly `file_path` and `filename_pattern` stores each in its own field and keeps the encoding |
| FileSettings.FileProcessingAsWritten | esgmatching/file_reader/file_settings.py:93-104 | as written, `filename_pattern` is never stored |
| FileSettings.FilenamePatternIgnored | esgmatching/file_reader/file_settings.py:99-100 | a section with only `filename_pattern` raises a KeyError for 'file_path' as written; the corrected reading stores the pattern |
| FileSettings.ParseCreateTable | esgmatching/file_reader/file_settings.py:133 | 'True' and 'False' are read as booleans; anything else is refused |
| FileSettings.RunStepsEnumerated | esgmatching/file_reader/file_settings.py:134-151 | the data source keys keep if_table_exists and matching_role within their allowed values |
| FileSettings.DataSource | esgmatching/file_reader/file_settings.py:106-173 | a missing section raises `DataSourceSettingsNotDefined`; the keys are applied in source order, and the allowed values are kept |
| FileSettings.DataSourceOneKey | esgmatching/file_reader/file_settings.py:126-171 | a section with one key applies exactly that key's check |
| FileSettings.IfTableExistsChecked | esgmatching/file_reader/file_settings.py:134-138 | an 'if_table_exists' other than drop or clean raises `IfTableExistsNotRecognized` and keeps the field; drop or clean is stored |
| FileSettings.EmptyPrimaryKeysIgnored | esgmatching/file_reader/file_settings.py:139-142 | an empty 'primary_keys' list is ignored without raising |
| FileSettings.MatchingRoleChecked | esgmatching/file_reader/file_settings.py:147-151 | a 'matching_role' outside the four roles raises `MatchingRoleNotRecognized` and keeps the field; one of them is stored |
| FileSettings.EmptyAliasRejected | esgmatching/file_reader/file_settings.py:154-159 | an empty 'matching_alias' raises `AliasMatchingNotDefined` |
| FileSettings.EmptyMapToMatchingRejected | esgmatching/file_reader/file_settings.py:160-165 | an empty 'map_to_matching' raises `FieldsMappingToMatchingTableNotDefined` |
| FileSettings.EmptyMapIndirectRejected | esgmatching/file_reader/file_settings.py:166-171 | an empty 'map_indirect_matching' raises `FieldsMappingToMatchingTableNotDefined` |
| FileSettings.CheckPolicyCorrect | esgmatching/file_reader/file_settings.py:196-214 | a policy passes iff every rule kind it names lists rules; a failure is the error of a failing kind |
| FileSettings.MatchingPolicy | esgmatching/file_reader/file_settings.py:175-214 | no section: unchanged; an empty one raises `MatchingPolicyEmpty`; on success only the policy is stored, whole |
| FileSettings.MatchingPolicyRejectsEmptyRules | esgmatching/file_reader/file_settings.py:196-214 | a policy with empty 'drm' rules raises `DrmRulesEmptyInMatchingPolicy` |
| FileSettings.MatchingPolicyKeepsValidPolicy | esgmatching/file_reader/file_settings.py:196-214 | a valid policy dict is stored as given |
| FileSettings.Load | esgmatching/file_reader/file_settings.py:38-76 | the three sections in order from the defaults; a result keeps the allowed values; a missing data source fails |
| CsvReader.New | esg_matching/file_reader/csv_reader.py:27-34 | separator ',', extension '.csv', zero counters, no selection |
| CsvReader.AttributesExistInFile | esg_matching/file_reader/csv_reader.py:36-53 | true iff every attribute to read is in the list; with no selection the loop raises |
| CsvReader.ReadFileHeaderColumns | esg_matching/file_reader/csv_reader.py:71-98 | the header iff non-empty; `NoHeaderInFile` for an empty one |
| CsvReader.CreateRowObject | esg_matching/file_reader/csv_reader.py:55-69 | one str field per attribute in order; refused for repeated or invalid names |
| CsvReader.DictRow | esg_matching/file_reader/csv_reader.py:146-152 | a data line keyed by every header field, with extra values kept aside |
| CsvReader.DictRowDistinct | esg_matching/file_reader/csv_reader.py:146-152 | with distinct header fields, each field holds the value at its position |
| CsvReader.RowRecord | esg_matching/file_reader/csv_reader.py:152 | the record has the selected attributes in order, each with the line's value (corrected) |
| CsvReader.RowRecordAsWrittenAgrees | esg_matching/file_reader/csv_reader.py:152 | the as-written record succeeds iff the line has no field outside the selection, and then agrees with the corrected one |
| CsvReader.SubsetSelectionFails | esg_matching/file_reader/csv_reader.py:152 | selecting ID from an ID/ISIN file raises as written; the corrected record is the ID alone |
| CsvReader.DataLines | esg_matching/file_reader/csv_reader.py:146-152 | the rows `DictReader` yields: the non-empty lines, in order |
| CsvReader.ReadFile | esg_matching/file_reader/csv_reader.py:100-154 | header checks first; an empty selection becomes the header; a selection outside the header raises; counters as in the source; one record per data row; total lines set only at exhaustion |
| CsvReader.ReadAllColumns | esg_matching/file_reader/csv_reader.py:129-154 | with no selection, every record has all header fields |
| CsvToDb.New | esgmatching/reader/FileReader.py:35-39 | no engine, no session, zero counters |
| CsvToDb.SetDatabaseEngine | esgmatching/reader/FileReaderCsvToDB.py:44-59 | stores the engine and the session flag, nothing else |
| CsvToDb.FlushChunks | esgmatching/reader/FileReaderCsvToDB.py:122-146 | the chunks concatenate back to the rows; none is empty; with a size of at least 1, all but the last have exactly that size; the line count is the row count |
| CsvToDb.LineByLine | esgmatching/reader/FileReaderCsvToDB.py:136-146 | with a chunk size of 1, each chunk is one row, in order |
| CsvToDb.InsertChunks | esgmatching/reader/FileReaderCsvToDB.py:122-146 | the table ends with the concatenated chunks appended; no other table changes |
| CsvToDb.ConvertedRows | esgmatching/reader/FileReaderCsvToDB.py:122-135 | one converted row per data line |
| CsvToDb.HandleFailureAsWritten | esgmatching/reader/FileReaderCsvToDB.py:169-177 | as written: with a session, close it and raise `ErrorDB`; without one, drop the table, failing first when the entity was never bound |
| CsvToDb.HandleFailure | esgmatching/reader/FileReaderCsvToDB.py:169-177 | corrected: with a session, close it; without one, drop the table only once the entity is bound; the cause is reported as `ErrorDB` unless the drop itself raises |
| CsvToDb.UnboundEntity | esgmatching/reader/FileReaderCsvToDB.py:96-98 | the two handlers differ exactly without a session and before the entity is bound; an empty header gives `UnboundLocalError` as written and `ErrorDB(NoHeaderInFile)` corrected |
| CsvToDb.CreateAndInsert | esgmatching/reader/FileReaderCsvToDB.py:117-146 | the table is recreated empty and holds exactly the rows, in order; the count is their number |
| CsvToDb.Load | esgmatching/reader/FileReaderCsvToDB.py:110-150 | total attributes is the header length, total lines the row count, the table holds the converted rows and no other table changes; a session opened for the load is closed |
| CsvToDb.ReadFile | esgmatching/reader/FileReaderCsvToDB.py:61-177 | completes iff the header is non-empty and the mapping valid; each failure ends in the corrected handler `CsvToDb.HandleFailure` with the error the source raises at that point (None not iterable, no header, columns differ from the mapping); the source's own handler departs from this for a missing or empty header without a session (see "## Findings") |
| FileUtils.SplitExt | esg_matching/file_reader/file_utils.py:37-49 | the name splits into root and extension; the extension is '' or a dot followed by non-dots within the last component, and it is '' exactly when that component has no dot after a non-dot character |
| FileUtils.GetExtension | esg_matching/file_reader/file_utils.py:37-49 | the extension is a suffix of the name: '' or a dot followed by non-dots |
| FileUtils.ExtensionRoundTrip | esg_matching/file_reader/file_utils.py:37-49 | appending an extension to a name with a non-dot last component gives that extension back |
| FileUtils.ExtensionExamples | esg_matching/file_reader/file_utils.py:37-49 | 'data/file.csv' gives '.csv'; 'archive.tar.gz' gives '.gz' |
| FileUtils.NoExtensionExamples | esg_matching/file_reader/file_utils.py:37-49 | '.bashrc' and 'dir.d/file' have no extension |
| FileUtils.GlobPattern | esg_matching/file_reader/file_utils.py:94-97 | a non-empty extension pattern is appended after the separator |
| FileUtils.Find | esg_matching/file_reader/file_utils.py:103 | `str.find`: the first index where the pattern occurs, or -1 iff it does not occur |
| FileUtils.FindZero | esg_matching/file_reader/file_utils.py:103 | `find` gives 0 iff the name starts with the pattern |
| FileUtils.FilterAsWritten | esg_matching/file_reader/file_utils.py:99-106 | as written: a file is kept iff it does not start with the pattern; an empty pattern keeps every file |
| FileUtils.FilterByPattern | esg_matching/file_reader/file_utils.py:99-106 | corrected: a file is kept iff it contains the pattern; an empty pattern keeps every file |
| FileUtils.FilterKeepsNonMatching | esg_matching/file_reader/file_utils.py:101-104 | as written, pattern 'sales' keeps '/in/report.csv' |
| FileUtils.FilterDropsLeadingMatch | esg_matching/file_reader/file_utils.py:101-104 | as written, pattern 'sales' drops 'sales.csv' |
| FileUtils.FilterByPatternSelects | esg_matching/file_reader/file_utils.py:101-104 | corrected, pattern 'sales' keeps only '/in/sales.csv' |
| FileUtils.Newest | esg_matching/file_reader/file_utils.py:112 | `max` by creation time: the first file with the greatest time |
| FileUtils.GetNewestFilename | esg_matching/file_reader/file_utils.py:80-113 | '' iff no globbed file passes the name filter; otherwise a globbed file passing it, with the greatest creation time; the filter is the corrected one, so a returned file contains the pattern |

## Left out

- Real database execution: SQLAlchemy `Table`/`Column`/`MetaData` objects, `create()`/`drop()`, reflection, engine disposal and pandas queries. They are foreign-library I/O. Tables are row sequences and statements are pure functions over them.
- Column schemas of tables are not tracked: rows are maps, so a column missing from a row reads as NULL. Insert name checks come from the statement, not from a declared table.
- `esg_matching/file_reader/file_reader_csv.py` is a second copy of the CSV reader with the same constructor, attribute check, record type and `read_file` (lines 20-154). The `CsvReader` members model both copies, so the table cites only `csv_reader.py`.
- Scoped and normal sessions are not told apart. A session is a flag, and statements apply to the database immediately: commit and rollback do not buffer changes.
- The connector's concrete hooks (`_is_ready_to_connect`, `_prepare_connection_string`) are inputs to `Connector.Connect`, because concrete connectors are not part of this model.
- The entity data source, the database data source and the policy reader (`EntityDataSource`, `DbDataSource`, `get_matching_keys`, `get_table_column`) are not part of this model. Their lookups are maps in `DbMatcher.Sources` and `ExactMatcher.DataSource`. An alias missing from a map is reported as `AliasNotResolvable`.
- ExactMatcher.KeysFor: with no explicit keys, it uses the keys the referential and target share. This follows the comment at ExactMatcherDB.py:278-280, because `get_matching_keys` is not part of this model.
- The coverage percentage (ExactMatcherDB.py:309-313) is floating point. Only its division by zero is modelled, as an abort. The report objects are left out.
- The body of `execute_indirect_matching` after its guard (ExactMatcherDB.py:353-439) is left out. It hard-codes dataset-specific columns.
- The `dict.update` result assigned to a variable (ExactMatcherDB.py:166) is left out. It does not change any table layout.
- FileSettings.ParseCreateTable: Python's `eval` of the `create_table` value is modelled as a strict 'True'/'False' parse. Any other text is refused instead of evaluated.
- JSON parsing and file reading are left out. Settings start from an abstract JSON object value. A top-level value that is not an object is excluded.
- Python's `dict()` of a list of pairs is not modelled. `FileSettings.PyDict` accepts only objects and the empty list.
- The `matching_id` and `map_indirect_matching` property setters of the matching data source are left out. They are plain assignments.
- The class-level standard-attribute dicts, shared between instances, are modelled per instance. The sharing is Python aliasing.
- Filesystem access is left out: `os.path.exists` checks, both `file.py` files, `file_exists`, `is_file`, `is_dir`, JSON file reading, `glob`, `open` and `csv.DictReader`. The header, lines and glob results are inputs.
- FileUtils.GetNewestFilename: the creation time is an integer-valued input, and the path separator is '/'. `os.path.normpath` is left out.
- CsvReader.DictRow: extra values on a line are kept aside as a list, not under `DictReader`'s `None` key. A repeated header name keeps its first position with the later value, as a Python dict does.
- CsvReader.CreateRowObject: field-name validity is ASCII identifiers that are not Python keywords. Unicode identifiers are not modelled.
- CsvToDb.ReadFile: it handles failures with the corrected `CsvToDb.HandleFailure` (see "## Findings", FileReaderCsvToDB.py:96-98); with a missing or empty header and `use_session` False the source raises UnboundLocalError instead, as `CsvToDb.UnboundEntity` states.
- CsvToDb.ReadFile: it requires an engine, because what the entity layer does with a missing one is not part of this model.
- CsvToDb.ReadFile: `create_data_source_in_db` is modelled as leaving an empty table.
- CsvToDb.ReadFile: the mapping check `are_column_names_valid` is an input.
- CsvToDb.ReadFile: the row conversion is a function parameter.
- CsvToDb.ReadFile: insert failures are not modelled.
- CsvToDb.ReadFile: dropping a table that is not present is modelled as a failure.
- The file reader's `__validate_files` (FileReader.py) is left out, because it is filesystem access.
- Printing and `echo` flags are left out.
- Statements.EvalSelect: a select-list or WHERE column of a table outside the FROM/JOIN clause reads as NULL. SQLAlchemy instead adds that table to the FROM list, a cross join. The matchers' selects for rules with aliases read only their joined tables, so the gap concerns rules with an empty alias list.
- Drm.Step: for a rule with an empty alias list, the source selects referential columns with no join, which becomes a cross join with the referential table. It inserts one row per (residual row, referential row) pair. The model inserts one row per residual row, with the referential columns NULL. The delete is the same in both.
- Ifm.Step: for a rule with an empty alias list, the source selects referential columns with no join, a cross join with the referential table. The model inserts one row per residual row of the target, with the referential columns NULL.
- Ifm.RunRules: a rule with an empty alias list inserts as `Ifm.Step` describes, not the source's cross join.
- Ifm.Execute: a rule with an empty alias list inserts as `Ifm.Step` describes, not the source's cross join.
- Ifm.RunRulesEffects: the insert of a rule with an empty alias list is the one `Ifm.Step` describes, not the source's cross join.
- Ifm.ExecuteTrace: the insert of a rule with an empty alias list is the one `Ifm.Step` describes, not the source's cross join.
- FileUtils.GetNewestFilename: it filters with the corrected `FileUtils.FilterByPattern` (see "## Findings", file_utils.py:101-104). The source keeps a file when `find` is non-zero, so it can return a file without the pattern (`FileUtils.FilterKeepsNonMatching`).
- CsvReader.ReadFile: it builds records with the corrected `CsvReader.RowRecord` (see "## Findings", csv_reader.py:152). When the selected attributes are fewer than the header's fields, the source raises TypeError instead (`CsvReader.SubsetSelectionFails`).
- FileSettings.Load: it reads the file-processing section with the corrected `FileSettings.FileProcessing` (see "## Findings", file_settings.py:99-100). The source never stores `filename_pattern`, and a section holding only that key raises KeyError (`FileSettings.FilenamePatternIgnored`).

## Findings

| source | as written | input that shows it | evidently intended | confidence | as-written member | corrected member |
|---|---|---|---|---|---|---|
| esgmatching/file_reader/file_settings.py:99-100 | a `filename_pattern` key assigns `sub_dict['file_path']` to `file_path` | a file-processing section holding only `filename_pattern: "esg_*"` raises KeyError 'file_path'; with both keys the pattern is never stored | store the value under `filename_pattern` | not executed | FileSettings.FileProcessingAsWritten, FileSettings.FilenamePatternIgnored | FileSettings.FileProcessing |
| esg_matching/file_reader/csv_reader.py:152 | each row is unpacked with `file_record(**file_line)`, passing every header field | header `ID;ISIN` with `attributes_to_read = ['ID']`: the row has an unexpected field ISIN and raises TypeError (file_reader_csv.py:152 is the same) | build the record from the selected attributes only | not executed | CsvReader.RowRecordAsWrittenAgrees, CsvReader.SubsetSelectionFails | CsvReader.RowRecord |
| esgmatching/reader/FileReaderCsvToDB.py:96-98 | `NoHeaderInFile` is raised before `obj_entity` is bound; the handler at 169-177 then drops `obj_entity.table_obj` | an empty header with `use_session` False: the handler raises UnboundLocalError instead of `ErrorDB` | raise `ErrorDB`, dropping the table only once it exists | not executed | CsvToDb.HandleFailureAsWritten, CsvToDb.UnboundEntity | CsvToDb.HandleFailure |
| esgmatching/db_matcher/db_matcher_ifm.py:171 | the select joins the referential table, while the join condition built at line 83 compares no-matching columns with matching-table columns | referential table "REF", matching table "MATCH", a rule with alias "lei": the database refuses the insert-from-select for its ON clause reading MATCH, and `execute_matching` raises with the session open | join the matching table, reading the referential values it already holds, as the class documentation describes | not executed | Ifm.StepRejected, Ifm.ExecuteRejected | Ifm.IntendedStep, Ifm.IntendedStepRuns, Ifm.IntendedStepInserts |
| esg_matching/file_reader/file_utils.py:101-104 | a file is kept when `str(file).find(filename_pattern)` is truthy, i.e. non-zero | pattern "sales" keeps "/in/report.csv" (find gives -1) and drops "sales.csv" (find gives 0) | keep the files whose name contains the pattern | not executed | FileUtils.FilterAsWritten, FileUtils.FilterKeepsNonMatching, FileUtils.FilterDropsLeadingMatch | FileUtils.FilterByPattern |
