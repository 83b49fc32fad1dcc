/** The exceptions the system raises, as one datatype, and the shape of a
    stateful call that may raise after having changed its object. */
module Errors {
  datatype Error =
    // matching policy and matchers
    | DirectResidualMatchingNotInPolicy
    | IndirectMatchingNotInPolicy
    | AliasNotResolvable(alias: string)
    | MatchingTableAlreadyExists
    | IndirectMatchingMustBeExecutedAfterExactMatching
    | NotConnectedToDatabase
    | ValueErrorDatabaseEngine
    | ErrorDB(cause: Error)
      /** Python's AttributeError on an engine that was never set. */
    | EngineNotSet
      /** Python's ZeroDivisionError. */
    | ZeroDivision
    // statements handed to the database
    | StatementWithoutTable
    | JoinWithoutTable
    | WhereInWithoutColumn
    | InsertColumnCountMismatch
    | DuplicateInsertColumn
    | SubqueryNotSingleColumn
    | UnknownTable(name: string)
    | TableAlreadyInDatabase(name: string)
    | JoinWithoutCondition
      /** The database refusing an ON clause that reads a table outside its join. */
    | ColumnOutsideJoin
    // JSON settings
    | DataSourceSettingsNotDefined
    | IfTableExistsNotRecognized
    | MatchingRoleNotRecognized
    | AliasMatchingNotDefined
    | FieldsMappingToMatchingTableNotDefined
    | MatchingPolicyEmpty
    | DfmRulesEmptyInMatchingPolicy
    | DrmRulesEmptyInMatchingPolicy
    | IfmRulesEmptyInMatchingPolicy
    | CreateTableNotBoolean
    | SettingsTypeError
    | SettingsKeyError(key: string)
    // matching data source
    | MatchingDataSourceTypeNotSupported
    | MatchingDataSourceTypeNotDefined
    | StandardMatchingAttributeMissingInDatabaseTable
    | StdAttributeKeyError(key: string)
    // builders and connectors
    | ConnectionNotDefined
    | ColumnNameNotDefine
    | TableNameNotDefine
    | TableColumnsNotDefined
    | ConnectionAttributesNotDefined
    | ConnectionStringNotDefined
    | SessionAlreadyExists
    | SessionTypeNotSupported
    | NoSessionOpen
    | DataTypeNotSupported
    // files
    | NoHeaderInFile
    | ColumnsDifferFromMapping
    | ColumnsToReadDifferFromFileHeader
    | UnexpectedRowField(field: string)
      /** `NamedTuple` refusing a field name (Python's ValueError). */
    | InvalidFieldNames
      /** Python's TypeError for keyword arguments that are not strings. */
    | RowKeywordNotString
      /** Python's TypeError on iterating `None`. */
    | NoneNotIterable
    | UnboundLocalVariable(name: string)
      /** Python's TypeError for a positional argument to a keyword-only call. */
    | KeywordArgumentsOnly
      /** The error of `Select.where` called on the class, with a condition
          where the select should be. */
    | UnboundWhere

  /** A call on a stateful object: Python keeps every field assignment made
      before an exception, so a raising call still yields the object's state. */
  datatype Run<+S> = Completed(state: S) | Aborted(state: S, error: Error)
  {
    function Final(): S {
      match this
      case Completed(s) => s
      case Aborted(s, _) => s
    }
  }
}
