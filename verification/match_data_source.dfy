/** The data source of a matching or a no-matching table: a match type, and
    the standard attributes such a table must have, each a key (its standard
    name) mapped to the column name it currently has. The table it is linked
    to is represented by the names of its columns. */
module MatchDataSource {
  import opened Wrappers
  import opened Errors
  import opened Dicts
  import ColumnBuilder

  const MatchingType: string := "matching"
  const NoMatchingType: string := "no-matching"

  /** The columns a matching table fills in by itself. */
  const AutoColumns: seq<string> := ["TIMESTAMP", "MATCHING_ID"]

  const MatchingStdAttributes: Dict<string, string> :=
    [("REF_NAME", "REF_NAME"), ("TGT_NAME", "TGT_NAME"), ("MATCHING_TYPE", "MATCHING_TYPE"),
     ("MATCHING_SCOPE", "MATCHING_SCOPE"), ("MATCHING_RULE", "MATCHING_RULE")]

  const NoMatchingStdAttributes: Dict<string, string> := [("TGT_NAME", "TGT_NAME")]

  datatype MatchDs = MatchDs(
    name: string,
    autoColumns: seq<string>,
    matchType: string,
    stdAttributes: Option<Dict<string, string>>,
    tableColumns: Option<seq<string>>)   // the linked table, `None` when there is none

  /** What every reachable state satisfies: the standard attributes exist
      exactly when the match type was set. */
  predicate Valid(ds: MatchDs) {
    (ds.matchType == "" && ds.stdAttributes.None?)
    || ((ds.matchType == MatchingType || ds.matchType == NoMatchingType) && ds.stdAttributes.Some?)
  }

  /** The constructor: no match type, no standard attributes, no table. */
  function New(name: string): (ds: MatchDs)
    ensures Valid(ds) && ds.matchType == "" && ds.tableColumns.None?
    ensures ds.autoColumns == ["TIMESTAMP", "MATCHING_ID"]
  {
    MatchDs(name, AutoColumns, "", None, None)
  }

  /** The `match_type` setter: only 'matching' and 'no-matching' are
      accepted, and each brings its own standard attributes. */
  function SetMatchType(ds: MatchDs, t: string): (r: Result<MatchDs, Error>)
    ensures r.Success? <==> t == "matching" || t == "no-matching"
    ensures r.Failure? ==> r.error == MatchingDataSourceTypeNotSupported
    ensures r.Success? ==> Valid(r.value) && r.value.matchType == t && r.value.tableColumns == ds.tableColumns
    ensures t == "matching" ==>
              Keys(r.value.stdAttributes.value) == ["REF_NAME", "TGT_NAME", "MATCHING_TYPE", "MATCHING_SCOPE", "MATCHING_RULE"]
    ensures t == "no-matching" ==> Keys(r.value.stdAttributes.value) == ["TGT_NAME"]
    ensures r.Success? ==> Values(r.value.stdAttributes.value) == Keys(r.value.stdAttributes.value)
  {
    if t != MatchingType && t != NoMatchingType then Failure(MatchingDataSourceTypeNotSupported)
    else
      var std := if t == MatchingType then MatchingStdAttributes else NoMatchingStdAttributes;
      assert Keys(MatchingStdAttributes) == ["REF_NAME", "TGT_NAME", "MATCHING_TYPE", "MATCHING_SCOPE", "MATCHING_RULE"];
      assert Keys(NoMatchingStdAttributes) == ["TGT_NAME"];
      Success(ds.(matchType := t, stdAttributes := Some(std)))
  }

  /** `_check_match_type` */
  function CheckMatchType(ds: MatchDs): (r: Result<Dict<string, string>, Error>)
    requires Valid(ds)
    ensures r.Failure? <==> ds.matchType == ""
    ensures r.Failure? ==> r.error == MatchingDataSourceTypeNotDefined
    ensures r.Success? ==> Some(r.value) == ds.stdAttributes
  {
    if ds.matchType == "" then Failure(MatchingDataSourceTypeNotDefined) else Success(ds.stdAttributes.value)
  }

  /** `change_std_attribute_name(key, name)`: sets the column name of a
      standard attribute, adding the key when it is no standard one. */
  function ChangeStdAttributeName(ds: MatchDs, key: string, newName: string): (r: Result<MatchDs, Error>)
    requires Valid(ds)
    ensures r.Failure? <==> ds.matchType == ""
    ensures r.Failure? ==> r.error == MatchingDataSourceTypeNotDefined
    ensures r.Success? ==> Valid(r.value) && r.value.matchType == ds.matchType && r.value.tableColumns == ds.tableColumns
    ensures r.Success? && HasKey(ds.stdAttributes.value, key) ==>
              Keys(r.value.stdAttributes.value) == Keys(ds.stdAttributes.value)
  {
    match CheckMatchType(ds)
    case Failure(e) => Failure(e)
    case Success(std) => Success(ds.(stdAttributes := Some(Set(std, key, newName))))
  }

  /** `get_std_attribute_name(key)`: a key that is no standard attribute
      raises Python's KeyError. */
  function GetStdAttributeName(ds: MatchDs, key: string): (r: Result<string, Error>)
    requires Valid(ds)
    ensures ds.matchType == "" ==> r == Failure(MatchingDataSourceTypeNotDefined)
    ensures r.Success? <==> ds.matchType != "" && HasKey(ds.stdAttributes.value, key)
    ensures ds.matchType != "" && !HasKey(ds.stdAttributes.value, key) ==> r == Failure(StdAttributeKeyError(key))
    ensures r.Success? ==> (key, r.value) in ds.stdAttributes.value
  {
    match CheckMatchType(ds)
    case Failure(e) => Failure(e)
    case Success(std) =>
      match Get(std, key)
      case None => Failure(StdAttributeKeyError(key))
      case Some(n) => Success(n)
  }

  /** `get_std_attribute_names`: the column names, in key order. */
  function GetStdAttributeNames(ds: MatchDs): (r: Result<seq<string>, Error>)
    requires Valid(ds)
    ensures r.Failure? <==> ds.matchType == ""
    ensures r.Failure? ==> r.error == MatchingDataSourceTypeNotDefined
    ensures r.Success? ==>
              && |r.value| == |ds.stdAttributes.value|
              && forall i :: 0 <= i < |r.value| ==> (ds.stdAttributes.value[i].0, r.value[i]) in ds.stdAttributes.value
  {
    match CheckMatchType(ds)
    case Failure(e) => Failure(e)
    case Success(std) => Success(Values(std))
  }

  /** `get_std_attribute_keys`: the standard names, in order. */
  function GetStdAttributeKeys(ds: MatchDs): (r: Result<seq<string>, Error>)
    requires Valid(ds)
    ensures r.Failure? <==> ds.matchType == ""
    ensures r.Failure? ==> r.error == MatchingDataSourceTypeNotDefined
    ensures r.Success? ==> forall k :: k in r.value <==> HasKey(ds.stdAttributes.value, k)
    ensures r.Success? ==>
              && |r.value| == |ds.stdAttributes.value|
              && forall i :: 0 <= i < |r.value| ==> r.value[i] == ds.stdAttributes.value[i].0
  {
    match CheckMatchType(ds)
    case Failure(e) => Failure(e)
    case Success(std) => Success(Keys(std))
  }

  /** Every accessor of the standard attributes refuses a data source whose
      match type was never set. */
  lemma AccessorsNeedMatchType(ds: MatchDs, key: string, newName: string)
    requires Valid(ds) && ds.matchType == ""
    ensures ChangeStdAttributeName(ds, key, newName) == Failure(MatchingDataSourceTypeNotDefined)
    ensures GetStdAttributeName(ds, key) == Failure(MatchingDataSourceTypeNotDefined)
    ensures GetStdAttributeNames(ds) == Failure(MatchingDataSourceTypeNotDefined)
    ensures GetStdAttributeKeys(ds) == Failure(MatchingDataSourceTypeNotDefined)
  {
  }

  /** Renaming a standard attribute and reading it back gives the new name;
      every other standard attribute keeps its name. */
  lemma ChangeThenGet(ds: MatchDs, key: string, newName: string, other: string)
    requires Valid(ds) && ds.matchType != "" && other != key
    ensures GetStdAttributeName(ChangeStdAttributeName(ds, key, newName).value, key) == Success(newName)
    ensures GetStdAttributeName(ChangeStdAttributeName(ds, key, newName).value, other) == GetStdAttributeName(ds, other)
  {
    SetGet(ds.stdAttributes.value, key, newName);
  }

  /** All the standard keys are among the given names. */
  predicate StdKeysIn(std: Dict<string, string>, names: seq<string>) {
    forall i :: 0 <= i < |std| ==> std[i].0 in names
  }

  /** `_is_std_attributes_in_list`: the loop over the standard keys that
      stops at the first one missing from the list. */
  method IsStdAttributesInList(std: Dict<string, string>, names: seq<string>) returns (found: bool)
    ensures found <==> StdKeysIn(std, names)
    ensures found <==> forall k :: HasKey(std, k) ==> k in names
  {
    var i := 0;
    while i < |std|
      invariant 0 <= i <= |std|
      invariant forall j :: 0 <= j < i ==> std[j].0 in names
    {
      if std[i].0 !in names {
        assert !(std[i].0 in names);
        return false;
      }
      i := i + 1;
    }
    return true;
  }

  /** The check looks at the standard KEYS, not at the names they were
      renamed to: after renaming 'TGT_NAME' to 'target', a table that has a
      'target' column but no 'TGT_NAME' one still fails it. */
  lemma ChecksKeysNotNames(ds: MatchDs)
    requires Valid(ds) && ds.matchType == NoMatchingType && ds.stdAttributes == Some(NoMatchingStdAttributes)
    ensures var renamed := ChangeStdAttributeName(ds, "TGT_NAME", "target").value;
            GetStdAttributeName(renamed, "TGT_NAME") == Success("target")
            && !StdKeysIn(renamed.stdAttributes.value, ["target"])
            && StdKeysIn(renamed.stdAttributes.value, ["TGT_NAME"])
  {
    var renamed := ChangeStdAttributeName(ds, "TGT_NAME", "target").value;
    SetGet(NoMatchingStdAttributes, "TGT_NAME", "target");
    assert renamed.stdAttributes.value == [("TGT_NAME", "target")];
  }

  /** What a successful check hands to the parent data source's table
      creation, which is not part of this model. */
  datatype Delegation =
    | CreateFromColumns(tableName: string, columns: seq<ColumnBuilder.Column>)
    | CreateFromDf(tableName: string, dfColumns: seq<string>)

  function ColumnNames(columns: seq<ColumnBuilder.Column>): (r: seq<string>)
    ensures |r| == |columns| && forall i :: 0 <= i < |r| ==> r[i] == ColumnBuilder.ColumnName(columns[i])
  {
    seq(|columns|, i requires 0 <= i < |columns| => ColumnBuilder.ColumnName(columns[i]))
  }

  /** `create_table(name, columns)`: refused without a match type, then
      refused when a standard key names none of the columns. */
  function CreateTable(ds: MatchDs, tableName: string, columns: seq<ColumnBuilder.Column>): (r: Result<Delegation, Error>)
    requires Valid(ds)
    ensures ds.matchType == "" ==> r == Failure(MatchingDataSourceTypeNotDefined)
    ensures r.Success? <==> ds.matchType != "" && StdKeysIn(ds.stdAttributes.value, ColumnNames(columns))
    ensures ds.matchType != "" && r.Failure? ==> r.error == StandardMatchingAttributeMissingInDatabaseTable
    ensures r.Success? ==> r.value == CreateFromColumns(tableName, columns)
  {
    match CheckMatchType(ds)
    case Failure(e) => Failure(e)
    case Success(std) =>
      if !StdKeysIn(std, ColumnNames(columns)) then Failure(StandardMatchingAttributeMissingInDatabaseTable)
      else Success(CreateFromColumns(tableName, columns))
  }

  /** `create_table_from_df(name, df)`: the same checks on the frame's columns. */
  function CreateTableFromDf(ds: MatchDs, tableName: string, dfColumns: seq<string>): (r: Result<Delegation, Error>)
    requires Valid(ds)
    ensures ds.matchType == "" ==> r == Failure(MatchingDataSourceTypeNotDefined)
    ensures r.Success? <==> ds.matchType != "" && StdKeysIn(ds.stdAttributes.value, dfColumns)
    ensures ds.matchType != "" && r.Failure? ==> r.error == StandardMatchingAttributeMissingInDatabaseTable
    ensures r.Success? ==> r.value == CreateFromDf(tableName, dfColumns)
  {
    match CheckMatchType(ds)
    case Failure(e) => Failure(e)
    case Success(std) =>
      if !StdKeysIn(std, dfColumns) then Failure(StandardMatchingAttributeMissingInDatabaseTable)
      else Success(CreateFromDf(tableName, dfColumns))
  }

  /** `sync_with_db_table`: the parent links the reflected table (whose
      column names are given); then a missing match type raises with the
      table still linked, and a missing standard key unlinks it and raises. */
  function SyncWithDbTable(ds: MatchDs, reflected: seq<string>): (r: Run<MatchDs>)
    requires Valid(ds)
    ensures Valid(r.Final()) && r.Final().(tableColumns := ds.tableColumns) == ds
    ensures ds.matchType == "" ==> r == Aborted(ds.(tableColumns := Some(reflected)), MatchingDataSourceTypeNotDefined)
    ensures r.Completed? <==> ds.matchType != "" && StdKeysIn(ds.stdAttributes.value, reflected)
    ensures r.Completed? ==> r.state.tableColumns == Some(reflected)
    ensures ds.matchType != "" && r.Aborted? ==>
              r.state.tableColumns.None? && r.error == StandardMatchingAttributeMissingInDatabaseTable
  {
    var linked := ds.(tableColumns := Some(reflected));
    match CheckMatchType(linked)
    case Failure(e) => Aborted(linked, e)
    case Success(std) =>
      if !StdKeysIn(std, reflected) then Aborted(linked.(tableColumns := None), StandardMatchingAttributeMissingInDatabaseTable)
      else Completed(linked)
  }

  /** A no-matching table needs only the target-name column; a matching
      table needs all five, so a no-matching layout does not do for it. */
  lemma StdRequirements(ds: MatchDs)
    ensures SetMatchType(ds, "no-matching").value.stdAttributes.value == NoMatchingStdAttributes
    ensures SyncWithDbTable(SetMatchType(ds, "no-matching").value, ["idx", "TGT_NAME"]).Completed?
    ensures SyncWithDbTable(SetMatchType(ds, "matching").value, ["idx", "TGT_NAME"]).Aborted?
  {
    var m := SetMatchType(ds, "matching").value;
    assert m.stdAttributes.value[0].0 == "REF_NAME";
    assert !StdKeysIn(m.stdAttributes.value, ["idx", "TGT_NAME"]);
  }
}
