/** The JSON settings of a data source: how its file is read, how it maps to
    a database table and which role it plays in matching, and the matching
    policies. The settings are read from an already parsed JSON value; the
    Python operators the reader applies to it (`in`, `[]`, `len`, `list`,
    `dict`) are modelled with their behaviour on each kind of JSON value. */
module FileSettings {
  import opened Wrappers
  import opened Errors
  import opened Seqs
  import Dicts

  /** A parsed JSON value. An object's members keep their order. */
  datatype Json =
    | JNull
    | JBool(b: bool)
    | JNum(n: int)
    | JStr(s: string)
    | JArr(items: seq<Json>)
    | JObj(members: seq<(string, Json)>)

  /** Python's `key in value`: a member name of an object, a substring of a
      string, an element of a list; numbers, booleans and null raise. */
  function PyIn(key: string, j: Json): (r: Result<bool, Error>)
    ensures r.Failure? <==> j.JNull? || j.JBool? || j.JNum?
    ensures r.Failure? ==> r.error == SettingsTypeError
    ensures j.JObj? ==> r == Success(exists i :: 0 <= i < |j.members| && j.members[i].0 == key)
  {
    match j
    case JObj(ms) => Success(exists i :: 0 <= i < |ms| && ms[i].0 == key)
    case JStr(s) => Success(IsSubstring(key, s))
    case JArr(items) => Success(JStr(key) in items)
    case _ => Failure(SettingsTypeError)
  }

  /** Python's `value[key]` with a string key: only objects can be indexed
      so; a missing member raises KeyError. */
  function PyIndex(j: Json, key: string): (r: Result<Json, Error>)
    ensures r.Success? <==> j.JObj? && PyIn(key, j) == Success(true)
    ensures r.Success? ==> (key, r.value) in j.members
    ensures j.JObj? && r.Failure? ==> r.error == SettingsKeyError(key)
  {
    match j
    case JObj(ms) => MemberOf(ms, key)
    case _ => Failure(SettingsTypeError)
  }

  /** The value of the first member named `key`. */
  function MemberOf(ms: seq<(string, Json)>, key: string): (r: Result<Json, Error>)
    ensures r.Success? <==> exists i :: 0 <= i < |ms| && ms[i].0 == key
    ensures r.Success? ==> (key, r.value) in ms
    ensures r.Failure? ==> r.error == SettingsKeyError(key)
  {
    if |ms| == 0 then Failure(SettingsKeyError(key))
    else if ms[0].0 == key then Success(ms[0].1)
    else
      var r := MemberOf(ms[1..], key);
      assert (exists i :: 0 <= i < |ms| && ms[i].0 == key) ==> exists i :: 0 <= i < |ms[1..]| && ms[1..][i].0 == key by {
        if exists i :: 0 <= i < |ms| && ms[i].0 == key {
          var i :| 0 <= i < |ms| && ms[i].0 == key;
          assert ms[1..][i - 1].0 == key;
        }
      }
      r
  }

  /** Python's `len(value)`: strings, lists and objects have one. */
  function PyLen(j: Json): (r: Result<nat, Error>)
    ensures r.Failure? <==> j.JNull? || j.JBool? || j.JNum?
    ensures r.Failure? ==> r.error == SettingsTypeError
    ensures j.JObj? ==> r == Success(|j.members|)
    ensures j.JArr? ==> r == Success(|j.items|)
  {
    match j
    case JStr(s) => Success(|s|)
    case JArr(items) => Success(|items|)
    case JObj(ms) => Success(|ms|)
    case _ => Failure(SettingsTypeError)
  }

  /** Python's `list(value)`: a list's elements, an object's member names,
      a string's characters. */
  function PyList(j: Json): (r: Result<seq<Json>, Error>)
    ensures r.Success? <==> PyLen(j).Success?
    ensures r.Success? ==> |r.value| == PyLen(j).value
    ensures r.Failure? ==> r.error == SettingsTypeError
  {
    match j
    case JArr(items) => Success(items)
    case JObj(ms) => Success(seq(|ms|, i requires 0 <= i < |ms| => JStr(ms[i].0)))
    case JStr(s) => Success(seq(|s|, i requires 0 <= i < |s| => JStr([s[i]])))
    case _ => Failure(SettingsTypeError)
  }

  /** Python's `dict(value)` on an object or an empty list. */
  function PyDict(j: Json): (r: Result<seq<(string, Json)>, Error>)
    ensures j.JObj? ==> r == Success(j.members)
    ensures r.Success? ==> j.JObj? || j == JArr([])
    ensures r.Failure? ==> r.error == SettingsTypeError
  {
    match j
    case JObj(ms) => Success(ms)
    case JArr(items) => if |items| == 0 then Success([]) else Failure(SettingsTypeError)
    case _ => Failure(SettingsTypeError)
  }

  datatype Settings = Settings(
    // file processing
    filePath: Json,
    fileExtensionPattern: Json,
    filenamePattern: Json,
    fileEncoding: Json,
    fileSeparator: Json,
    // data source
    datasourceName: Json,
    datasourceTableName: Json,
    datasourceCreateTable: bool,
    datasourceIfTableExists: Json,
    datasourcePrimaryKeys: Option<seq<Json>>,
    datasourceAttributes: Option<Json>,
    matchingRole: Json,
    matchingId: Json,
    matchingAlias: Option<seq<(string, Json)>>,
    mapToMatching: Option<seq<(string, Json)>>,
    mapIndirectMatching: Option<seq<(string, Json)>>,
    // matching policies
    matchingPolicy: Option<Json>)

  const IfTableExistsValues: seq<Json> := [JStr("drop"), JStr("clean")]
  const MatchingRoleValues: seq<Json> := [JStr("referential"), JStr("target"), JStr("matching"), JStr("no-matching")]

  /** The defaults the constructor sets before reading the file. */
  function Defaults(): (s: Settings)
    ensures s.filePath == JStr("") && s.fileExtensionPattern == JStr("") && s.filenamePattern == JStr("")
    ensures s.fileEncoding == JStr("utf-8") && s.fileSeparator == JStr(";")
    ensures s.datasourceName == JStr("unknown") && s.datasourceTableName == JStr("unknown")
    ensures s.datasourceCreateTable && s.datasourceIfTableExists == JStr("drop")
    ensures s.datasourcePrimaryKeys.None? && s.datasourceAttributes.None?
    ensures s.matchingRole == JStr("target") && s.matchingId == JStr("")
    ensures s.matchingAlias.None? && s.mapToMatching.None? && s.mapIndirectMatching.None?
    ensures s.matchingPolicy.None?
    ensures Enumerated(s)
  {
    Settings(JStr(""), JStr(""), JStr(""), JStr("utf-8"), JStr(";"),
             JStr("unknown"), JStr("unknown"), true, JStr("drop"), None, None, JStr("target"), JStr(""),
             None, None, None, None)
  }

  /** The enumerated fields hold one of their allowed values. */
  predicate Enumerated(s: Settings) {
    s.datasourceIfTableExists in IfTableExistsValues && s.matchingRole in MatchingRoleValues
  }

  // ---------------------------------------------------------------------
  // The file processing section

  /** Copies `key` of the section into a field when the section has it. */
  function CopyIfPresent(section: Json, key: string, current: Json): (r: Result<Json, Error>)
    requires section.JObj?
    ensures PyIn(key, section) == Success(false) ==> r == Success(current)
    ensures PyIn(key, section) == Success(true) ==> r.Success? && (key, r.value) in section.members
  {
    if PyIn(key, section).value then PyIndex(section, key) else Success(current)
  }

  /** A field after reading an object section: the member's value when the
      section has `key`, else the value it had before. */
  predicate CopiedFrom(section: Json, key: string, before: Json, after: Json)
    requires section.JObj?
  {
    if PyIn(key, section).value then (key, after) in section.members else after == before
  }

  /** `_set_file_processing_settings` as corrected: each key present in the
      'file_processing' section sets its field, 'filename_pattern' included. */
  function FileProcessing(s: Settings, json: Json): (r: Result<Settings, Error>)
    requires json.JObj?
    ensures PyIn("file_processing", json) == Success(false) ==> r == Success(s)
    ensures PyIn("file_processing", json) == Success(true) && PyIndex(json, "file_processing").value.JObj? ==>
              var section := PyIndex(json, "file_processing").value;
              && r.Success?
              && CopiedFrom(section, "file_path", s.filePath, r.value.filePath)
              && CopiedFrom(section, "file_extension_pattern", s.fileExtensionPattern, r.value.fileExtensionPattern)
              && CopiedFrom(section, "filename_pattern", s.filenamePattern, r.value.filenamePattern)
              && CopiedFrom(section, "encoding", s.fileEncoding, r.value.fileEncoding)
              && CopiedFrom(section, "separator", s.fileSeparator, r.value.fileSeparator)
    ensures r.Success? ==> r.value.(filePath := s.filePath, fileExtensionPattern := s.fileExtensionPattern,
                                    filenamePattern := s.filenamePattern, fileEncoding := s.fileEncoding,
                                    fileSeparator := s.fileSeparator) == s
  {
    if !PyIn("file_processing", json).value then Success(s)
    else
      var section := PyIndex(json, "file_processing").value;
      if !section.JObj? then
        // a section that is no object: `in` tests a substring or an element
        FileProcessingOther(s, section)
      else
        var path :- CopyIfPresent(section, "file_path", s.filePath);
        var ext :- CopyIfPresent(section, "file_extension_pattern", s.fileExtensionPattern);
        var pattern :- CopyIfPresent(section, "filename_pattern", s.filenamePattern);
        var enc :- CopyIfPresent(section, "encoding", s.fileEncoding);
        var sep :- CopyIfPresent(section, "separator", s.fileSeparator);
        Success(s.(filePath := path, fileExtensionPattern := ext, filenamePattern := pattern,
                   fileEncoding := enc, fileSeparator := sep))
  }

  /** A file processing section that is no object: any key it "contains"
      cannot then be read from it, and a number, boolean or null raises at
      the first `in`. */
  function FileProcessingOther(s: Settings, section: Json): (r: Result<Settings, Error>)
    requires !section.JObj?
    ensures r.Success? <==>
              && (section.JStr? || section.JArr?)
              && forall k :: k in FileProcessingKeys ==> PyIn(k, section) == Success(false)
    ensures r.Success? ==> r.value == s
    ensures r.Failure? ==> r.error == SettingsTypeError
  {
    if section.JNull? || section.JBool? || section.JNum? then Failure(SettingsTypeError)
    else if exists k :: k in FileProcessingKeys && PyIn(k, section) == Success(true) then Failure(SettingsTypeError)
    else Success(s)
  }

  const FileProcessingKeys: set<string> := {"file_path", "file_extension_pattern", "filename_pattern", "encoding", "separator"}

  /** `_set_file_processing_settings` as written: a 'filename_pattern' key
      copies 'file_path' again, so 'filename_pattern' keeps its default and a
      section without 'file_path' raises KeyError. Only the object case is
      modelled here; it is the one the discrepancy is about. */
  function FileProcessingAsWritten(s: Settings, section: Json): (r: Result<Settings, Error>)
    requires section.JObj?
    ensures r.Success? ==> r.value.filenamePattern == s.filenamePattern
  {
    var path :- CopyIfPresent(section, "file_path", s.filePath);
    var ext :- CopyIfPresent(section, "file_extension_pattern", s.fileExtensionPattern);
    var path2 :- if PyIn("filename_pattern", section).value then PyIndex(section, "file_path") else Success(path);
    var enc :- CopyIfPresent(section, "encoding", s.fileEncoding);
    var sep :- CopyIfPresent(section, "separator", s.fileSeparator);
    Success(s.(filePath := path2, fileExtensionPattern := ext, fileEncoding := enc, fileSeparator := sep))
  }

  /** The discrepancy on one input: a section holding only a filename
      pattern raises as written, and sets the pattern once corrected. */
  lemma FilenamePatternIgnored(s: Settings)
    ensures var section := JObj([("filename_pattern", JStr("esg_*"))]);
            && FileProcessingAsWritten(s, section) == Failure(SettingsKeyError("file_path"))
            && FileProcessing(s, JObj([("file_processing", section)])) == Success(s.(filenamePattern := JStr("esg_*")))
  {
    var section := JObj([("filename_pattern", JStr("esg_*"))]);
    OneMemberIn("file_processing", section, "file_processing");
    OneMemberIn("filename_pattern", JStr("esg_*"), "filename_pattern");
    OneMemberIn("filename_pattern", JStr("esg_*"), "file_path");
    OneMemberIn("filename_pattern", JStr("esg_*"), "file_extension_pattern");
    OneMemberIn("filename_pattern", JStr("esg_*"), "encoding");
    OneMemberIn("filename_pattern", JStr("esg_*"), "separator");
    assert CopyIfPresent(section, "file_path", s.filePath) == Success(s.filePath);
    assert CopyIfPresent(section, "file_extension_pattern", s.fileExtensionPattern) == Success(s.fileExtensionPattern);
    assert CopyIfPresent(section, "filename_pattern", s.filenamePattern) == Success(JStr("esg_*"));
    assert CopyIfPresent(section, "encoding", s.fileEncoding) == Success(s.fileEncoding);
    assert CopyIfPresent(section, "separator", s.fileSeparator) == Success(s.fileSeparator);
    assert PyIndex(section, "file_path") == Failure(SettingsKeyError("file_path"));
  }

  /** One instance of `FileProcessing`'s contract, the pair of keys the
      as-written code confuses: corrected, a section holding the path and the
      pattern sets both fields and leaves the encoding alone. */
  lemma FileProcessingPathAndPattern(s: Settings, section: seq<(string, Json)>, path: Json, pattern: Json)
    requires section == [("file_path", path), ("filename_pattern", pattern)]
    ensures var r := FileProcessing(s, JObj([("file_processing", JObj(section))]));
            r.Success? && r.value.filePath == path && r.value.filenamePattern == pattern
            && r.value.fileEncoding == s.fileEncoding
  {
    var sec := JObj(section);
    var json := JObj([("file_processing", sec)]);
    assert json.members[0].0 == "file_processing";
    assert sec.members[0].0 == "file_path" && sec.members[1].0 == "filename_pattern";
    assert PyIn("file_extension_pattern", sec) == Success(false);
    assert PyIn("encoding", sec) == Success(false);
    assert PyIn("separator", sec) == Success(false);
  }

  // ---------------------------------------------------------------------
  // The data source section

  /** 'create_table' is evaluated by Python's `eval`; the model accepts the
      two literals a boolean can be written as. */
  function ParseCreateTable(j: Json): (r: Result<bool, Error>)
    ensures r.Success? <==> j == JStr("True") || j == JStr("False")
    ensures r.Success? ==> (r.value <==> j == JStr("True"))
  {
    if j == JStr("True") then Success(true)
    else if j == JStr("False") then Success(false)
    else Failure(CreateTableNotBoolean)
  }

  /** One step of `_set_data_source_settings`: the key it looks for and what
      it does with the value. Steps run in the order of the source. */
  datatype Step =
    | NameStep | TableNameStep | CreateTableStep | IfTableExistsStep | PrimaryKeysStep | AttributesStep
    | MatchingRoleStep | MatchingIdStep | MatchingAliasStep | MapToMatchingStep | MapIndirectMatchingStep

  const DataSourceSteps: seq<Step> :=
    [NameStep, TableNameStep, CreateTableStep, IfTableExistsStep, PrimaryKeysStep, AttributesStep,
     MatchingRoleStep, MatchingIdStep, MatchingAliasStep, MapToMatchingStep, MapIndirectMatchingStep]

  function StepKey(st: Step): string {
    match st
    case NameStep => "name"
    case TableNameStep => "table_name"
    case CreateTableStep => "create_table"
    case IfTableExistsStep => "if_table_exists"
    case PrimaryKeysStep => "primary_keys"
    case AttributesStep => "attributes"
    case MatchingRoleStep => "matching_role"
    case MatchingIdStep => "matching_id"
    case MatchingAliasStep => "matching_alias"
    case MapToMatchingStep => "map_to_matching"
    case MapIndirectMatchingStep => "map_indirect_matching"
  }

  /** What a step does with the value `v` of its key, when the key is present. */
  function ApplyStep(s: Settings, st: Step, v: Json): (r: Result<Settings, Error>)
    ensures st == IfTableExistsStep ==>
              (r.Success? <==> v in IfTableExistsValues)
              && (r.Failure? ==> r.error == IfTableExistsNotRecognized)
              && (r.Success? ==> r.value == s.(datasourceIfTableExists := v))
    ensures st == MatchingRoleStep ==>
              (r.Success? <==> v in MatchingRoleValues)
              && (r.Failure? ==> r.error == MatchingRoleNotRecognized)
              && (r.Success? ==> r.value == s.(matchingRole := v))
    ensures st == PrimaryKeysStep && PyList(v).Success? ==>
              r.Success? && (|PyList(v).value| == 0 ==> r.value == s)
              && (|PyList(v).value| > 0 ==> r.value == s.(datasourcePrimaryKeys := Some(PyList(v).value)))
    ensures st == AttributesStep && PyLen(v).Success? ==>
              r.Success? && (PyLen(v).value == 0 ==> r.value == s)
              && (PyLen(v).value > 0 ==> r.value == s.(datasourceAttributes := Some(v)))
    ensures st == MatchingAliasStep && PyDict(v).Success? ==>
              (r.Success? <==> |PyDict(v).value| > 0)
              && (r.Failure? ==> r.error == AliasMatchingNotDefined)
              && (r.Success? ==> r.value == s.(matchingAlias := Some(PyDict(v).value)))
    ensures (st == MapToMatchingStep || st == MapIndirectMatchingStep) && PyDict(v).Success? ==>
              (r.Success? <==> |PyDict(v).value| > 0)
              && (r.Failure? ==> r.error == FieldsMappingToMatchingTableNotDefined)
    ensures r.Success? && st != IfTableExistsStep && st != MatchingRoleStep ==>
              r.value.datasourceIfTableExists == s.datasourceIfTableExists && r.value.matchingRole == s.matchingRole
  {
    match st
    case NameStep => Success(s.(datasourceName := v))
    case TableNameStep => Success(s.(datasourceTableName := v))
    case CreateTableStep =>
      var b :- ParseCreateTable(v);
      Success(s.(datasourceCreateTable := b))
    case IfTableExistsStep =>
      if v != JStr("drop") && v != JStr("clean") then Failure(IfTableExistsNotRecognized)
      else Success(s.(datasourceIfTableExists := v))
    case PrimaryKeysStep =>
      var keys :- PyList(v);
      if |keys| > 0 then Success(s.(datasourcePrimaryKeys := Some(keys))) else Success(s)
    case AttributesStep =>
      var n :- PyLen(v);
      if n > 0 then Success(s.(datasourceAttributes := Some(v))) else Success(s)
    case MatchingRoleStep =>
      if v !in MatchingRoleValues then Failure(MatchingRoleNotRecognized)
      else Success(s.(matchingRole := v))
    case MatchingIdStep => Success(s.(matchingId := v))
    case MatchingAliasStep =>
      var d :- PyDict(v);
      if |d| > 0 then Success(s.(matchingAlias := Some(d))) else Failure(AliasMatchingNotDefined)
    case MapToMatchingStep =>
      var d :- PyDict(v);
      if |d| > 0 then Success(s.(mapToMatching := Some(d))) else Failure(FieldsMappingToMatchingTableNotDefined)
    case MapIndirectMatchingStep =>
      var d :- PyDict(v);
      if |d| > 0 then Success(s.(mapIndirectMatching := Some(d))) else Failure(FieldsMappingToMatchingTableNotDefined)
  }

  /** The steps in order over the section; the fields set before a step
      raises stay set. */
  function RunSteps(s: Settings, section: Json, steps: seq<Step>): (r: Run<Settings>)
    decreases |steps|
  {
    if |steps| == 0 then Completed(s)
    else
      match PyIn(StepKey(steps[0]), section)
      case Failure(e) => Aborted(s, e)
      case Success(present) =>
        if !present then RunSteps(s, section, steps[1..])
        else
          match PyIndex(section, StepKey(steps[0]))
          case Failure(e) => Aborted(s, e)
          case Success(v) =>
            match ApplyStep(s, steps[0], v)
            case Failure(e) => Aborted(s, e)
            case Success(s1) => RunSteps(s1, section, steps[1..])
  }

  /** The enumerated fields keep an allowed value through every step, also
      when a step raises: a rejected value is never stored. */
  lemma {:induction false} RunStepsEnumerated(s: Settings, section: Json, steps: seq<Step>)
    ensures Enumerated(s) ==> Enumerated(RunSteps(s, section, steps).Final())
    decreases |steps|
  {
    if Enumerated(s) && |steps| > 0 {
      match PyIn(StepKey(steps[0]), section)
      case Failure(_) =>
      case Success(present) =>
        if present {
          match PyIndex(section, StepKey(steps[0]))
          case Failure(_) =>
          case Success(v) =>
            match ApplyStep(s, steps[0], v)
            case Failure(_) =>
            case Success(s1) =>
              assert Enumerated(s1);
              RunStepsEnumerated(s1, section, steps[1..]);
        } else {
          RunStepsEnumerated(s, section, steps[1..]);
        }
    }
  }

  /** `_set_data_source_settings`: the 'data_source' section is required. */
  function DataSource(s: Settings, json: Json): (r: Run<Settings>)
    requires json.JObj?
    ensures PyIn("data_source", json) == Success(false) ==> r == Aborted(s, DataSourceSettingsNotDefined)
    ensures PyIn("data_source", json) == Success(true) ==>
              r == RunSteps(s, PyIndex(json, "data_source").value, DataSourceSteps)
    ensures Enumerated(s) ==> Enumerated(r.Final())
  {
    if !PyIn("data_source", json).value then Aborted(s, DataSourceSettingsNotDefined)
    else
      var section := PyIndex(json, "data_source").value;
      RunStepsEnumerated(s, section, DataSourceSteps);
      RunSteps(s, section, DataSourceSteps)
  }

  /** A step run on its own: the settings it yields, or the error it raises
      with the settings left as they were. */
  function StepRun(s: Settings, st: Step, v: Json): Run<Settings> {
    match ApplyStep(s, st, v)
    case Success(s1) => Completed(s1)
    case Failure(e) => Aborted(s, e)
  }

  /** Distinct steps read distinct keys. */
  lemma StepKeyInjective(a: Step, b: Step)
    requires a != b
    ensures StepKey(a) != StepKey(b)
  {
  }

  /** A one-member section holds exactly its member's key. */
  lemma OneMemberIn(key: string, v: Json, k: string)
    ensures PyIn(k, JObj([(key, v)])) == Success(k == key)
    ensures k == key ==> PyIndex(JObj([(key, v)]), k) == Success(v)
  {
    assert JObj([(key, v)]).members[0].0 == key;
  }

  /** A section holding one key runs only that key's step. */
  lemma {:induction false} SingleKeySection(s: Settings, st: Step, v: Json, steps: seq<Step>)
    requires forall i, j :: 0 <= i < j < |steps| ==> steps[i] != steps[j]
    ensures RunSteps(s, JObj([(StepKey(st), v)]), steps) == if st in steps then StepRun(s, st, v) else Completed(s)
    decreases |steps|
  {
    var section := JObj([(StepKey(st), v)]);
    if |steps| > 0 {
      var st0 := steps[0];
      OneMemberIn(StepKey(st), v, StepKey(st0));
      if st0 == st {
        assert st !in steps[1..];
        match ApplyStep(s, st, v)
        case Failure(e) =>
          assert RunSteps(s, section, steps) == Aborted(s, e);
        case Success(s1) =>
          assert RunSteps(s, section, steps) == RunSteps(s1, section, steps[1..]);
          SingleKeySection(s1, st, v, steps[1..]);
      } else {
        StepKeyInjective(st0, st);
        assert RunSteps(s, section, steps) == RunSteps(s, section, steps[1..]);
        SingleKeySection(s, st, v, steps[1..]);
      }
    }
  }

  /** An 'if_table_exists' outside {drop, clean} raises and leaves the field as it was. */
  lemma IfTableExistsChecked(s: Settings, v: Json)
    ensures v !in IfTableExistsValues ==>
              DataSource(s, JObj([("data_source", JObj([("if_table_exists", v)]))])) == Aborted(s, IfTableExistsNotRecognized)
    ensures v in IfTableExistsValues ==>
              DataSource(s, JObj([("data_source", JObj([("if_table_exists", v)]))])) == Completed(s.(datasourceIfTableExists := v))
  {
    DataSourceOneKey(s, IfTableExistsStep, v);
  }

  /** A 'matching_role' outside the four roles raises and leaves the field as it was. */
  lemma MatchingRoleChecked(s: Settings, v: Json)
    ensures v !in MatchingRoleValues ==>
              DataSource(s, JObj([("data_source", JObj([("matching_role", v)]))])) == Aborted(s, MatchingRoleNotRecognized)
    ensures v in MatchingRoleValues ==>
              DataSource(s, JObj([("data_source", JObj([("matching_role", v)]))])) == Completed(s.(matchingRole := v))
  {
    DataSourceOneKey(s, MatchingRoleStep, v);
  }

  /** An empty 'primary_keys' is ignored without raising. */
  lemma EmptyPrimaryKeysIgnored(s: Settings)
    ensures DataSource(s, JObj([("data_source", JObj([("primary_keys", JArr([]))]))])) == Completed(s)
  {
    assert ApplyStep(s, PrimaryKeysStep, JArr([])) == Success(s);
    DataSourceOneKey(s, PrimaryKeysStep, JArr([]));
  }

  /** An empty 'matching_alias' raises. */
  lemma EmptyAliasRejected(s: Settings)
    ensures DataSource(s, JObj([("data_source", JObj([("matching_alias", JObj([]))]))])) == Aborted(s, AliasMatchingNotDefined)
  {
    assert ApplyStep(s, MatchingAliasStep, JObj([])) == Failure(AliasMatchingNotDefined);
    DataSourceOneKey(s, MatchingAliasStep, JObj([]));
  }

  /** An empty 'map_to_matching' raises. */
  lemma EmptyMapToMatchingRejected(s: Settings)
    ensures DataSource(s, JObj([("data_source", JObj([("map_to_matching", JObj([]))]))])) ==
              Aborted(s, FieldsMappingToMatchingTableNotDefined)
  {
    assert ApplyStep(s, MapToMatchingStep, JObj([])) == Failure(FieldsMappingToMatchingTableNotDefined);
    DataSourceOneKey(s, MapToMatchingStep, JObj([]));
  }

  /** An empty 'map_indirect_matching' raises. */
  lemma EmptyMapIndirectRejected(s: Settings)
    ensures DataSource(s, JObj([("data_source", JObj([("map_indirect_matching", JObj([]))]))])) ==
              Aborted(s, FieldsMappingToMatchingTableNotDefined)
  {
    assert ApplyStep(s, MapIndirectMatchingStep, JObj([])) == Failure(FieldsMappingToMatchingTableNotDefined);
    DataSourceOneKey(s, MapIndirectMatchingStep, JObj([]));
  }

  /** The data source section runs the data source steps. */
  lemma DataSourceSection(s: Settings, section: Json)
    ensures DataSource(s, JObj([("data_source", section)])) == RunSteps(s, section, DataSourceSteps)
  {
    OneMemberIn("data_source", section, "data_source");
  }

  lemma DataSourceStepsDistinct()
    ensures forall i, j :: 0 <= i < j < |DataSourceSteps| ==> DataSourceSteps[i] != DataSourceSteps[j]
  {
  }

  lemma DataSourceOneKey(s: Settings, st: Step, v: Json)
    ensures DataSource(s, JObj([("data_source", JObj([(StepKey(st), v)]))])) == StepRun(s, st, v)
  {
    DataSourceSection(s, JObj([(StepKey(st), v)]));
    DataSourceStepsDistinct();
    assert st in DataSourceSteps;
    SingleKeySection(s, st, v, DataSourceSteps);
  }

  // ---------------------------------------------------------------------
  // The matching policy section

  /** The rule kinds a policy may list, in the order they are checked, with
      the error an empty list of that kind raises. */
  const RuleKinds: seq<(string, Error)> :=
    [("dfm", DfmRulesEmptyInMatchingPolicy), ("drm", DrmRulesEmptyInMatchingPolicy), ("ifm", IfmRulesEmptyInMatchingPolicy)]

  /** The check of one rule kind on one policy: when the policy lists the
      kind, its rules must have a length, and a zero one raises the kind's error. */
  function CheckKind(policy: Json, kind: (string, Error)): Result<(), Error> {
    var present :- PyIn(kind.0, policy);
    if !present then Success(())
    else
      var rules :- PyIndex(policy, kind.0);
      var n :- PyLen(rules);
      if n == 0 then Failure(kind.1) else Success(())
  }

  /** The checks on one policy: each rule kind it lists must list rules. */
  function CheckPolicy(policy: Json, kinds: seq<(string, Error)>): (r: Result<(), Error>)
    decreases |kinds|
  {
    if |kinds| == 0 then Success(())
    else
      var _ :- CheckKind(policy, kinds[0]);
      CheckPolicy(policy, kinds[1..])
  }

  /** A policy object passes exactly when every rule kind it names holds a
      non-empty object or list; a failing one raises the error of the first
      failing kind. */
  predicate PolicyRulesNonEmpty(ms: seq<(string, Json)>, kind: string) {
    forall i :: 0 <= i < |ms| && ms[i].0 == kind ==>
      (ms[i].1.JObj? || ms[i].1.JArr? || ms[i].1.JStr?) && PyLen(ms[i].1) != Success(0)
  }

  /** On an object with distinct member names, the policy check succeeds
      exactly when each rule kind it lists is non-empty. */
  lemma {:induction false} CheckPolicyCorrect(ms: seq<(string, Json)>, kinds: seq<(string, Error)>)
    requires forall i, j :: 0 <= i < j < |ms| ==> ms[i].0 != ms[j].0
    ensures CheckPolicy(JObj(ms), kinds).Success? <==> forall k :: 0 <= k < |kinds| ==> PolicyRulesNonEmpty(ms, kinds[k].0)
    ensures CheckPolicy(JObj(ms), kinds).Failure? ==>
              CheckPolicy(JObj(ms), kinds).error == SettingsTypeError
              || exists k :: 0 <= k < |kinds| && CheckPolicy(JObj(ms), kinds).error == kinds[k].1
    decreases |kinds|
  {
    if |kinds| > 0 {
      CheckKindCorrect(ms, kinds[0]);
      CheckPolicyCorrect(ms, kinds[1..]);
      assert forall k :: 1 <= k < |kinds| ==> kinds[k] == kinds[1..][k - 1];
    }
  }

  /** One rule kind passes exactly when it is non-empty, and fails with a
      type error or the kind's own error. */
  lemma CheckKindCorrect(ms: seq<(string, Json)>, kind: (string, Error))
    requires forall i, j :: 0 <= i < j < |ms| ==> ms[i].0 != ms[j].0
    ensures CheckKind(JObj(ms), kind).Success? <==> PolicyRulesNonEmpty(ms, kind.0)
    ensures CheckKind(JObj(ms), kind).Failure? ==>
              CheckKind(JObj(ms), kind).error == SettingsTypeError || CheckKind(JObj(ms), kind).error == kind.1
  {
    var key := kind.0;
    if exists i :: 0 <= i < |ms| && ms[i].0 == key {
      var i :| 0 <= i < |ms| && ms[i].0 == key;
      MemberOfDistinct(ms, key, i);
      assert PyIndex(JObj(ms), key) == Success(ms[i].1);
      if PyLen(ms[i].1).Success? && PyLen(ms[i].1).value != 0 {
        assert PolicyRulesNonEmpty(ms, key);
      } else {
        assert !PolicyRulesNonEmpty(ms, key);
      }
    } else {
      assert PolicyRulesNonEmpty(ms, key);
    }
  }

  /** With distinct member names, reading a member gives the one at its position. */
  lemma {:induction false} MemberOfDistinct(ms: seq<(string, Json)>, key: string, i: nat)
    requires forall a, b :: 0 <= a < b < |ms| ==> ms[a].0 != ms[b].0
    requires i < |ms| && ms[i].0 == key
    ensures MemberOf(ms, key) == Success(ms[i].1)
    decreases |ms|
  {
    if ms[0].0 != key {
      assert forall a, b :: 0 <= a < b < |ms[1..]| ==> ms[1..][a].0 != ms[1..][b].0 by {
        forall a, b | 0 <= a < b < |ms[1..]| ensures ms[1..][a].0 != ms[1..][b].0 {
          assert ms[1..][a] == ms[a + 1] && ms[1..][b] == ms[b + 1];
        }
      }
      MemberOfDistinct(ms[1..], key, i - 1);
    }
  }

  /** The policies in order; the first failing one stops the loop. */
  function CheckPolicies(policies: Json, names: seq<string>): (r: Result<(), Error>)
    decreases |names|
  {
    if |names| == 0 then Success(())
    else
      var policy :- PyIndex(policies, names[0]);
      var _ :- CheckPolicy(policy, RuleKinds);
      CheckPolicies(policies, names[1..])
  }

  /** `_set_matching_policy_settings`: the section is optional, but when
      present it must name at least one policy, and is stored only when all
      its policies pass. A non-empty section that is no object fails at the
      first policy lookup. */
  function MatchingPolicy(s: Settings, json: Json): (r: Result<Settings, Error>)
    requires json.JObj?
    ensures PyIn("matching_policy", json) == Success(false) ==> r == Success(s)
    ensures PyIn("matching_policy", json) == Success(true) && PyIndex(json, "matching_policy").value == JObj([]) ==>
              r == Failure(MatchingPolicyEmpty)
    ensures r.Success? ==> r.value.(matchingPolicy := s.matchingPolicy) == s
    ensures r.Success? && PyIn("matching_policy", json) == Success(true) ==>
              r.value.matchingPolicy == Some(PyIndex(json, "matching_policy").value)
  {
    if !PyIn("matching_policy", json).value then Success(s)
    else
      var section := PyIndex(json, "matching_policy").value;
      var n :- PyLen(section);
      if n == 0 then Failure(MatchingPolicyEmpty)
      else if !section.JObj? then Failure(SettingsTypeError)
      else
        var _ :- CheckPolicies(section, Dicts.Keys(section.members));
        Success(s.(matchingPolicy := Some(section)))
  }

  /** A policy whose 'drm' rules are empty is rejected with the error of
      that kind. */
  lemma MatchingPolicyRejectsEmptyRules(s: Settings)
    ensures MatchingPolicy(s, JObj([("matching_policy", JObj([("p", JObj([("drm", JObj([]))]))]))])) ==
              Failure(DrmRulesEmptyInMatchingPolicy)
  {
    var badPolicy := JObj([("drm", JObj([]))]);
    var bad := JObj([("p", badPolicy)]);
    var badJson := JObj([("matching_policy", bad)]);
    assert badJson.members[0].0 == "matching_policy";
    assert bad.members[0].0 == "p";
    assert Dicts.Keys(bad.members) == ["p"];
    assert badPolicy.members[0].0 == "drm";
    assert PyIn("dfm", badPolicy) == Success(false);
    assert CheckPolicy(badPolicy, RuleKinds) == Failure(DrmRulesEmptyInMatchingPolicy);
  }

  /** A policy listing rules of each kind passes, and the section is kept. */
  lemma MatchingPolicyKeepsValidPolicy(s: Settings, rules: Json)
    requires rules == JObj([("rule_1", JArr([JStr("lei")]))])
    ensures var policies := JObj([("p", JObj([("dfm", rules), ("drm", rules), ("ifm", rules)]))]);
            MatchingPolicy(s, JObj([("matching_policy", policies)])) == Success(s.(matchingPolicy := Some(policies)))
  {
    var policy := JObj([("dfm", rules), ("drm", rules), ("ifm", rules)]);
    var policies := JObj([("p", policy)]);
    OneMemberIn("matching_policy", policies, "matching_policy");
    OneMemberIn("p", policy, "p");
    assert Dicts.Keys(policies.members) == ["p"];
    assert policy.members[0].0 == "dfm" && policy.members[1].0 == "drm" && policy.members[2].0 == "ifm";
    assert PyLen(rules) == Success(1);
    assert CheckKind(policy, RuleKinds[2]) == Success(()) by {
      assert PyIndex(policy, "ifm") == Success(rules);
    }
    assert CheckKind(policy, RuleKinds[1]) == Success(()) by {
      assert PyIndex(policy, "drm") == Success(rules);
    }
    assert CheckKind(policy, RuleKinds[0]) == Success(()) by {
      assert PyIndex(policy, "dfm") == Success(rules);
    }
    assert CheckPolicy(policy, RuleKinds[2..]) == Success(());
    assert CheckPolicy(policy, RuleKinds[1..]) == Success(());
    assert CheckPolicy(policy, RuleKinds) == Success(());
    assert CheckPolicies(policies, ["p"]) == Success(());
  }

  // ---------------------------------------------------------------------

  /** The constructor's reading of a parsed settings file: the three
      sections in order, from the defaults; the first error stops it. */
  function Load(json: Json): (r: Result<Settings, Error>)
    requires json.JObj?
    ensures r.Success? ==> Enumerated(r.value)
    ensures PyIn("data_source", json) == Success(false) ==> r.Failure?
  {
    var s1 :- FileProcessing(Defaults(), json);
    match DataSource(s1, json)
    case Aborted(_, e) => Failure(e)
    case Completed(s2) => MatchingPolicy(s2, json)
  }
}
