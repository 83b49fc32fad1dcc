/** The CSV file reader: the header row decides which attributes are read
    (all of them unless a selection was set), and each data row becomes a
    record whose fields are the attributes read, in order, all strings.

    The file's content is given as data: the header row (`None` for a file
    with no line at all, which is how Python's `DictReader` reports it) and
    the following rows, each already split into its fields. As `DictReader`
    does, rows without any field (blank lines) are skipped. */
module CsvReader {
  import opened Wrappers
  import opened Errors
  import opened Dicts
  import opened Seqs

  datatype Reader = Reader(
    extensionSupported: string,
    separator: string,
    encoding: string,
    totalLines: nat,
    totalAttributes: nat,
    totalAttributesRead: nat,
    attributesToRead: Option<seq<string>>)

  /** The constructor, with the base reader's defaults. */
  function New(): (rd: Reader)
    ensures rd.separator == "," && rd.extensionSupported == ".csv" && rd.encoding == "utf-8"
    ensures rd.totalLines == 0 && rd.totalAttributes == 0 && rd.totalAttributesRead == 0
    ensures rd.attributesToRead.None?
  {
    Reader(".csv", ",", "utf-8", 0, 0, 0, None)
  }

  /** All the `xs` are among the `ys`. */
  predicate AllIn(xs: seq<string>, ys: seq<string>) {
    forall i :: 0 <= i < |xs| ==> xs[i] in ys
  }

  /** `_attributes_exist_in_file(names)`: the loop over the attributes to
      read that stops at the first one missing from `names`; with no
      selection set there is nothing to iterate and Python raises. */
  method AttributesExistInFile(rd: Reader, names: seq<string>) returns (r: Result<bool, Error>)
    ensures r.Failure? <==> rd.attributesToRead.None?
    ensures r.Failure? ==> r.error == NoneNotIterable
    ensures r.Success? ==> (r.value <==> AllIn(rd.attributesToRead.value, names))
  {
    if rd.attributesToRead.None? {
      return Failure(NoneNotIterable);
    }
    var attrs := rd.attributesToRead.value;
    var i := 0;
    while i < |attrs|
      invariant 0 <= i <= |attrs|
      invariant forall j :: 0 <= j < i ==> attrs[j] in names
    {
      if attrs[i] !in names {
        return Success(false);
      }
      i := i + 1;
    }
    return Success(true);
  }

  /** `read_file_header_columns`: the header row, which must not be empty. */
  function ReadFileHeaderColumns(header: Option<seq<string>>): (r: Result<seq<string>, Error>)
    ensures header.None? ==> r == Failure(NoneNotIterable)
    ensures r.Success? <==> header.Some? && |header.value| > 0
    ensures header.Some? && r.Failure? ==> r.error == NoHeaderInFile
    ensures r.Success? ==> r.value == header.value
  {
    match header
    case None => Failure(NoneNotIterable)
    case Some(h) => if |h| == 0 then Failure(NoHeaderInFile) else Success(h)
  }

  // ---------------------------------------------------------------------
  // Row records

  /** The words Python reserves, which cannot name a field. */
  const PythonKeywords: set<string> :=
    {"False", "None", "True", "and", "as", "assert", "async", "await", "break", "class", "continue",
     "def", "del", "elif", "else", "except", "finally", "for", "from", "global", "if", "import", "in",
     "is", "lambda", "nonlocal", "not", "or", "pass", "raise", "return", "try", "while", "with", "yield"}

  predicate IsAsciiLetter(c: char) {
    'a' <= c <= 'z' || 'A' <= c <= 'Z'
  }

  predicate IsNameChar(c: char) {
    IsAsciiLetter(c) || '0' <= c <= '9' || c == '_'
  }

  /** A name `NamedTuple` accepts for a field: an identifier that is no
      keyword and does not start with an underscore. */
  predicate IsFieldName(n: string) {
    |n| > 0 && IsAsciiLetter(n[0]) && (forall i :: 1 <= i < |n| ==> IsNameChar(n[i])) && n !in PythonKeywords
  }

  datatype FieldType = Str

  /** `_create_row_object`: the record type, one string field per attribute
      read, in order; `NamedTuple` refuses repeated or invalid field names. */
  function CreateRowObject(attrs: seq<string>): (r: Result<Dict<string, FieldType>, Error>)
    ensures r.Success? <==> NoDuplicates(attrs) && forall i :: 0 <= i < |attrs| ==> IsFieldName(attrs[i])
    ensures r.Failure? ==> r.error == InvalidFieldNames
    ensures r.Success? ==> Keys(r.value) == attrs && forall i :: 0 <= i < |r.value| ==> r.value[i].1 == Str
  {
    if !NoDuplicates(attrs) || exists i :: 0 <= i < |attrs| && !IsFieldName(attrs[i]) then Failure(InvalidFieldNames)
    else
      var fields := seq(|attrs|, i requires 0 <= i < |attrs| => (attrs[i], Str));
      assert Keys(fields) == attrs;
      Success(fields)
  }

  /** One data row as `DictReader` hands it out: each header name mapped to
      the field at its position (`None` past the end of a short row; a name
      repeated in the header keeps its first position and its last value),
      and the fields past the header's length, filed by `DictReader` under
      the key `None`. */
  datatype FileLine = FileLine(fields: Dict<string, Option<string>>, rest: seq<string>)

  function FieldAt(line: seq<string>, i: nat): Option<string> {
    if i < |line| then Some(line[i]) else None
  }

  function HeaderFields(header: seq<string>, line: seq<string>): (d: Dict<string, Option<string>>)
    ensures forall k :: HasKey(d, k) <==> k in header
    decreases |header|
  {
    if |header| == 0 then []
    else
      var n := |header| - 1;
      var d0 := HeaderFields(header[..n], line);
      assert forall k :: k in header <==> k in header[..n] || k == header[n] by {
        assert header == header[..n] + [header[n]];
      }
      Set(d0, header[n], FieldAt(line, n))
  }

  function DictRow(header: seq<string>, line: seq<string>): (fl: FileLine)
    ensures forall k :: HasKey(fl.fields, k) <==> k in header
    ensures |line| > |header| ==> fl.rest == line[|header|..]
    ensures |line| <= |header| ==> fl.rest == []
  {
    FileLine(HeaderFields(header, line), if |line| > |header| then line[|header|..] else [])
  }

  /** With a header whose names are distinct, each name reads the field at
      its own position. */
  lemma {:induction false} DictRowDistinct(header: seq<string>, line: seq<string>, i: nat)
    requires NoDuplicates(header) && i < |header|
    ensures Get(DictRow(header, line).fields, header[i]) == Some(FieldAt(line, i))
    decreases |header|
  {
    var n := |header| - 1;
    var d0 := HeaderFields(header[..n], line);
    SetGet(d0, header[n], FieldAt(line, n));
    if i < n {
      assert header[..n][i] == header[i];
      assert NoDuplicates(header[..n]);
      DictRowDistinct(header[..n], line, i);
      assert header[i] != header[n];
    }
  }

  /** A record: the attributes read, in order, with their values. */
  type Record = Dict<string, Option<string>>

  /** The record built from the attributes read alone: what a subset
      selection evidently intends. */
  function RowRecord(attrs: seq<string>, fl: FileLine): (r: Record)
    requires forall i :: 0 <= i < |attrs| ==> HasKey(fl.fields, attrs[i])
    ensures Keys(r) == attrs
    ensures forall i :: 0 <= i < |attrs| ==> Get(fl.fields, attrs[i]) == Some(r[i].1)
  {
    var r := seq(|attrs|, i requires 0 <= i < |attrs| => (attrs[i], Get(fl.fields, attrs[i]).value));
    assert Keys(r) == attrs;
    r
  }

  /** The row record as written: `FileRecord(**file_line)` passes EVERY
      field of the row as a keyword, so a header column that is not read is
      an unexpected keyword, and so is the `None` key of a row longer than
      the header. */
  function RowRecordAsWritten(attrs: seq<string>, fl: FileLine): (r: Result<Record, Error>)
    requires forall i :: 0 <= i < |attrs| ==> HasKey(fl.fields, attrs[i])
  {
    var unexpected := Unexpected(Keys(fl.fields), attrs);
    if |unexpected| > 0 then Failure(UnexpectedRowField(unexpected[0]))
    else if |fl.rest| > 0 then Failure(RowKeywordNotString)
    else Success(RowRecord(attrs, fl))
  }

  /** The row's keys that are not among the attributes read, in row order. */
  function Unexpected(keys: seq<string>, attrs: seq<string>): (r: seq<string>)
    ensures forall k :: k in r <==> k in keys && k !in attrs
  {
    Filter(keys, k => k !in attrs)
  }

  /** As written, a row becomes a record only when every header column is
      read and the row is no longer than the header; it is then the
      record of the attributes read. */
  lemma RowRecordAsWrittenAgrees(attrs: seq<string>, fl: FileLine)
    requires forall i :: 0 <= i < |attrs| ==> HasKey(fl.fields, attrs[i])
    ensures RowRecordAsWritten(attrs, fl).Success? <==> (forall k :: HasKey(fl.fields, k) ==> k in attrs) && fl.rest == []
    ensures RowRecordAsWritten(attrs, fl).Success? ==> RowRecordAsWritten(attrs, fl).value == RowRecord(attrs, fl)
  {
    var unexpected := Unexpected(Keys(fl.fields), attrs);
    if exists k :: HasKey(fl.fields, k) && k !in attrs {
      var k :| HasKey(fl.fields, k) && k !in attrs;
      assert k in unexpected;
    }
  }

  /** Reading a subset of the header's columns, which the header check
      explicitly allows, fails at the first data row as written. */
  lemma SubsetSelectionFails()
    ensures var fl := DictRow(["ID", "ISIN"], ["1", "SK1120005824"]);
            RowRecordAsWritten(["ID"], fl) == Failure(UnexpectedRowField("ISIN"))
            && RowRecord(["ID"], fl) == [("ID", Some("1"))]
  {
    TwoColumnRow();
    ExampleAsWritten();
    ExampleRecord();
  }

  /** The first data row of an ID/ISIN file, the input of
      `SubsetSelectionFails`; the three lemmas below are its steps. */
  const ExampleFields: Dict<string, Option<string>> := [("ID", Some("1")), ("ISIN", Some("SK1120005824"))]

  /** Step of `SubsetSelectionFails`: as written, the row raises on ISIN. */
  lemma ExampleAsWritten()
    ensures Keys(ExampleFields) == ["ID", "ISIN"]
    ensures RowRecordAsWritten(["ID"], FileLine(ExampleFields, [])) == Failure(UnexpectedRowField("ISIN"))
  {
    var u := Unexpected(["ID", "ISIN"], ["ID"]);
    assert "ISIN" in u;
    assert u[0] == "ISIN";
  }

  /** Step of `SubsetSelectionFails`: corrected, the record is the ID alone. */
  lemma ExampleRecord()
    ensures HasKey(ExampleFields, "ID") && RowRecord(["ID"], FileLine(ExampleFields, [])) == [("ID", Some("1"))]
  {
    assert ExampleFields[0] == ("ID", Some("1"));
    assert Get(ExampleFields, "ID") == Some(Some("1"));
  }

  /** Step of `SubsetSelectionFails`: the example row as `DictReader` hands it out. */
  lemma TwoColumnRow()
    ensures DictRow(["ID", "ISIN"], ["1", "SK1120005824"]) == FileLine(ExampleFields, [])
  {
    var line := ["1", "SK1120005824"];
    var header := ["ID", "ISIN"];
    assert header[..1] == ["ID"] && header[..1][..0] == [];
    assert HeaderFields(header[..1], line) == [("ID", Some("1"))] by {
      assert FieldAt(line, 0) == Some("1");
      assert HeaderFields(header[..1][..0], line) == [] && !HasKey(HeaderFields(header[..1][..0], line), "ID");
    }
    assert !HasKey([("ID", Some("1"))], "ISIN");
    assert FieldAt(line, 1) == Some("SK1120005824");
    assert HeaderFields(header, line) == Set([("ID", Some("1"))], "ISIN", Some("SK1120005824"));
  }

  // ---------------------------------------------------------------------
  // Reading a file

  /** The rows `DictReader` yields: the non-blank ones, in order. */
  function DataLines(lines: seq<seq<string>>): (r: seq<seq<string>>)
    ensures |r| <= |lines| && forall i :: 0 <= i < |r| ==> |r[i]| > 0
    ensures forall l :: l in r <==> l in lines && |l| > 0
  {
    Filter(lines, (l: seq<string>) => |l| > 0)
  }

  /** The attributes a read uses: the selection, or the header when none
      (or an empty one) was set. */
  function SelectedAttributes(rd: Reader, header: seq<string>): seq<string> {
    if rd.attributesToRead.None? || |rd.attributesToRead.value| == 0 then header else rd.attributesToRead.value
  }

  datatype ReadResult = ReadResult(reader: Reader, rows: seq<Record>)

  /** `read_file`, run to exhaustion: checks the header, settles the
      attributes to read, then yields one record per data row. The counts of
      attributes are set before the first row; `total_lines` only after the
      last. The records are built as the evidently intended selection. */
  function ReadFile(rd: Reader, header: Option<seq<string>>, lines: seq<seq<string>>): (r: Run<ReadResult>)
    ensures r.Aborted? ==> r.state.rows == [] && r.state.reader.totalLines == rd.totalLines
    ensures r.Completed? <==>
              && header.Some? && |header.value| > 0
              && AllIn(SelectedAttributes(rd, header.value), header.value)
              && CreateRowObject(SelectedAttributes(rd, header.value)).Success?
    ensures header.Some? && |header.value| > 0 && !AllIn(SelectedAttributes(rd, header.value), header.value) ==>
              r == Aborted(ReadResult(rd, []), ColumnsToReadDifferFromFileHeader)
    ensures header == Some([]) ==> r == Aborted(ReadResult(rd, []), NoHeaderInFile)
    ensures r.Completed? ==>
              var attrs := SelectedAttributes(rd, header.value);
              var data := DataLines(lines);
              && r.state.reader.attributesToRead == Some(attrs)
              && r.state.reader.totalAttributesRead == |attrs|
              && r.state.reader.totalAttributes == |header.value|
              && r.state.reader.totalLines == |r.state.rows| == |data|
              && forall i :: 0 <= i < |data| ==> r.state.rows[i] == RowRecord(attrs, DictRow(header.value, data[i]))
  {
    match ReadFileHeaderColumns(header)
    case Failure(e) => Aborted(ReadResult(rd, []), e)
    case Success(h) =>
      var attrs := SelectedAttributes(rd, h);
      if !AllIn(attrs, h) then Aborted(ReadResult(rd, []), ColumnsToReadDifferFromFileHeader)
      else
        var rd1 := rd.(attributesToRead := Some(attrs));
        match CreateRowObject(attrs)
        case Failure(e) => Aborted(ReadResult(rd1, []), e)
        case Success(_) =>
          var rd2 := rd1.(totalAttributesRead := |attrs|, totalAttributes := |h|);
          var rows := Records(attrs, h, DataLines(lines));
          Completed(ReadResult(rd2.(totalLines := |rows|), rows))
  }

  /** One record per data line, each of the selected attributes. */
  function Records(attrs: seq<string>, header: seq<string>, data: seq<seq<string>>): (rows: seq<Record>)
    requires AllIn(attrs, header)
    ensures |rows| == |data|
    ensures forall i :: 0 <= i < |data| ==> rows[i] == RowRecord(attrs, DictRow(header, data[i]))
  {
    seq(|data|, i requires 0 <= i < |data| => RowRecord(attrs, DictRow(header, data[i])))
  }

  /** With no selection set, every column of the header is read, and each
      record holds the row's fields in header order. */
  lemma ReadAllColumns(header: seq<string>, lines: seq<seq<string>>, i: nat)
    requires |header| > 0 && NoDuplicates(header) && forall j :: 0 <= j < |header| ==> IsFieldName(header[j])
    requires i < |DataLines(lines)|
    ensures var r := ReadFile(New(), Some(header), lines);
            r.Completed? && r.state.reader.attributesToRead == Some(header)
            && Keys(r.state.rows[i]) == header
            && forall j :: 0 <= j < |header| ==> r.state.rows[i][j].1 == FieldAt(DataLines(lines)[i], j)
  {
    var r := ReadFile(New(), Some(header), lines);
    var line := DataLines(lines)[i];
    assert SelectedAttributes(New(), header) == header;
    assert AllIn(header, header);
    assert r.Completed? && r.state.rows[i] == RowRecord(header, DictRow(header, line));
    RecordOfAllColumns(header, line);
  }

  /** The record of every header column holds the row's fields in header order. */
  lemma RecordOfAllColumns(header: seq<string>, line: seq<string>)
    requires NoDuplicates(header)
    ensures forall j :: 0 <= j < |header| ==> HasKey(DictRow(header, line).fields, header[j])
    ensures var rec := RowRecord(header, DictRow(header, line));
            Keys(rec) == header && forall j :: 0 <= j < |header| ==> rec[j].1 == FieldAt(line, j)
  {
    var rec := RowRecord(header, DictRow(header, line));
    forall j | 0 <= j < |header| ensures rec[j].1 == FieldAt(line, j) {
      DictRowDistinct(header, line, j);
    }
  }
}
