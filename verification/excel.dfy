/**
  The server's direct Excel extraction: the file-type check of
  `performExtraction`, the document-type classification of the file name and
  its processing priority, the choice of worksheet, and the conversion of
  the sheet's rows into records tagged with their origin. Downloading and
  the workbook parser are parameters: the download's outcome, the sheet
  names and the rows each sheet holds.
 */
module Excel {
  import opened Wrappers
  import opened Text
  import opened Seqs
  import opened Values
  import LocalAgent

  /** `documentName.toLowerCase().split('.').pop() || ''`: a name without a dot is its own extension. */
  function FileExtension(name: string): string {
    Last(Split(Lower(name), '.'))
  }

  predicate IsExcel(name: string) {
    FileExtension(name) == "xlsx" || FileExtension(name) == "xls"
  }

  /**
    The extension is the lower-cased text after the last dot, which holds no
    dot; a name without a dot is taken whole. With a dot it agrees with the
    local agent's extension, without one it does not: there it is "unknown".
   */
  lemma FileExtensionSpec(name: string)
    ensures FileExtension(name) == AfterLast(Lower(name), '.')
    ensures '.' !in FileExtension(name)
    ensures '.' !in name ==> FileExtension(name) == Lower(name)
    ensures '.' in name ==> FileExtension(name) == LocalAgent.Extension(name)
    ensures '.' !in name ==> LocalAgent.Extension(name) == "unknown"
  {
    SplitLast(Lower(name), '.');
    AfterLastSpec(Lower(name), '.');
    LocalAgent.LowerKeepsDots(name);
  }

  /** A bare "xls" is accepted as an Excel file, while the local agent would call its type "unknown". */
  lemma DotlessExcel()
    ensures IsExcel("xls") && LocalAgent.Extension("xls") == "unknown"
  {
    FileExtensionSpec("xls");
    assert Lower("xls") == "xls";
  }

  /** The classification of a file name: type name, confidence and priority. */
  datatype DocType = DocType(kind: string, confidence: nat, priority: nat)

  const Monthly := "monthly_pos_statement"
  const StoreStatement := "store_pos_statement"
  const LineItems := "line_items"

  predicate MentionsMonth(low: string) {
    Contains(low, "monthly") || Contains(low, "month") || Contains(low, "summary")
  }

  predicate MentionsStore(low: string) {
    Contains(low, "store") || Contains(low, "location") || Contains(low, "branch")
  }

  predicate MentionsLines(low: string) {
    Contains(low, "line") || Contains(low, "item") || Contains(low, "transaction") || Contains(low, "detail")
  }

  /** `detectPosDocumentType`: the first keyword group the lower-cased name mentions decides. */
  function DetectType(name: string): DocType {
    var low := Lower(name);
    if MentionsMonth(low) then DocType(Monthly, 90, 1)
    else if MentionsStore(low) then DocType(StoreStatement, 85, 2)
    else if MentionsLines(low) then DocType(LineItems, 80, 3)
    else DocType(LineItems, 60, 3)
  }

  /** `getProcessingPriority`: the priority map, and 5 for any other name. */
  function Priority(kind: string): nat {
    if kind == Monthly then 1
    else if kind == StoreStatement then 2
    else if kind == LineItems then 3
    else if kind == "unknown_pos_document" then 4
    else 5
  }

  /**
    The classification's priority is the one the priority map gives its type,
    so it never reaches 4 or 5; a more urgent type is more confident; the
    default confidence 60 is given exactly when no keyword occurs; and
    letter case in the name does not matter.
   */
  lemma DetectTypeSpec(name: string, other: string)
    ensures Priority(DetectType(name).kind) == DetectType(name).priority
    ensures 1 <= DetectType(name).priority <= 3
    ensures DetectType(name).priority < DetectType(other).priority ==>
      DetectType(name).confidence > DetectType(other).confidence
    ensures DetectType(name).confidence == 60 <==>
      !MentionsMonth(Lower(name)) && !MentionsStore(Lower(name)) && !MentionsLines(Lower(name))
    ensures DetectType(Lower(name)) == DetectType(name)
  {
    LowerIdempotent(name);
  }

  /** Month keywords win over every other group, whatever else the name says. */
  lemma MonthFirst(name: string)
    requires Contains(Lower(name), "summary")
    ensures DetectType(name) == DocType(Monthly, 90, 1)
  {
  }

  /** Unknown type names, including the empty one, are processed last. */
  lemma PriorityDefault(kind: string)
    ensures Priority(kind) == 5 <==> kind !in {Monthly, StoreStatement, LineItems, "unknown_pos_document"}
    ensures 1 <= Priority(kind) <= 5
  {
  }

  const SheetKeywords: seq<string> := ["pos", "statement", "monthly", "store", "transaction", "line", "item"]

  /** Whether a sheet name, lower-cased, mentions one of the POS keywords. */
  predicate PosSheet(name: string) {
    exists k :: 0 <= k < |SheetKeywords| && Contains(Lower(name), SheetKeywords[k])
  }

  /** The index of the first POS sheet, or `|names|` when there is none. */
  function FirstPosSheet(names: seq<string>): (i: nat)
    ensures i <= |names|
    ensures forall j :: 0 <= j < i ==> !PosSheet(names[j])
    ensures i < |names| ==> PosSheet(names[i])
  {
    if |names| == 0 then 0
    else if PosSheet(names[0]) then 0
    else 1 + FirstPosSheet(names[1..])
  }

  /** The sheet the conversion reads: the first POS sheet, else the first sheet. */
  function SelectSheet(names: seq<string>): Option<string> {
    if |names| == 0 then None
    else
      var i := FirstPosSheet(names);
      Some(if i < |names| then names[i] else names[0])
  }

  /**
    A workbook with sheets always has a selected sheet, one of its own; it is
    a POS sheet preceded by none whenever the workbook has a POS sheet, and
    the first sheet otherwise.
   */
  lemma SelectSheetSpec(names: seq<string>)
    ensures SelectSheet(names).Some? <==> |names| > 0
    ensures SelectSheet(names).Some? ==> SelectSheet(names).value in names
    ensures (exists j :: 0 <= j < |names| && PosSheet(names[j])) ==>
      exists i :: 0 <= i < |names| && SelectSheet(names) == Some(names[i]) && PosSheet(names[i]) &&
        forall j :: 0 <= j < i ==> !PosSheet(names[j])
    ensures |names| > 0 && (forall j :: 0 <= j < |names| ==> !PosSheet(names[j])) ==>
      SelectSheet(names) == Some(names[0])
  {
  }

  /** `row[j]` of a row from `sheet_to_json`: None (undefined) past the row's end. */
  function CellAt(row: seq<Value>, j: nat): Option<Value> {
    if j < |row| then Some(row[j]) else None
  }

  /** `String(header).trim()` with line feeds turned into spaces and carriage returns removed. */
  function CleanHeader(header: Value, numText: real -> string): string {
    ReplaceAll(ReplaceAll(Trim(JsString(header, numText)), "\n", " "), "\r", "")
  }

  /**
    What a cell contributes: nothing for null, undefined or "", a number as
    it is, and anything else as its trimmed text unless that is blank or
    spells "null" in any case.
   */
  function CellValue(v: Option<Value>, numText: real -> string): Option<Value> {
    match v
    case None => None
    case Some(Null) => None
    case Some(Num(n)) => Some(Num(n))
    case Some(x) =>
      if x == Str("") then None
      else
        var s := Trim(JsString(x, numText));
        if |s| > 0 && Lower(s) != "null" then Some(Str(s)) else None
  }

  /** A kept value is a number or a non-blank text with no edge whitespace that is not "null". */
  predicate Kept(v: Value) {
    v.Num? || (v.Str? && |v.s| > 0 && !IsSpace(v.s[0]) && !IsSpace(v.s[|v.s| - 1]) && Lower(v.s) != "null")
  }

  lemma CellValueKept(v: Option<Value>, numText: real -> string)
    ensures CellValue(v, numText).Some? ==> Kept(CellValue(v, numText).value)
    ensures v.None? || v == Some(Null) || v == Some(Str("")) ==> CellValue(v, numText).None?
  {
    if v.Some? && !v.value.Num? && v.value != Null && v.value != Str("") {
      TrimSpec(JsString(v.value, numText));
    }
  }

  /** The record built from the first `n` columns of a data row. */
  function RowRecord(headers: seq<Value>, row: seq<Value>, n: nat, numText: real -> string): Record
    requires n <= |headers|
  {
    if n == 0 then []
    else
      var acc := RowRecord(headers, row, n - 1, numText);
      var h := headers[n - 1];
      if Truthy(Some(h)) then
        match CellValue(CellAt(row, n - 1), numText)
        case Some(v) => Assign(acc, CleanHeader(h, numText), v)
        case None => acc
      else acc
  }

  /** The value the last of the first `n` columns headed `k` contributes, scanning from the right. */
  function LastCell(headers: seq<Value>, row: seq<Value>, n: nat, k: string, numText: real -> string): Option<Value>
    requires n <= |headers|
  {
    if n == 0 then None
    else
      var h := headers[n - 1];
      var c := CellValue(CellAt(row, n - 1), numText);
      if Truthy(Some(h)) && CleanHeader(h, numText) == k && c.Some? then c
      else LastCell(headers, row, n - 1, k, numText)
  }

  /**
    A row's record reads, under each cleaned header, the value of the last
    column with that header that contributes one (later columns overwrite
    earlier ones); it has no key twice and only kept values.
   */
  lemma {:induction false} RowRecordSpec(headers: seq<Value>, row: seq<Value>, n: nat, numText: real -> string)
    requires n <= |headers|
    ensures forall k :: Get(RowRecord(headers, row, n, numText), k) == LastCell(headers, row, n, k, numText)
    ensures DistinctKeys(RowRecord(headers, row, n, numText))
    ensures forall i :: 0 <= i < |RowRecord(headers, row, n, numText)| ==>
      Kept(RowRecord(headers, row, n, numText)[i].value)
  {
    if n > 0 {
      RowRecordSpec(headers, row, n - 1, numText);
      var acc := RowRecord(headers, row, n - 1, numText);
      var h := headers[n - 1];
      var c := CellValue(CellAt(row, n - 1), numText);
      CellValueKept(CellAt(row, n - 1), numText);
      if Truthy(Some(h)) && c.Some? {
        forall k
          ensures Get(RowRecord(headers, row, n, numText), k) == LastCell(headers, row, n, k, numText)
        {
          AssignGet(acc, CleanHeader(h, numText), c.value, k);
        }
        LocalAgent.AssignDistinct(acc, CleanHeader(h, numText), c.value);
        AssignValues(acc, CleanHeader(h, numText), c.value);
      }
    }
  }

  /** Assigning a kept value keeps every value kept. */
  lemma {:induction false} AssignValues(r: Record, k: string, v: Value)
    requires Kept(v) && forall i :: 0 <= i < |r| ==> Kept(r[i].value)
    ensures forall i :: 0 <= i < |Assign(r, k, v)| ==> Kept(Assign(r, k, v)[i].value)
    decreases |r|
  {
    if |r| > 0 && r[0].key != k {
      AssignValues(r[1..], k, v);
      assert Assign(r, k, v) == [r[0]] + Assign(r[1..], k, v);
    }
  }

  /** A row with no contributing cell gives the empty record, which is not kept. */
  lemma BlankRow(headers: seq<Value>, row: seq<Value>, numText: real -> string)
    requires forall j :: 0 <= j < |headers| ==>
      CellAt(row, j).None? || CellAt(row, j) == Some(Null) || CellAt(row, j) == Some(Str(""))
    ensures RowRecord(headers, row, |headers|, numText) == []
  {
    var r := RowRecord(headers, row, |headers|, numText);
    RowRecordSpec(headers, row, |headers|, numText);
    if |r| > 0 {
      var k := r[0].key;
      BlankLast(headers, row, |headers|, k, numText);
      GetSpec(r, k);
    }
  }

  lemma {:induction false} BlankLast(headers: seq<Value>, row: seq<Value>, n: nat, k: string, numText: real -> string)
    requires n <= |headers|
    requires forall j :: 0 <= j < |headers| ==>
      CellAt(row, j).None? || CellAt(row, j) == Some(Null) || CellAt(row, j) == Some(Str(""))
    ensures LastCell(headers, row, n, k, numText).None?
    decreases n
  {
    if n > 0 {
      BlankLast(headers, row, n - 1, k, numText);
      CellValueKept(CellAt(row, n - 1), numText);
    }
  }

  /** The metadata added to every kept record. */
  function Meta(i: nat, doc: DocType, sheet: string): Record {
    [Field("_row_number", Num((i + 2) as real)),
     Field("_document_type", Str(doc.kind)),
     Field("_processing_priority", Num(doc.priority as real)),
     Field("_source", Str("Direct Excel Parsing")),
     Field("_sheet_name", Str(sheet))]
  }

  const MetaKeys: seq<string> := ["_row_number", "_document_type", "_processing_priority", "_source", "_sheet_name"]

  /** The record of data row `i`, with its metadata assigned after the cells. */
  function Tag(record: Record, i: nat, doc: DocType, sheet: string): Record {
    Spread(record, Meta(i, doc, sheet))
  }

  /**
    A tagged record gives its spreadsheet row number (the data row's index
    plus two, for the header and 1-based numbering), the document type,
    priority, source and sheet, and reads every other key as the row did.
   */
  lemma TagSpec(record: Record, i: nat, doc: DocType, sheet: string, k: string)
    ensures Get(Tag(record, i, doc, sheet), "_row_number") == Some(Num((i + 2) as real))
    ensures Get(Tag(record, i, doc, sheet), "_processing_priority") == Some(Num(doc.priority as real))
    ensures Get(Tag(record, i, doc, sheet), "_source") == Some(Str("Direct Excel Parsing"))
    ensures Get(Tag(record, i, doc, sheet), "_sheet_name") == Some(Str(sheet))
    ensures k !in MetaKeys ==> Get(Tag(record, i, doc, sheet), k) == Get(record, k)
    ensures |Tag(record, i, doc, sheet)| > 0
  {
    var m := Meta(i, doc, sheet);
    assert Keys(m) == MetaKeys;
    assert DistinctKeys(m);
    GetField(m, 0);
    GetField(m, 2);
    GetField(m, 3);
    GetField(m, 4);
    SpreadGet(record, m, "_row_number");
    SpreadGet(record, m, "_processing_priority");
    SpreadGet(record, m, "_source");
    SpreadGet(record, m, "_sheet_name");
    SpreadGet(record, m, k);
    var t := Tag(record, i, doc, sheet);
    if |t| == 0 {
      GetSpec(t, "_source");
    }
  }

  /** The kept records of the first `n` data rows, in row order. */
  function Convert(headers: seq<Value>, data: seq<seq<Value>>, n: nat, doc: DocType, sheet: string,
                   numText: real -> string): seq<Record>
    requires n <= |data|
  {
    if n == 0 then []
    else
      var r := RowRecord(headers, data[n - 1], |headers|, numText);
      Convert(headers, data, n - 1, doc, sheet, numText) + (if |r| > 0 then [Tag(r, n - 1, doc, sheet)] else [])
  }

  /** The indices of the first `n` data rows that give a non-empty record. */
  function Sources(headers: seq<Value>, data: seq<seq<Value>>, n: nat, numText: real -> string): seq<nat>
    requires n <= |data|
  {
    if n == 0 then []
    else
      Sources(headers, data, n - 1, numText) +
      (if |RowRecord(headers, data[n - 1], |headers|, numText)| > 0 then [n - 1] else [])
  }

  /**
    The source rows are strictly increasing and are exactly the data rows
    whose record is non-empty.
   */
  lemma {:induction false} SourcesSpec(headers: seq<Value>, data: seq<seq<Value>>, n: nat, numText: real -> string)
    requires n <= |data|
    ensures forall a, b :: 0 <= a < b < |Sources(headers, data, n, numText)| ==>
      Sources(headers, data, n, numText)[a] < Sources(headers, data, n, numText)[b]
    ensures forall i :: i in Sources(headers, data, n, numText) <==>
      0 <= i < n && |RowRecord(headers, data[i], |headers|, numText)| > 0
    decreases n
  {
    if n > 0 {
      SourcesSpec(headers, data, n - 1, numText);
      var s := Sources(headers, data, n - 1, numText);
      forall a | 0 <= a < |s|
        ensures s[a] < n - 1
      {
        assert s[a] in s;
      }
    }
  }

  /** Each converted record is the tagged record of its source row, one per source row. */
  lemma {:induction false} ConvertSources(headers: seq<Value>, data: seq<seq<Value>>, n: nat, doc: DocType,
                                          sheet: string, numText: real -> string)
    requires n <= |data|
    ensures |Convert(headers, data, n, doc, sheet, numText)| == |Sources(headers, data, n, numText)|
    ensures forall k :: 0 <= k < |Convert(headers, data, n, doc, sheet, numText)| ==>
      var i := Sources(headers, data, n, numText)[k];
      i < |data| &&
      Convert(headers, data, n, doc, sheet, numText)[k] ==
        Tag(RowRecord(headers, data[i], |headers|, numText), i, doc, sheet)
    decreases n
  {
    if n > 0 {
      ConvertSources(headers, data, n - 1, doc, sheet, numText);
      var c, s := Convert(headers, data, n - 1, doc, sheet, numText), Sources(headers, data, n - 1, numText);
      var r := RowRecord(headers, data[n - 1], |headers|, numText);
      if |r| > 0 {
        assert Convert(headers, data, n, doc, sheet, numText) == c + [Tag(r, n - 1, doc, sheet)];
        assert Sources(headers, data, n, numText) == s + [n - 1];
      }
    }
  }

  /**
    `parseExcelToStructuredJson` on the selected sheet's rows: the first row
    holds the headers, the rest are data rows; an empty sheet gives nothing.
   */
  function ParseSheet(rows: seq<seq<Value>>, doc: DocType, sheet: string, numText: real -> string): seq<Record> {
    if |rows| == 0 then []
    else Convert(rows[0], rows[1..], |rows| - 1, doc, sheet, numText)
  }

  /**
    Every converted record comes from a distinct data row, in sheet order: it
    carries that row's spreadsheet number and reads every non-metadata key as
    the row's record did. Every data row with a contributing cell appears;
    no record is empty.
   */
  lemma ParseSheetSpec(rows: seq<seq<Value>>, doc: DocType, sheet: string, numText: real -> string, k: nat, key: string)
    requires |rows| > 0 && k < |ParseSheet(rows, doc, sheet, numText)|
    ensures var out := ParseSheet(rows, doc, sheet, numText);
      var src := Sources(rows[0], rows[1..], |rows| - 1, numText);
      |out| == |src| && src[k] < |rows| - 1 &&
      Get(out[k], "_row_number") == Some(Num((src[k] + 2) as real)) &&
      Get(out[k], "_sheet_name") == Some(Str(sheet)) &&
      |out[k]| > 0 &&
      (key !in MetaKeys ==>
        Get(out[k], key) == Get(RowRecord(rows[0], rows[1..][src[k]], |rows[0]|, numText), key))
  {
    var data := rows[1..];
    ConvertSources(rows[0], data, |data|, doc, sheet, numText);
    var i := Sources(rows[0], data, |data|, numText)[k];
    TagSpec(RowRecord(rows[0], data[i], |rows[0]|, numText), i, doc, sheet, key);
  }

  /** What the workbook parser gives: its sheet names and the rows of each sheet. */
  datatype Workbook = Workbook(sheetNames: seq<string>, rowsOf: string -> seq<seq<Value>>)

  /**
    `convertExcelToJson`: a failed download or a workbook without sheets is an
    error; otherwise the name is classified and the selected sheet converted.
   */
  function ConvertExcelToJson(documentName: string, download: Result<Workbook, string>,
                              numText: real -> string): Result<seq<Record>, string> {
    match download
    case Failure(status) => Failure("Failed to download Excel file: " + status)
    case Success(book) =>
      match SelectSheet(book.sheetNames)
      case None => Failure("Excel parsing failed")
      case Some(sheet) => Success(ParseSheet(book.rowsOf(sheet), DetectType(documentName), sheet, numText))
  }

  datatype ExcelReply = ExcelReply(success: bool, message: string, data: seq<Record>)

  const ConversionFailed := "Excel-to-JSON conversion failed. Please check the document URL and format."

  /**
    `performExtraction`: anything but an `.xlsx` or `.xls` name is refused
    without converting; a conversion error is caught and reported as a failed
    conversion.
   */
  function PerformExtraction(documentName: string, conversion: Result<seq<Record>, string>): ExcelReply {
    var ext := FileExtension(documentName);
    if !IsExcel(documentName) then
      ExcelReply(false, "Unsupported file type: " + ext + ". Only Excel files (.xlsx, .xls) are supported.", [])
    else match conversion
      case Success(records) =>
        ExcelReply(true, "Successfully converted Excel to JSON: " + NatToString(|records|) + " records extracted", records)
      case Failure(_) => ExcelReply(false, ConversionFailed, [])
  }

  /**
    An extraction succeeds exactly for an Excel name whose conversion
    succeeded, and then returns the converted records; every failure returns
    no records, and a name of another type is refused whatever the
    conversion would have given.
   */
  lemma PerformExtractionSpec(documentName: string, conversion: Result<seq<Record>, string>)
    ensures PerformExtraction(documentName, conversion).success <==> IsExcel(documentName) && conversion.Success?
    ensures PerformExtraction(documentName, conversion).success ==>
      PerformExtraction(documentName, conversion).data == conversion.value
    ensures !PerformExtraction(documentName, conversion).success ==> PerformExtraction(documentName, conversion).data == []
    ensures !IsExcel(documentName) ==>
      StartsWith(PerformExtraction(documentName, conversion).message, "Unsupported file type: ") &&
      PerformExtraction(documentName, Success([])) == PerformExtraction(documentName, conversion)
  {
    var r := PerformExtraction(documentName, conversion);
    if !IsExcel(documentName) {
      var p := "Unsupported file type: ";
      assert r.message == p + (FileExtension(documentName) + ". Only Excel files (.xlsx, .xls) are supported.");
    }
  }
}
