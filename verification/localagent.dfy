/**
  The local extraction service: the `/extract` endpoint's URL and
  file-type checks, and the rule-term filtering applied to the records
  mined from a PDF's text. Downloading, PDF text extraction and the pattern
  mining are parameters: the download's outcome and what the reading gave.
 */
module LocalAgent {
  import opened Wrappers
  import opened Text
  import opened Seqs
  import opened Values
  import Extraction

  type ExtractionRule = Extraction.ExtractionRule

  /**
    The index of the first field whose key equals `term` ignoring case, or
    `|record|` when there is none.
   */
  function CaseIndex(record: Record, term: string): (i: nat)
    ensures i <= |record|
    ensures forall j :: 0 <= j < i ==> Lower(record[j].key) != Lower(term)
    ensures i < |record| ==> Lower(record[i].key) == Lower(term)
  {
    if |record| == 0 then 0
    else if Lower(record[0].key) == Lower(term) then 0
    else 1 + CaseIndex(record[1..], term)
  }

  /** The value a term picks from a record: its own key first, else the first key equal ignoring case. */
  function Lookup(record: Record, term: string): Option<Value> {
    if term in Keys(record) then Get(record, term)
    else
      var i := CaseIndex(record, term);
      if i < |record| then Some(record[i].value) else None
  }

  /** A term finds a value exactly when some key equals it ignoring case. */
  lemma LookupSpec(record: Record, term: string)
    ensures Lookup(record, term).Some? <==>
      exists i :: 0 <= i < |record| && Lower(record[i].key) == Lower(term)
    ensures term in Keys(record) ==> Lookup(record, term) == Get(record, term)
  {
    GetSpec(record, term);
    if term in Keys(record) {
      var i :| 0 <= i < |record| && Keys(record)[i] == term;
      assert Lower(record[i].key) == Lower(term);
    }
  }

  /** `filtered_record`: every term that finds a value, stored under the term's own spelling. */
  function FilterRecord(record: Record, terms: seq<string>): Record {
    if |terms| == 0 then []
    else
      var acc := FilterRecord(record, terms[..|terms| - 1]);
      var t := terms[|terms| - 1];
      match Lookup(record, t)
      case Some(v) => Assign(acc, t, v)
      case None => acc
  }

  /**
    A filtered record holds exactly the terms that find a value, each with
    that value, and no other key, and no key twice.
   */
  lemma {:induction false} FilterRecordSpec(record: Record, terms: seq<string>)
    ensures forall k ::
      Get(FilterRecord(record, terms), k) == if k in terms then Lookup(record, k) else None
    ensures DistinctKeys(FilterRecord(record, terms))
    decreases |terms|
  {
    if |terms| > 0 {
      var init, t := terms[..|terms| - 1], terms[|terms| - 1];
      assert terms == init + [t];
      FilterRecordSpec(record, init);
      var acc := FilterRecord(record, init);
      if Lookup(record, t).Some? {
        forall k
          ensures Get(FilterRecord(record, terms), k) == if k in terms then Lookup(record, k) else None
        {
          AssignGet(acc, t, Lookup(record, t).value, k);
        }
        AssignDistinct(acc, t, Lookup(record, t).value);
      }
    }
  }

  /** Assigning keeps the keys distinct. */
  lemma AssignDistinct(r: Record, k: string, v: Value)
    requires DistinctKeys(r)
    ensures DistinctKeys(Assign(r, k, v))
  {
    AssignKeys(r, k, v);
  }

  /** A filtered record is empty exactly when no term finds a value; only then is it dropped. */
  lemma FilterRecordEmpty(record: Record, terms: seq<string>)
    ensures |FilterRecord(record, terms)| == 0 <==>
      forall t :: t in terms ==> Lookup(record, t).None?
  {
    FilterRecordSpec(record, terms);
    var f := FilterRecord(record, terms);
    if |f| > 0 {
      GetSpec(f, f[0].key);
      assert f[0].key in Keys(f);
    }
    forall t | t in terms && Lookup(record, t).Some?
      ensures |f| > 0
    {
      assert Get(f, t).Some?;
    }
  }

  /** The non-empty filtered records, in the order of their records. */
  function Kept(records: seq<Record>, terms: seq<string>): seq<Record> {
    if |records| == 0 then []
    else
      var f := FilterRecord(records[0], terms);
      (if |f| > 0 then [f] else []) + Kept(records[1..], terms)
  }

  /** Keeping works record by record, so order is preserved and nothing empty is kept. */
  lemma {:induction false} KeptSpec(a: seq<Record>, b: seq<Record>, terms: seq<string>)
    ensures Kept(a + b, terms) == Kept(a, terms) + Kept(b, terms)
    ensures |Kept(a, terms)| <= |a|
    ensures forall i :: 0 <= i < |Kept(a, terms)| ==> |Kept(a, terms)[i]| > 0
    decreases |a|
  {
    if |a| > 0 {
      assert (a + b)[1..] == a[1..] + b;
      KeptSpec(a[1..], b, terms);
    } else {
      assert a + b == b;
    }
  }

  /**
    Rule filtering in `extract_from_pdf_text`: skipped without rules,
    records or terms; otherwise the non-empty filtered records, unless there
    are none, in which case the records are kept as they were.
   */
  function ApplyRules(rules: seq<ExtractionRule>, records: seq<Record>): seq<Record> {
    var terms := Extraction.Terms(rules);
    if |rules| == 0 || |records| == 0 || |terms| == 0 then records
    else
      var kept := Kept(records, terms);
      if |kept| == 0 then records else kept
  }

  /**
    Filtering never turns records into none, leaves them alone without rules
    or terms, and otherwise either keeps them all as they were or yields only
    non-empty records, one per record that some term matched.
   */
  lemma ApplyRulesSpec(rules: seq<ExtractionRule>, records: seq<Record>)
    ensures |ApplyRules(rules, records)| == 0 <==> |records| == 0
    ensures |rules| == 0 || |Extraction.Terms(rules)| == 0 ==> ApplyRules(rules, records) == records
    ensures ApplyRules(rules, records) == records ||
      (ApplyRules(rules, records) == Kept(records, Extraction.Terms(rules)) &&
       forall i :: 0 <= i < |ApplyRules(rules, records)| ==> |ApplyRules(rules, records)[i]| > 0)
    ensures |ApplyRules(rules, records)| <= |records|
  {
    KeptSpec(records, [], Extraction.Terms(rules));
  }

  /** `75.0 if extracted_data else 0.0`. */
  function Confidence(records: seq<Record>): real {
    if |records| > 0 then 75.0 else 0.0
  }

  /**
    What reading the PDF gave: a failure reply's message (no text, the PDF
    library missing, or an exception), or the records mined from the text.
   */
  datatype PdfReading = Unreadable(message: string) | Mined(records: seq<Record>)

  datatype LocalReply = LocalReply(status: nat, success: bool, message: string, data: seq<Record>, confidence: real)

  function PdfExtraction(reading: PdfReading, rules: seq<ExtractionRule>): LocalReply {
    match reading
    case Unreadable(m) => LocalReply(200, false, m, [], 0.0)
    case Mined(records) =>
      var data := ApplyRules(rules, records);
      LocalReply(200, true, "Successfully extracted " + NatToString(|data|) + " records from PDF text analysis",
                 data, Confidence(data))
  }

  /** `document_name.lower().split('.')[-1] if '.' in document_name else 'unknown'`. */
  function Extension(name: string): string {
    if '.' in name then Last(Split(Lower(name), '.')) else "unknown"
  }

  lemma LowerKeepsDots(s: string)
    ensures '.' in s <==> '.' in Lower(s)
  {
    if '.' in Lower(s) {
      var i :| 0 <= i < |s| && Lower(s)[i] == '.';
      assert s[i] == '.';
    }
    if '.' in s {
      var i :| 0 <= i < |s| && s[i] == '.';
      assert Lower(s)[i] == '.';
    }
  }

  /**
    A name without a dot has extension "unknown"; otherwise the extension is
    the lower-cased text after the last dot, which holds no dot itself.
   */
  lemma ExtensionSpec(name: string)
    ensures '.' !in name ==> Extension(name) == "unknown"
    ensures '.' in name ==>
      Extension(name) == AfterLast(Lower(name), '.') && TailAfter(Lower(name), '.', Extension(name))
  {
    if '.' in name {
      LowerKeepsDots(name);
      LastPiece(Lower(name));
    }
  }

  /** `e` is the end of `s` after a `c`, and holds no `c`: the text after the last `c`. */
  predicate TailAfter(s: string, c: char, e: string) {
    |e| < |s| && s[|s| - |e| - 1] == c && s[|s| - |e|..] == e && c !in e
  }

  /** The last piece after splitting on dots is the dot-free text after the last dot. */
  lemma LastPiece(low: string)
    requires '.' in low
    ensures Last(Split(low, '.')) == AfterLast(low, '.') && TailAfter(low, '.', Last(Split(low, '.')))
  {
    SplitLast(low, '.');
    AfterLastSpec(low, '.');
  }

  /**
    `extract_endpoint`: a missing URL is refused with 400, a failed download
    answered with 500, a non-PDF name with a failure reply, and a PDF read
    and filtered. `documentName` is None when the request gives none.
   */
  function ExtractEndpoint(documentUrl: string, documentName: Option<string>, download: Result<(), string>,
                           reading: PdfReading, rules: seq<ExtractionRule>): LocalReply {
    if |documentUrl| == 0 then LocalReply(400, false, "No document URL provided", [], 0.0)
    else if download.Failure? then LocalReply(500, false, "Extraction failed: " + download.error, [], 0.0)
    else
      var ext := Extension(documentName.GetOr("Unknown Document"));
      if ext == "pdf" then PdfExtraction(reading, rules)
      else LocalReply(200, false, "Unsupported file type: " + ext + ". Only PDF is supported in this local version.", [], 0.0)
  }

  /**
    Only a PDF with a URL, a successful download and readable text succeeds,
    and its confidence is 75 exactly when records remain. A missing URL is
    the only 400, and without a name the type is "unknown", so it fails.
   */
  lemma ExtractEndpointSpec(documentUrl: string, documentName: Option<string>, download: Result<(), string>,
                            reading: PdfReading, rules: seq<ExtractionRule>)
    ensures var r := ExtractEndpoint(documentUrl, documentName, download, reading, rules);
      (r.status == 400 <==> |documentUrl| == 0) &&
      (r.status == 400 ==> !r.success && r.data == []) &&
      (r.success <==>
        |documentUrl| > 0 && download.Success? &&
        Extension(documentName.GetOr("Unknown Document")) == "pdf" && reading.Mined?) &&
      (r.success ==>
        r.data == ApplyRules(rules, reading.records) &&
        (r.confidence == 75.0 <==> |reading.records| > 0)) &&
      (documentName.None? ==> !r.success)
  {
    var r := ExtractEndpoint(documentUrl, documentName, download, reading, rules);
    if r.success {
      ApplyRulesSpec(rules, reading.records);
    }
    if documentName.None? {
      DefaultExtension();
    }
  }

  /** The default name has no dot, so its type is "unknown". */
  lemma DefaultExtension()
    ensures Extension("Unknown Document") == "unknown"
  {
    var name := "Unknown Document";
    forall i | 0 <= i < |name|
      ensures name[i] != '.'
    {
    }
  }
}
