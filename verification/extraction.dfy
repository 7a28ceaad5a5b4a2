/**
  The two `extractDocument` controllers: validation of the request, the
  deduplicated union of the linked extraction rules' terms, and the
  projection of every sheet row onto exactly those terms. The current
  controller downloads the sheet from the document's URL; the older one
  reads a bundled workbook and has no URL check. Downloading, workbook
  parsing and saving are one parameter, the rows or the error thrown.
 */
module Extraction {
  import opened Wrappers
  import opened Seqs
  import opened Values

  /** A stored extraction rule; its `terms` list may be missing. */
  datatype ExtractionRule = ExtractionRule(id: string, terms: Option<seq<string>>)

  /** A stored document: an empty `documentUrl` stands for a missing one. */
  datatype StoredDocument = StoredDocument(id: string, documentUrl: string, extractionRule: seq<string>)

  /** The JSON reply; `success` is absent on some error replies. */
  datatype Reply = Reply(status: nat, success: Option<bool>, message: string, terms: seq<string>, data: seq<Record>)

  function ErrorReply(status: nat, success: Option<bool>, message: string): Reply {
    Reply(status, success, message, [], [])
  }

  /** `Document.findById` on the stored documents. */
  function FindDocument(docs: seq<StoredDocument>, id: string): Option<StoredDocument> {
    FindById(docs, (d: StoredDocument) => d.id, id)
  }

  /** `ExtractionRule.find({ _id: { $in: ids } })`: the stored rules asked for, in store order. */
  function LinkedRules(store: seq<ExtractionRule>, ids: seq<string>): (rs: seq<ExtractionRule>)
    ensures forall r :: r in rs <==> r in store && r.id in ids
    ensures |ids| == 0 ==> rs == []
  {
    if |store| == 0 then []
    else (if store[0].id in ids then [store[0]] else []) + LinkedRules(store[1..], ids)
  }

  function TermLists(rules: seq<ExtractionRule>): seq<seq<string>> {
    seq(|rules|, i requires 0 <= i < |rules| => rules[i].terms.GetOr([]))
  }

  /** `[...new Set(rules.flatMap(rule => rule.terms || []))]`. */
  function Terms(rules: seq<ExtractionRule>): seq<string> {
    Dedupe(Flatten(TermLists(rules)))
  }

  /**
    The terms repeat nothing, hold exactly the terms of the rules, and keep
    first-occurrence order: a later rule only adds the terms not seen before.
   */
  lemma TermsSpec(a: seq<ExtractionRule>, b: seq<ExtractionRule>)
    ensures Distinct(Terms(a))
    ensures forall t :: t in Terms(a) <==>
      exists i :: 0 <= i < |a| && a[i].terms.Some? && t in a[i].terms.value
    ensures Terms(a + b) == Terms(a) + Dedupe(Except(Flatten(TermLists(b)), Elements(Flatten(TermLists(a)))))
  {
    var fa := Flatten(TermLists(a));
    DedupeSpec(fa);
    FlattenSpec(TermLists(a));
    forall t | t in Terms(a)
      ensures exists i :: 0 <= i < |a| && a[i].terms.Some? && t in a[i].terms.value
    {
      var i :| 0 <= i < |TermLists(a)| && t in TermLists(a)[i];
      assert a[i].terms.Some? && t in a[i].terms.value;
    }
    forall t, i | 0 <= i < |a| && a[i].terms.Some? && t in a[i].terms.value
      ensures t in Terms(a)
    {
      assert t in TermLists(a)[i];
    }
    assert TermLists(a + b) == TermLists(a) + TermLists(b);
    FlattenAppend(TermLists(a), TermLists(b));
    DedupeAppend(fa, Flatten(TermLists(b)));
  }

  /** `row[term] || ""`. */
  function Cell(row: Record, term: string): Value {
    if Truthy(Get(row, term)) then Get(row, term).value else Str("")
  }

  /** The loop that fills `filtered[term]` for every term in order. */
  function Project(row: Record, terms: seq<string>): Record {
    if |terms| == 0 then []
    else Assign(Project(row, terms[..|terms| - 1]), terms[|terms| - 1], Cell(row, terms[|terms| - 1]))
  }

  /**
    A projected row has one key per distinct term, in first-occurrence order,
    and nothing else; each holds the row's value when that is truthy and ""
    otherwise (so 0, false, null and a missing column all become "").
   */
  lemma {:induction false} ProjectSpec(row: Record, terms: seq<string>)
    ensures Keys(Project(row, terms)) == Dedupe(terms)
    ensures forall k ::
      Get(Project(row, terms), k) == if k in terms then Some(Cell(row, k)) else None
    decreases |terms|
  {
    if |terms| > 0 {
      var init, t := terms[..|terms| - 1], terms[|terms| - 1];
      assert terms == init + [t];
      ProjectSpec(row, init);
      var p := Project(row, init);
      AssignKeys(p, t, Cell(row, t));
      DedupeSnoc(init, t);
      forall k
        ensures Get(Project(row, terms), k) == if k in terms then Some(Cell(row, k)) else None
      {
        AssignGet(p, t, Cell(row, t), k);
      }
    }
  }

  /** With distinct terms, the keys are exactly the terms in order, and only a truthy value survives. */
  lemma ProjectDistinct(row: Record, terms: seq<string>, k: string)
    requires Distinct(terms)
    ensures Keys(Project(row, terms)) == terms
    ensures k in terms && !Truthy(Get(row, k)) ==> Get(Project(row, terms), k) == Some(Str(""))
    ensures k in terms && Truthy(Get(row, k)) ==> Get(Project(row, terms), k) == Get(row, k)
  {
    ProjectSpec(row, terms);
    DedupeOfDistinct(terms);
  }

  function ProjectAll(rows: seq<Record>, terms: seq<string>): (data: seq<Record>) {
    seq(|rows|, i requires 0 <= i < |rows| => Project(rows[i], terms))
  }

  function Extracted(terms: seq<string>, rows: seq<Record>, message: string): Reply {
    Reply(200, Some(true), message, terms, ProjectAll(rows, terms))
  }

  /**
    The current `extractDocument`. `load` is the download, workbook parse and
    save: the sheet's rows, or the `status` carried by the thrown error (0
    when it carries none).
   */
  function ExtractDocument(documentId: string, docs: seq<StoredDocument>, store: seq<ExtractionRule>,
                           load: Result<seq<Record>, nat>): Reply {
    if |documentId| == 0 then ErrorReply(400, None, "Document ID is required")
    else match FindDocument(docs, documentId)
      case None => ErrorReply(404, None, "Document not found")
      case Some(doc) =>
        if |doc.documentUrl| == 0 then ErrorReply(400, None, "Document URL missing")
        else
          var terms := Terms(LinkedRules(store, doc.extractionRule));
          if |terms| == 0 then ErrorReply(400, None, "No extraction terms found for this document.")
          else match load
            case Failure(status) =>
              ErrorReply(if status > 0 then status else 500, Some(false), "Server error during extraction")
            case Success(rows) => Extracted(terms, rows, "Data extracted successfully from document URL")
  }

  /**
    The older `extractDocument`: no URL check, `success: false` on the
    empty-terms reply, and every thrown error answered with 500.
   */
  function ExtractDocumentBundled(documentId: string, docs: seq<StoredDocument>, store: seq<ExtractionRule>,
                                  load: Result<seq<Record>, nat>): Reply {
    if |documentId| == 0 then ErrorReply(400, None, "Document ID is required")
    else match FindDocument(docs, documentId)
      case None => ErrorReply(404, None, "Document not found")
      case Some(doc) =>
        var terms := Terms(LinkedRules(store, doc.extractionRule));
        if |terms| == 0 then ErrorReply(400, Some(false), "No extraction terms found for this document.")
        else match load
          case Failure(_) => ErrorReply(500, Some(false), "Server error during extraction")
          case Success(rows) => Extracted(terms, rows, "Data extracted successfully using extraction rules (Gemini skipped)")
  }

  /** The document's terms, when the document exists. */
  function DocTerms(documentId: string, docs: seq<StoredDocument>, store: seq<ExtractionRule>): seq<string> {
    match FindDocument(docs, documentId)
    case None => []
    case Some(doc) => Terms(LinkedRules(store, doc.extractionRule))
  }

  /**
    The current controller's outcomes: a missing id is 400, an unknown
    document 404, a document without URL or terms 400 before anything is
    loaded; success exactly when all checks pass and the load succeeds, and
    then one projected row per sheet row, each keyed by exactly the terms.
   */
  lemma ExtractDocumentSpec(documentId: string, docs: seq<StoredDocument>, store: seq<ExtractionRule>,
                            load: Result<seq<Record>, nat>, i: nat)
    ensures var r := ExtractDocument(documentId, docs, store, load);
      (|documentId| == 0 ==> r.status == 400) &&
      (|documentId| > 0 && FindDocument(docs, documentId).None? ==> r.status == 404) &&
      (FindDocument(docs, documentId).Some? && |FindDocument(docs, documentId).value.documentUrl| == 0 ==>
        r.status == 400) &&
      (|DocTerms(documentId, docs, store)| == 0 ==> r.status in {400, 404}) &&
      (r.success == Some(true) <==>
        |documentId| > 0 && FindDocument(docs, documentId).Some? &&
        |FindDocument(docs, documentId).value.documentUrl| > 0 &&
        |DocTerms(documentId, docs, store)| > 0 && load.Success?)
    ensures var r := ExtractDocument(documentId, docs, store, load);
      r.success == Some(true) ==>
        r.status == 200 && r.terms == DocTerms(documentId, docs, store) && Distinct(r.terms) &&
        |r.data| == |load.value| &&
        (i < |r.data| ==> Keys(r.data[i]) == r.terms)
  {
    var r := ExtractDocument(documentId, docs, store, load);
    if r.success == Some(true) {
      var doc := FindDocument(docs, documentId).value;
      TermsSpec(LinkedRules(store, doc.extractionRule), []);
      if i < |r.data| {
        ProjectDistinct(load.value[i], r.terms, "");
      }
    }
  }

  /**
    The older controller differs only in what it checks: it never rejects a
    missing URL, and its empty-terms reply says `success: false`.
   */
  lemma ExtractDocumentBundledSpec(documentId: string, docs: seq<StoredDocument>, store: seq<ExtractionRule>,
                                   load: Result<seq<Record>, nat>)
    ensures var r := ExtractDocumentBundled(documentId, docs, store, load);
      (|documentId| == 0 ==> r.status == 400) &&
      (|documentId| > 0 && FindDocument(docs, documentId).None? ==> r.status == 404) &&
      (|documentId| > 0 && FindDocument(docs, documentId).Some? && |DocTerms(documentId, docs, store)| == 0 ==>
        r.status == 400 && r.success == Some(false)) &&
      (load.Failure? && r.status != 400 && r.status != 404 ==> r.status == 500) &&
      (r.status == 200 <==>
        |documentId| > 0 && FindDocument(docs, documentId).Some? &&
        |DocTerms(documentId, docs, store)| > 0 && load.Success?)
  {
  }

  /**
    On the same rows, the two controllers produce the same terms and the same
    projected data whenever both succeed, and the older one succeeds whenever
    the current one does.
   */
  lemma ControllersAgree(documentId: string, docs: seq<StoredDocument>, store: seq<ExtractionRule>,
                         rows: seq<Record>)
    ensures ExtractDocument(documentId, docs, store, Success(rows)).success == Some(true) ==>
      var r := ExtractDocument(documentId, docs, store, Success(rows));
      var b := ExtractDocumentBundled(documentId, docs, store, Success(rows));
      b.status == 200 && b.terms == r.terms && b.data == r.data
  {
    if |documentId| > 0 && FindDocument(docs, documentId).Some? {
      var doc := FindDocument(docs, documentId).value;
      var terms := Terms(LinkedRules(store, doc.extractionRule));
      if |doc.documentUrl| > 0 && |terms| > 0 {
        assert ExtractDocumentBundled(documentId, docs, store, Success(rows)).data == ProjectAll(rows, terms);
      }
    }
  }
}
