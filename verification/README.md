# Financial document reconciliation, modelled in Dafny

This project models the reconciliation core of a web application. The
application pairs the transactions of two uploaded documents, a left one
(sales, say) and a right one (payments), and reports which pairs reconcile.
It also models how the application gets those transactions out of Excel and
PDF files, and the client-side steps that build the rules used for both.

The modules follow the program's own structure.

- `RuleMatcher` covers the deterministic matcher behind `POST /reconcile`
  (`server/src/controllers/profilesController.ts`). Each left row takes the
  first right row that no earlier left row consumed and whose values agree on
  every term pair of the selected matching rules. Without rules, amounts
  within 0.01 qualify instead. Unconsumed right rows are appended.
- `Heuristic` covers the confidence-scored matcher of the agent service
  (`enhancedFallbackReconciliation` in `server/src/services/agentCoreService.ts`).
  Its five weighted steps are rule pairs, amount, date, description and
  reference id. A left row keeps the best unconsumed candidate scoring above
  50, and consumes it at 80 or more. Confidence is capped at 100, and the
  summary is computed from the report.
- `Agent` covers the scorer the hosted agent runs (`agentcore-reconciliation-agent/agent.py`).
  It has fixed base cases for amount and Rest ID, bonuses for month,
  description and type, the first strict maximum of at least 30, and
  Python's exceptions as error results.
- `AgentResponse` covers how the service shapes the agent's reply. It finds
  the first balanced `{…}` object in the trimmed reply, but cuts it out of
  the reply as received at the same positions (see "## Findings"); the
  model keeps that cut, and states the intended one beside it. A blank or
  unparseable reply, or one without results or analysis, becomes an empty,
  zeroed response. `performReconciliation` never falls back to another
  matcher.
- `Gemini` covers `reconcileWithGemini`. It strips code fences, takes the
  outermost `[…]` payload and parses an array, and reports failures with
  the service's message prefix.
- `Extraction` covers both `extractDocument` controllers, the current one
  and the older bundled one. They gather the linked rules' terms, drop
  repeats, and project every sheet row onto them.
- `LocalAgent` covers the local `/extract` endpoint. It checks the URL and
  the file type, then filters the mined PDF records by the rules' terms
  ignoring case.
- `Excel` covers the agent service's Excel path: document-type detection
  from the file name, sheet choice, row-to-record conversion with row and
  sheet metadata, and the extension check of `performExtraction`.
- `ExtractionStage`, `MatchingStage`, `ProfileWizard`, `ReconcileScreen`
  and `UsersSlice` cover the client. These are the rule-building steps of
  the profile wizard, the wizard's stage navigation, the reconcile screen's
  tables, tabs and counters, and the user store's reducer.
- `Values`, `Text`, `Seqs`, `Summaries` and `Wrappers` hold the shared
  vocabulary:
  - records as ordered key/value lists, with JavaScript and Python truthiness;
  - ASCII text helpers and a decimal parser;
  - sequence helpers;
  - the summary block of a report;
  - `Option` and `Result`.

Some things the program does not compute itself become parameters of the
model: number-to-text formatting (`numText` for JavaScript, `pyNumText` for
Python), date parsing (`dayOf`), `JSON.parse` (`parse`), downloads, database
lookups, and what the remote agents answer.

Some behaviours of the code worth noting, all of which the model keeps:

- the service never falls back to the heuristic matcher when the agent
  fails; it returns an empty, zeroed response;
- the heuristic keeps a candidate only when its score is strictly above 50;
- a candidate scoring from 51 to 79 is reported but leaves its right row
  available to later left rows;
- the agent-side scorer does not cap its confidence, which can reach 155;
- the agent-side scorer never consumes a right record, so every right
  record is listed again as unmatched;
- the deterministic matcher is first-fit, not best-fit.

## Model

| member | source | states |
|---|---|---|
| RuleMatcher.AllPairs | server/src/controllers/profilesController.ts:230-231 | every term pair of every selected rule is checked |
| RuleMatcher.CheckPairsSpec | server/src/controllers/profilesController.ts:229-250 | the pair check succeeds exactly when every pair's two values agree after normalisation; then the matched fields are the pair labels in order |
| RuleMatcher.QualifyMeans | server/src/controllers/profilesController.ts:229-264 | a candidate is accepted exactly when it qualifies: with rules, there is at least one pair and all pairs agree; without rules, both amounts exist and are within 0.01 |
| RuleMatcher.EmptyRulesNeverMatch | server/src/controllers/profilesController.ts:264 | selected rules that hold no pairs accept no candidate at all |
| RuleMatcher.FirstFitFrom | server/src/controllers/profilesController.ts:222-270 | the pick is the lowest unconsumed qualifying index; none only when no unconsumed row qualifies |
| RuleMatcher.Picks | server/src/controllers/profilesController.ts:217-271 | one pick per left row, never a consumed index, and no right row picked twice |
| RuleMatcher.PicksAreFirstFit | server/src/controllers/profilesController.ts:222-270 | each left row's pick is the first fit against exactly the rows the earlier left rows consumed |
| RuleMatcher.PickSetSize | server/src/controllers/profilesController.ts:268 | the consumed set grows by one per matched left row |
| RuleMatcher.Leftover | server/src/controllers/profilesController.ts:282-291 | the appended right rows are exactly the unconsumed indices, each once, in increasing order |
| RuleMatcher.Report | server/src/controllers/profilesController.ts:273-291 | left rows come first, reconciled exactly when they have a pick and then showing it; then each unconsumed right row with an empty left side, unreconciled |
| RuleMatcher.ReconcileSpec | server/src/controllers/profilesController.ts:217-291 | the report has one row per left row plus one per unconsumed right row; a reconciled row's right side qualifies for its left side |
| RuleMatcher.ReconcileFirstFit | server/src/controllers/profilesController.ts:222-270 | no earlier-indexed right row that is still free qualifies for a matched left row; an unmatched left row has no free qualifying row |
| RuleMatcher.SelectRules | server/src/controllers/profilesController.ts:202-204 | the selected rules are exactly the stored rules whose id was requested |
| RuleMatcher.SelectNoRules | server/src/controllers/profilesController.ts:202-204 | an empty id list selects no rules, so the amount fallback applies |
| RuleMatcher.ReconcileDocuments | server/src/controllers/profilesController.ts:178-306 | 400 exactly when there are not two document ids; 404 exactly when either document is missing; 500 exactly when both are found but `matchingRuleIds` is absent, so every other request succeeds; a success is the report over the two documents' rows with the selected rules |
| Heuristic.JaccardSpec | server/src/services/agentCoreService.ts:972-984 | Jaccard similarity lies in [0, 1], is symmetric, and is 1 exactly for equal sets, two empty sets included |
| Heuristic.SimilaritySpec | server/src/services/agentCoreService.ts:972-984 | text similarity lies in [0, 1], is symmetric, and is 1 exactly when both texts have the same words longer than two characters |
| Heuristic.StepWeights | server/src/services/agentCoreService.ts:831-909 | each step adds only its own weights: amount 0/20/30, date 0/10/15/20, description 0/10/15, reference 0/25, each rule pair 0/15/25 |
| Heuristic.AmountRatioEdges | server/src/services/agentCoreService.ts:852-866 | amounts within 0.01 score 30; otherwise the ratio test makes a pair whose larger amount is negative score 20 and a pair whose larger amount is 0 score nothing, and a positive pair scores 20 exactly when the gap is under 1% of the larger amount |
| Heuristic.RulesScoreBounds | server/src/services/agentCoreService.ts:831-850 | the rule pairs together add between 0 and 25 per pair |
| Heuristic.ScoreBounds | server/src/services/agentCoreService.ts:831-909 | a raw score is never negative and is at most 90 plus 25 per rule pair, so it can exceed 100 |
| Heuristic.AmountAndReferenceClear | server/src/services/agentCoreService.ts:852-912 | an exact amount together with an equal reference id clears the threshold of 50, whatever the other steps give |
| Heuristic.BestUpTo | server/src/services/agentCoreService.ts:911-919 | the kept candidate is unconsumed and scores above 50; no unconsumed row scores more; every earlier unconsumed row scores strictly less; none only when all score at most 50 |
| Heuristic.ChoicesAreBest | server/src/services/agentCoreService.ts:814-926 | each left row's choice is the best among the rows that the rows before it left free, and the row is reconciled exactly when that choice is consumed |
| Heuristic.ConsumedSize | server/src/services/agentCoreService.ts:922-926 | consumption only adds fresh in-range indices, exactly one per reconciled left row |
| Heuristic.ConsumedAppend | server/src/services/agentCoreService.ts:814-926 | the consumed set after a run of left rows is the consumed set after its first part, carried through the rest |
| Heuristic.ConsumedSnoc | server/src/services/agentCoreService.ts:814-926 | the consumed set after left row i is one more turn of the loop on the set before it |
| Heuristic.NoRightRowTwice | server/src/services/agentCoreService.ts:814-926 | a right row consumed by a reconciled left row is never the kept candidate of any later left row |
| Heuristic.ConsumedOneToOne | server/src/services/agentCoreService.ts:814-926 | no two reconciled left rows hold the same right row |
| Heuristic.RightRowsSize | server/src/services/agentCoreService.ts:939-952 | one unmatched row is appended per right row not consumed |
| Heuristic.ReportSize | server/src/services/agentCoreService.ts:814-952 | the report has one row per left row and right row, less one per reconciled left row |
| Heuristic.ReportLeftRow | server/src/services/agentCoreService.ts:922-936 | left row i is reported in place, reconciled exactly when it consumed its candidate; confidence is the capped score or 0; a kept candidate has confidence above 50 and banded reasoning; no candidate means no-suitable-match |
| Heuristic.ReportRightRow | server/src/services/agentCoreService.ts:939-952 | rows after the left rows are the unconsumed right rows, each once and in increasing index order: empty left side, not reconciled, confidence 0 |
| Heuristic.ReportBest | server/src/services/agentCoreService.ts:822-926 | for any scoring, left row i shows the first highest-scoring right row above 50 among those the earlier rows left free, or none when every free row scores at most 50 |
| Heuristic.ReconcileBest | server/src/services/agentCoreService.ts:822-919 | the same choice holds for the service's own five-step score |
| Heuristic.SummaryOf | server/src/services/agentCoreService.ts:954-968 | the total counts every row; reconciled and unreconciled add up to it; reconciled counts the rows flagged so |
| Heuristic.ReportSummary | server/src/services/agentCoreService.ts:954-968 | the summary counts one reconciled row per consumed right row, its total is the row count of both documents less that number, and its mean confidence lies in [0, 100] |
| Heuristic.ReportReconciledCount | server/src/services/agentCoreService.ts:954-966 | only left rows are ever reconciled, so the reconciled count equals the number of consumed right rows |
| Heuristic.ReportConfidence | server/src/services/agentCoreService.ts:933-967 | every reported confidence, and therefore their mean, lies in [0, 100] |
| Agent.AmountOf | agentcore-reconciliation-agent/agent.py:85 | a falsy amount reads as 0, a number is kept, `True` reads as 1, and a text amount reads as its decimal value after stripping, or raises `ValueError` when it is not one |
| Agent.StoreNumber | agentcore-reconciliation-agent/agent.py:121-123 | a found store number is a non-empty run of digits that follows a '#' in the description; none is found only when no '#' is followed by a digit |
| Agent.StoreNumberFirst | agentcore-reconciliation-agent/agent.py:121-123 | the store number is read at the first '#' followed by a digit and is the whole digit run after it; there is none exactly when no '#' is followed by a digit |
| Agent.RatioAtMostMeans | agentcore-reconciliation-agent/agent.py:152-155 | the division-free amount test is equivalent to the relative difference being at most the threshold |
| Agent.BaseCases | agentcore-reconciliation-agent/agent.py:145-166 | exact amount and Rest ID score 100; Rest ID alone scores 90 or 75 depending on the 5% ratio; exact amount alone scores 70 |
| Agent.BaseBounds | agentcore-reconciliation-agent/agent.py:168-223 | the additive case stays within [0, 80], so every base score lies in [0, 100] |
| Agent.BonusBounds | agentcore-reconciliation-agent/agent.py:225-249 | the month, description and type bonuses are never negative and at most 20, 25 and 10 |
| Agent.ScoreParts | agentcore-reconciliation-agent/agent.py:131-249 | a score is its base plus at most 55 of bonuses, a month match adds 20, and every score lies in [0, 155] |
| Agent.ScoreAll | agentcore-reconciliation-agent/agent.py:94-100 | the inner loop either scores every right record in order or fails because some record raises |
| Agent.BestUpTo | agentcore-reconciliation-agent/agent.py:251-259 | the best index has a positive score, no record scores more, and every earlier record scores strictly less; none only when no score is positive |
| Agent.Entries | agentcore-reconciliation-agent/agent.py:79-83 | the first pass gives each left record its own entry in order, or fails because some entry raises |
| Agent.EmptyInputs | agentcore-reconciliation-agent/agent.py:326-341 | two empty documents give no results and a zero summary |
| Agent.ReconcileFails | agentcore-reconciliation-agent/agent.py:79-100 | the call fails exactly when some left record's entry raises |
| Agent.ReconcileShape | agentcore-reconciliation-agent/agent.py:79-324 | on success there is one entry per left record tagged left-i, then one unmatched entry per right record tagged right-j |
| Agent.LeftResultTag | agentcore-reconciliation-agent/agent.py:80-83 | a left entry carries its record tagged with its position |
| Agent.LeftResultSpec | agentcore-reconciliation-agent/agent.py:261-301 | a left entry shows the first strictly best right record when it scores at least 30, is reconciled exactly at 50 or more and carries the uncapped score; otherwise it has no right side and confidence 0 |
| Agent.LeftResultMatch | agentcore-reconciliation-agent/agent.py:262-288 | a shown right record is the first one with the greatest score, which is at least 30 |
| Agent.SummarySpec | agentcore-reconciliation-agent/agent.py:326-341 | the totals count all entries, reconciled and unreconciled add up, and the mean confidence lies in [0, 155] |
| Agent.SummaryCount | agentcore-reconciliation-agent/agent.py:326-341 | the reconciled count is the number of reconciled left entries, since the appended right entries are never reconciled |
| AgentResponse.ScanSpec | server/src/services/agentCoreService.ts:474-485 | a stopped scan has found the first point after the first '{' where the brace count returns to zero; a finished scan means there is none |
| AgentResponse.SpanSpec | server/src/services/agentCoreService.ts:467-485 | the cut starts at the first '{' and ends at the first balancing '}'; there is no cut exactly when no '}' balances |
| AgentResponse.JsonTextSpec | server/src/services/agentCoreService.ts:467-491 | the intended cut is the first balanced object of the trimmed reply, or the whole trimmed reply when there is none |
| AgentResponse.JsonTextWhole | server/src/services/agentCoreService.ts:467-491 | without a balancing '}' both cuts give the whole trimmed reply |
| AgentResponse.JsonTextAgrees | server/src/services/agentCoreService.ts:467-488 | for a reply that does not start with whitespace, the cut as written equals the intended one |
| AgentResponse.JsonTextShifted | server/src/services/agentCoreService.ts:467-488 | as written, the reply " {}" is cut to " {", where "{}" was meant |
| AgentResponse.TrimOffset | server/src/services/agentCoreService.ts:467 | the trimmed reply sits as many characters into the reply as it has leading whitespace, at least one when the reply starts with whitespace |
| AgentResponse.JsonTextShiftedBy | server/src/services/agentCoreService.ts:467-488 | as written, a reply with leading whitespace is cut that many characters before the object, so the object's closing '}' is never handed to the parser |
| AgentResponse.TransformSpec | server/src/services/agentCoreService.ts:463-575 | as written: a blank reply, or one whose as-written cut does not parse, gives the empty response; a non-empty response holds the results and summary parsed from the as-written cut |
| AgentResponse.TransformIntendedSpec | server/src/services/agentCoreService.ts:463-575 | the intended transformer's results are parsed from the first balanced object of the trimmed reply, and it agrees with the one as written on every reply without leading whitespace |
| AgentResponse.PerformReconciliationSpec | server/src/services/agentCoreService.ts:128-194 | an unconfigured service or a missing reply gives the empty response; any results are those parsed from the as-written cut of the agent's reply, never from another matcher |
| Gemini.RulePairsSpec | server/src/services/geminiReconcile.ts:28 | the prompt's pairs are every rule's pairs in turn; a rule without pairs adds none |
| Gemini.StripNoFence | server/src/services/geminiReconcile.ts:88 | removing fences leaves no triple backtick behind |
| Gemini.CleanSpec | server/src/services/geminiReconcile.ts:86-89 | the cleaned reply holds no fence and has no whitespace at its ends; a reply without backticks is just trimmed |
| Gemini.ArraySpanSpec | server/src/services/geminiReconcile.ts:92-95 | the payload runs from the first '[' to the last ']'; there is none exactly when no '[' comes before a ']' |
| Gemini.ReconcileWithGeminiSpec | server/src/services/geminiReconcile.ts:21-114 | every failure carries the prefix; a missing key fails; a reply without a payload fails as invalid JSON; a success is exactly the array parsed from the payload |
| Extraction.LinkedRules | server/src/controllers/extractionRulesController.ts:50-53 | the linked rules are exactly the stored rules the document names; none when it names none |
| Extraction.TermsSpec | server/src/controllers/extractionRulesController.ts:55 | the terms repeat nothing, are exactly the linked rules' terms, and keep first-seen order |
| Extraction.ProjectSpec | server/src/controllers/extractionRulesController.ts:81-87 | a projected row has one key per distinct term, and each term reads the row's value, or "" when that value is falsy |
| Extraction.ProjectDistinct | server/src/controllers/extractionRulesController.ts:81-87 | with distinct terms a projected row's keys are the terms in order |
| Extraction.ExtractDocumentSpec | server/src/controllers/extractionRulesController.ts:13-109 | no id gives 400, an unknown document 404, no URL or no terms 400; success exactly when every check passes and the load succeeds, giving one row per sheet row keyed by the terms |
| Extraction.ExtractDocumentBundledSpec | server/controllers/extractionRulesController.ts:8-101 | the older controller checks the same things except the URL; its empty-terms reply is a 400 with success false, and a failed load is a 500 |
| Extraction.ControllersAgree | server/controllers/extractionRulesController.ts:74-80 | whenever the current controller succeeds, the older one succeeds with the same terms and rows |
| LocalAgent.CaseIndex | agentcore-reconciliation-agent/local_agent.py:94-97 | the index found is the first key equal to the term ignoring case |
| LocalAgent.LookupSpec | agentcore-reconciliation-agent/local_agent.py:90-97 | a term finds a value exactly when some key equals it ignoring case, and its own spelling wins |
| LocalAgent.FilterRecordSpec | agentcore-reconciliation-agent/local_agent.py:86-97 | a filtered record holds exactly the terms that find a value, each with that value, and no key twice |
| LocalAgent.FilterRecordEmpty | agentcore-reconciliation-agent/local_agent.py:98-99 | a filtered record is empty, and so dropped, exactly when no term finds a value |
| LocalAgent.KeptSpec | agentcore-reconciliation-agent/local_agent.py:86-99 | filtering works record by record, keeps order and keeps nothing empty |
| LocalAgent.ApplyRulesSpec | agentcore-reconciliation-agent/local_agent.py:79-100 | filtering never turns records into none; without rules or terms it changes nothing; otherwise it keeps all records unchanged or only non-empty filtered ones |
| LocalAgent.ExtensionSpec | agentcore-reconciliation-agent/local_agent.py:314 | a name without a dot has type "unknown"; otherwise the type is the lower-cased text after the last dot |
| LocalAgent.ExtractEndpointSpec | agentcore-reconciliation-agent/local_agent.py:287-337 | a missing URL is the only 400; only a downloaded, readable PDF succeeds, giving the filtered records with confidence 75 when there are any; without a name the call fails |
| LocalAgent.DefaultExtension | agentcore-reconciliation-agent/local_agent.py:295 | the default document name has type "unknown" |
| Excel.FileExtensionSpec | server/src/services/agentCoreService.ts:62 | the extension is the lower-cased text after the last dot and holds no dot; a name without a dot gives itself lower-cased, where the local service says "unknown"; with a dot both services agree |
| Excel.DotlessExcel | server/src/services/agentCoreService.ts:62-63 | a bare name "xls" passes the Excel check although it has no dot, and the local service would call it "unknown" |
| Excel.DetectTypeSpec | server/src/services/agentCoreService.ts:645-675 | the priority matches the type and lies in 1..3, a better priority means a higher confidence, confidence is 60 exactly when no keyword matches, and letter case does not matter |
| Excel.MonthFirst | server/src/services/agentCoreService.ts:649-651 | a name mentioning "summary" is a monthly statement with confidence 90 and priority 1, whatever other keywords it holds |
| Excel.PriorityDefault | server/src/services/agentCoreService.ts:667-675 | the priority table gives 5 exactly to types it does not list, and every priority lies in 1..5 |
| Excel.FirstPosSheet | server/src/services/agentCoreService.ts:693-702 | the index found is the first sheet whose name holds a point-of-sale keyword |
| Excel.SelectSheetSpec | server/src/services/agentCoreService.ts:693-702 | a sheet is chosen exactly when there is one; the first matching sheet wins, else the first sheet |
| Excel.CellValueKept | server/src/services/agentCoreService.ts:739-753 | a kept cell is a number or a non-blank text with no whitespace at its ends other than "null"; missing, null and empty cells are dropped |
| Excel.RowRecordSpec | server/src/services/agentCoreService.ts:735-755 | each key of a row's record reads the last column with that header whose cell is kept; keys are distinct and every value is kept |
| Excel.BlankRow | server/src/services/agentCoreService.ts:757-758 | a row whose cells are all missing, null or empty gives no record |
| Excel.TagSpec | server/src/services/agentCoreService.ts:758-764 | a tagged record carries the spreadsheet row number (data index plus 2), the priority, the source and the sheet name, and otherwise reads as before |
| Excel.SourcesSpec | server/src/services/agentCoreService.ts:730-768 | the converted rows are exactly the data rows with a kept cell, in increasing order |
| Excel.ConvertSources | server/src/services/agentCoreService.ts:730-768 | each converted record is the tagged record of its source row, one per source row |
| Excel.ParseSheetSpec | server/src/services/agentCoreService.ts:711-772 | every record comes from a distinct data row in sheet order, numbered as in the spreadsheet, and reads that row's values |
| Excel.PerformExtractionSpec | server/src/services/agentCoreService.ts:59-107 | extraction succeeds exactly for an Excel name whose conversion succeeded, then returns its records; other names are refused whatever the conversion gives |
| ExtractionStage.PiecesMember | client/src/components/CreateProfileOverlay/ExtractionRulesStage.tsx:32-35 | a term is kept exactly when it is the non-blank trimmed form of some piece |
| ExtractionStage.NewTermsSpec | client/src/components/CreateProfileOverlay/ExtractionRulesStage.tsx:32-35 | typed terms are never blank, have no whitespace at their ends and hold no comma; input without a comma gives itself trimmed |
| ExtractionStage.AddTermSpec | client/src/components/CreateProfileOverlay/ExtractionRulesStage.tsx:29-49 | blank input changes nothing; otherwise the terms become the old and the typed ones, without repeats, old ones first, and the box is cleared |
| ExtractionStage.RemoveTermSpec | client/src/components/CreateProfileOverlay/ExtractionRulesStage.tsx:51-56 | removal deletes that term, keeps every other term, and changes nothing else |
| ExtractionStage.AddRemoveTerm | client/src/components/CreateProfileOverlay/ExtractionRulesStage.tsx:29-56 | adding a new term and removing it again gives back the previous terms |
| ExtractionStage.SaveRuleSpec | client/src/components/CreateProfileOverlay/ExtractionRulesStage.tsx:58-85 | a rule is saved exactly when the draft has a name and a term; it is appended unchanged, and the draft is reset |
| ExtractionStage.DeleteRuleSpec | client/src/components/CreateProfileOverlay/ExtractionRulesStage.tsx:87-90 | deletion removes every rule with that id and keeps every other rule |
| ExtractionStage.NextStepSpec | client/src/components/CreateProfileOverlay/ExtractionRulesStage.tsx:92-99 | document assignment opens only once a rule exists |
| ExtractionStage.AssignmentChangeSpec | client/src/components/CreateProfileOverlay/ExtractionRulesStage.tsx:101-118 | only the rule with that id changes, and only in its documents: ticking appends the document, unticking removes it and keeps the rest |
| ExtractionStage.AssignmentRoundTrip | client/src/components/CreateProfileOverlay/ExtractionRulesStage.tsx:101-118 | ticking a new document and unticking it again restores the rules |
| MatchingStage.AvailableTermsSpec | client/src/components/CreateProfileOverlay/MatchingRulesStage.tsx:19 | the offered terms are every extraction rule's terms in turn, with repeats kept |
| MatchingStage.UpdatePairSpec | client/src/components/CreateProfileOverlay/MatchingRulesStage.tsx:28-36 | an update sets one side of one pair and nothing else; the last update wins, and writing the current value changes nothing |
| MatchingStage.RemovePairSpec | client/src/components/CreateProfileOverlay/MatchingRulesStage.tsx:21-43 | removing the pair just added restores the list, and removal drops exactly one pair |
| MatchingStage.SaveRuleSpec | client/src/components/CreateProfileOverlay/MatchingRulesStage.tsx:45-72 | a rule is saved exactly when the draft has a name and a pair; it comes last with no document pairs, and the draft is reset |
| MatchingStage.FinishSpec | client/src/components/CreateProfileOverlay/MatchingRulesStage.tsx:74-78 | finishing hands on the rules exactly when one exists, and any save makes that so |
| ReconcileScreen.TransactionsSpec | client/src/components/Profile/ReconcileScreen.tsx:28-56 | every data-source row becomes one transaction with a positional id and the row's other values |
| ReconcileScreen.HeadersSpec | client/src/components/Profile/ReconcileScreen.tsx:59-71 | the headers are the first transaction's keys other than the id, and there are none without data |
| ReconcileScreen.WhereAppend | client/src/components/Profile/ReconcileScreen.tsx:108-117 | tab filtering works row by row and keeps order |
| ReconcileScreen.WhereSpec | client/src/components/Profile/ReconcileScreen.tsx:108-117 | a tab shows exactly the rows with its reconciliation flag, and the two tabs split the rows |
| ReconcileScreen.CountsSpec | client/src/components/Profile/ReconcileScreen.tsx:120-126 | the counters are the sizes of the three tabs, and reconciled plus unreconciled is the total |
| ReconcileScreen.ServerRows | client/src/components/Profile/ReconcileScreen.tsx:297-373 | on the server's report, appended right rows never show in the left table and are unreconciled, and an unreconciled left row never shows in the right table |
| UsersSlice.ReduceSpec | client/src/store/slices/usersSlice.ts:19-50 | each action changes only its own fields; profile statistics need a user, and clearing restores the initial state |
| UsersSlice.ReplaySpec | client/src/store/slices/usersSlice.ts:10-50 | a user is present only after one was stored; it keeps every field of the last one stored, and its two profile counters too unless a later statistics update replaced them |
| UsersSlice.LoadingCommutes | client/src/store/slices/usersSlice.ts:30-50 | setting loading and updating profile statistics commute |
| ProfileWizard.StepSpec | client/src/components/CreateProfileOverlay/CreateProfileOverlay.tsx:32-86 | next and back move one stage within range; clicking only goes back; sidebar stages stay sidebar stages |
| ProfileWizard.RunSpec | client/src/components/CreateProfileOverlay/CreateProfileOverlay.tsx:17-86 | the wizard always shows a sidebar stage, and never gets further ahead than its number of next steps |
| Values.FindById | server/src/controllers/profilesController.ts:190-200 | the document lookup both controllers use: a found document is a stored one with the requested id, and nothing is found only when no stored document has that id |
| Values.TaggedId | client/src/components/Profile/ReconcileScreen.tsx:34-37 | a tagged record's id is the record's own id when it has one, and the positional tag otherwise; every other key reads as in the record |
| Summaries.MeanBounds | server/src/services/agentCoreService.ts:954-968 | the mean confidence lies within any bounds every confidence lies within |

## Left out

- The calls to Amazon Bedrock, the Gemini SDK and the agent runtime, and the decoding of their streamed replies: what they answer is a parameter.
- `JSON.parse`, the XLSX workbook reader, PyPDF2 text extraction and the PDF pattern mining: their results are parameters.
- Downloads and MongoDB reads and writes: their outcomes are parameters. MongoDB's CastError on a malformed id is not modelled.
- Number-to-text formatting in JavaScript and Python, and date parsing: these are the parameters `numText`, `pyNumText` and `dayOf`.
- The Date branch of the Excel cell conversion: cells are modelled as text, numbers, booleans or null.
- Text-to-number conversion: it accepts plain decimal literals only. Exponents, hexadecimal, `Infinity` and underscores are not modelled.
- Case mapping and whitespace: ASCII only.
- The iteration order of the Python `set` of rule terms in `local_agent.py`: it is unspecified, and the model uses first-seen order. The lemmas about filtered records describe their contents by key, so they do not depend on this order.
- JavaScript's ordering of integer-like object keys.
- Message texts beyond their fixed prefixes; timestamps, ids made from the clock (given as parameters), metadata fields, the analysis text and logging.
- `fallbackExtraction`, and the outer exception handler of `performExtraction`.
- React rendering, toasts, alerts, and the wizard's `handleNext` and `updateData` hand-off.
- MatchingStage.UpdatePair: requires an existing index, because the form only offers existing pairs; JavaScript would extend the list for an index past its end.
- Null rule terms in `local_agent.py`: a rule's terms are a list.
- Floating point: JavaScript and Python numbers are modelled as exact reals, so decisions that hinge on rounding can differ from the program's. JavaScript's −0, `NaN` and infinities are not modelled.
- RuleMatcher.QualifyMeans: the 0.01 amount test is over exact reals; in JavaScript `Math.abs(0.03 - 0.02)` rounds below 0.01 and qualifies, where the model rejects it.
- Agent.BaseCases: the exact-amount and close-amount tests are over exact reals; in Python `abs(100.01 - 100)` rounds above 0.01, so the program and the model can choose different base cases at that boundary.
- Heuristic.AmountRatioEdges: a larger amount of −0 divides to −Infinity in JavaScript and scores 20; the model has no −0 and scores a zero maximum 0.
- Heuristic.JaccardSpec: a word's length is counted in characters, where JavaScript counts UTF-16 code units; words outside the Basic Multilingual Plane can be kept by the program and dropped by the model.
- The agent-side `matched_right_indices`: it is never filled, so the model lists every right record as unmatched without keeping the set.

## Findings

| source | as written | input that shows it | evidently intended | confidence | as-written member | corrected member |
|---|---|---|---|---|---|---|
| server/src/services/agentCoreService.ts:467-488 | the brace scan runs over the trimmed reply, but the object is cut from the untrimmed reply at the same positions | the reply " {}" is cut to " {"; a reply starting with a newline loses its closing brace, fails to parse, and the agent's results are dropped | cut the object from the trimmed text that was scanned | high, by reading; not executed | AgentResponse.JsonTextShiftedBy | AgentResponse.TransformIntendedSpec |
