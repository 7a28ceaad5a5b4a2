/**
  The deterministic reconciliation behind `POST /profiles/reconcile`: every left
  transaction takes the lowest-index right transaction that no earlier left
  transaction has taken and that satisfies every term pair of every selected
  matching rule (or, without rules, has the same `Amount` to within 0.01).
  Right transactions nobody took are listed after the left ones.
 */
module RuleMatcher {
  import opened Wrappers
  import opened Text
  import opened Seqs
  import opened Values

  /** One `{ term1, term2 }` entry: a left column compared with a right column. */
  datatype TermPair = TermPair(term1: string, term2: string)

  datatype MatchingRule = MatchingRule(id: string, name: string, rules: seq<TermPair>)

  /** One row of the report. `left == []` is the `{}` placeholder for an unmatched right row. */
  datatype Outcome = Outcome(left: Record, right: Option<Record>, isReconciled: bool, matchedFields: seq<string>)

  /** `String(v).trim().toLowerCase()`. */
  function Normalize(v: Value, numText: real -> string): string {
    Lower(Trim(JsString(v, numText)))
  }

  /** The label pushed for a satisfied pair, `${term1}↔${term2}`. */
  function PairLabel(p: TermPair): string {
    p.term1 + "\U{2194}" + p.term2
  }

  /** Both columns are defined and agree after normalisation. */
  predicate PairAgrees(p: TermPair, l: Record, r: Record, numText: real -> string) {
    Get(l, p.term1).Some? && Get(r, p.term2).Some? &&
    Normalize(Get(l, p.term1).value, numText) == Normalize(Get(r, p.term2).value, numText)
  }

  /** Every rule's pairs, rule after rule: the order the nested loops visit them. */
  function AllPairs(rules: seq<MatchingRule>): (ps: seq<TermPair>)
    ensures forall i :: 0 <= i < |rules| ==> forall p :: p in rules[i].rules ==> p in ps
  {
    if |rules| == 0 then [] else rules[0].rules + AllPairs(rules[1..])
  }

  /**
    The pair loop: labels are collected while pairs agree; the first pair that
    does not agree stops the loop and clears the verdict.
   */
  function CheckPairs(ps: seq<TermPair>, l: Record, r: Record, numText: real -> string): (bool, seq<string>) {
    if |ps| == 0 then (true, [])
    else if PairAgrees(ps[0], l, r, numText) then
      var rest := CheckPairs(ps[1..], l, r, numText);
      (rest.0, [PairLabel(ps[0])] + rest.1)
    else (false, [])
  }

  /**
    The loop's verdict holds exactly when every pair agrees, and then the
    fields are the labels of all pairs in order.
   */
  lemma {:induction false} CheckPairsSpec(ps: seq<TermPair>, l: Record, r: Record, numText: real -> string)
    ensures CheckPairs(ps, l, r, numText).0 <==> forall i :: 0 <= i < |ps| ==> PairAgrees(ps[i], l, r, numText)
    ensures CheckPairs(ps, l, r, numText).0 ==> CheckPairs(ps, l, r, numText).1 == seq(|ps|, i requires 0 <= i < |ps| => PairLabel(ps[i]))
  {
    if |ps| > 0 {
      var tail := ps[1..];
      CheckPairsSpec(tail, l, r, numText);
      assert forall i :: 1 <= i < |ps| ==> ps[i] == tail[i - 1];
      if PairAgrees(ps[0], l, r, numText) {
        var rest := CheckPairs(tail, l, r, numText);
        if rest.0 {
          assert [PairLabel(ps[0])] + rest.1 == seq(|ps|, i requires 0 <= i < |ps| => PairLabel(ps[i]));
        }
      }
    }
  }

  /** `Math.abs(Number(l) - Number(r)) < 0.01`, false when either side is NaN. */
  predicate AmountsClose(l: Value, r: Value) {
    var a := JsNumber(Some(l));
    var b := JsNumber(Some(r));
    a.Finite? && b.Finite? && Abs(a.x - b.x) < 0.01
  }

  /**
    The body of the inner loop for one candidate: `Some(fields)` when the pair
    is accepted (`allRulesMatch && currentMatchedFields.length > 0`).
   */
  function Qualify(rules: seq<MatchingRule>, l: Record, r: Record, numText: real -> string): (fields: Option<seq<string>>)
    ensures fields.Some? ==> |fields.value| > 0
  {
    if |rules| > 0 then
      var res := CheckPairs(AllPairs(rules), l, r, numText);
      if res.0 && |res.1| > 0 then Some(res.1) else None
    else if Get(l, "Amount").Some? && Get(r, "Amount").Some? then
      if AmountsClose(Get(l, "Amount").value, Get(r, "Amount").value) then Some(["Amount"]) else None
    else None
  }

  /** The acceptance condition stated directly: what it means for a right row to qualify. */
  predicate Qualifies(rules: seq<MatchingRule>, l: Record, r: Record, numText: real -> string) {
    if |rules| > 0 then
      |AllPairs(rules)| > 0 && forall p :: p in AllPairs(rules) ==> PairAgrees(p, l, r, numText)
    else
      Get(l, "Amount").Some? && Get(r, "Amount").Some? &&
      AmountsClose(Get(l, "Amount").value, Get(r, "Amount").value)
  }

  /**
    The loop accepts a candidate exactly when it qualifies: with rules, every
    pair of every rule agrees and there is at least one pair; without rules,
    both amounts are defined and close. With rules the fields are the pair labels.
   */
  lemma QualifyMeans(rules: seq<MatchingRule>, l: Record, r: Record, numText: real -> string)
    ensures Qualify(rules, l, r, numText).Some? <==> Qualifies(rules, l, r, numText)
    ensures |rules| > 0 && Qualifies(rules, l, r, numText) ==>
      var ps := AllPairs(rules);
      Qualify(rules, l, r, numText) == Some(seq(|ps|, i requires 0 <= i < |ps| => PairLabel(ps[i])))
    ensures |rules| == 0 && Qualifies(rules, l, r, numText) ==> Qualify(rules, l, r, numText) == Some(["Amount"])
  {
    var ps := AllPairs(rules);
    if |rules| > 0 {
      CheckPairsSpec(ps, l, r, numText);
      assert (forall p :: p in ps ==> PairAgrees(p, l, r, numText)) <==>
             (forall i :: 0 <= i < |ps| ==> PairAgrees(ps[i], l, r, numText));
    }
  }

  /** Rules whose pair lists are all empty never accept anything. */
  lemma EmptyRulesNeverMatch(rules: seq<MatchingRule>, l: Record, r: Record, numText: real -> string)
    requires |rules| > 0 && forall i :: 0 <= i < |rules| ==> rules[i].rules == []
    ensures Qualify(rules, l, r, numText).None?
  {
    var ps := AllPairs(rules);
    assert ps == [] by {
      AllPairsEmpty(rules);
    }
  }

  lemma {:induction false} AllPairsEmpty(rules: seq<MatchingRule>)
    requires forall i :: 0 <= i < |rules| ==> rules[i].rules == []
    ensures AllPairs(rules) == []
  {
    if |rules| > 0 {
      AllPairsEmpty(rules[1..]);
    }
  }

  /**
    The scan over right rows from `j`: the lowest unconsumed index at or after
    `j` whose row fits `l`.
   */
  function FirstFitFrom(l: Record, rights: seq<Record>, fits: (Record, Record) -> bool, used: set<nat>, j: nat): (pick: Option<nat>)
    requires j <= |rights|
    ensures pick.Some? ==> j <= pick.value < |rights| && pick.value !in used && fits(l, rights[pick.value])
    ensures pick.Some? ==> forall k :: j <= k < pick.value && k !in used ==> !fits(l, rights[k])
    ensures pick.None? ==> forall k :: j <= k < |rights| && k !in used ==> !fits(l, rights[k])
    decreases |rights| - j
  {
    if j == |rights| then None
    else if j !in used && fits(l, rights[j]) then Some(j)
    else FirstFitFrom(l, rights, fits, used, j + 1)
  }

  function FirstFit(l: Record, rights: seq<Record>, fits: (Record, Record) -> bool, used: set<nat>): Option<nat> {
    FirstFitFrom(l, rights, fits, used, 0)
  }

  function PickSet(ps: seq<Option<nat>>): (s: set<nat>)
    ensures forall i :: 0 <= i < |ps| && ps[i].Some? ==> ps[i].value in s
    ensures forall x :: x in s ==> exists i :: 0 <= i < |ps| && ps[i] == Some(x)
  {
    if |ps| == 0 then {}
    else
      var rest := PickSet(ps[1..]);
      assert forall i :: 1 <= i < |ps| ==> ps[i] == ps[1..][i - 1];
      (if ps[0].Some? then {ps[0].value} else {}) + rest
  }

  /** How many left rows found a partner. */
  function CountSome(ps: seq<Option<nat>>): (n: nat)
    ensures n <= |ps|
  {
    if |ps| == 0 then 0 else (if ps[0].Some? then 1 else 0) + CountSome(ps[1..])
  }

  /**
    The outer loop's choices: each left row takes `FirstFit` against the rows
    consumed before it. Picks are fresh, distinct and in range.
   */
  function Picks(lefts: seq<Record>, rights: seq<Record>, fits: (Record, Record) -> bool, used: set<nat>): (ps: seq<Option<nat>>)
    ensures |ps| == |lefts|
    ensures forall i :: 0 <= i < |ps| && ps[i].Some? ==> ps[i].value < |rights| && ps[i].value !in used
    ensures forall i, j :: 0 <= i < j < |ps| && ps[i].Some? && ps[j].Some? ==> ps[i].value != ps[j].value
    decreases |lefts|
  {
    if |lefts| == 0 then []
    else
      var p := FirstFit(lefts[0], rights, fits, used);
      var used' := if p.Some? then used + {p.value} else used;
      var rest := Picks(lefts[1..], rights, fits, used');
      assert forall i :: 1 <= i < |lefts| ==> ([p] + rest)[i] == rest[i - 1];
      [p] + rest
  }

  /**
    Each pick is the first fit against exactly the rows consumed by the
    earlier left rows: the greedy, order-dependent assignment.
   */
  lemma {:induction false} PicksAreFirstFit(lefts: seq<Record>, rights: seq<Record>, fits: (Record, Record) -> bool, used: set<nat>, i: nat)
    requires i < |lefts|
    ensures var ps := Picks(lefts, rights, fits, used);
      ps[i] == FirstFit(lefts[i], rights, fits, used + PickSet(ps[..i]))
    decreases |lefts|
  {
    var ps := Picks(lefts, rights, fits, used);
    var p := FirstFit(lefts[0], rights, fits, used);
    var used' := if p.Some? then used + {p.value} else used;
    if i == 0 {
      assert ps[..0] == [];
    } else {
      var rest := Picks(lefts[1..], rights, fits, used');
      assert ps == [p] + rest;
      PicksAreFirstFit(lefts[1..], rights, fits, used', i - 1);
      assert ps[..i] == [p] + rest[..i - 1];
      PickSetCons(p, rest[..i - 1]);
      assert used + PickSet(ps[..i]) == used' + PickSet(rest[..i - 1]);
      assert ps[i] == rest[i - 1] && lefts[i] == lefts[1..][i - 1];
    }
  }

  lemma PickSetCons(p: Option<nat>, rest: seq<Option<nat>>)
    ensures PickSet([p] + rest) == (if p.Some? then {p.value} else {}) + PickSet(rest)
  {
    assert ([p] + rest)[1..] == rest;
  }

  /** Distinct picks consume exactly as many right rows as there are matches. */
  lemma {:induction false} PickSetSize(ps: seq<Option<nat>>)
    requires forall i, j :: 0 <= i < j < |ps| && ps[i].Some? && ps[j].Some? ==> ps[i].value != ps[j].value
    ensures |PickSet(ps)| == CountSome(ps)
  {
    if |ps| > 0 {
      var rest := ps[1..];
      forall i, j | 0 <= i < j < |rest| && rest[i].Some? && rest[j].Some?
        ensures rest[i].value != rest[j].value
      {
        assert rest[i] == ps[i + 1] && rest[j] == ps[j + 1];
      }
      PickSetSize(rest);
      var head: set<nat> := if ps[0].Some? then {ps[0].value} else {};
      assert PickSet(ps) == head + PickSet(rest);
      forall x | x in PickSet(rest)
        ensures x !in head
      {
        var i :| 0 <= i < |rest| && rest[i] == Some(x);
        assert rest[i] == ps[i + 1];
      }
      assert head !! PickSet(rest);
    }
  }

  /** The right rows in index order whose index is not consumed. */
  function Leftover(rights: seq<Record>, used: set<nat>): (idx: seq<nat>)
    ensures forall k :: 0 <= k < |idx| ==> idx[k] < |rights| && idx[k] !in used
    ensures forall j: nat :: j in idx <==> j < |rights| && j !in used
    ensures Increasing(idx)
  {
    var r := Except(Range(|rights|), used);
    ExceptSpec(Range(|rights|), used);
    ExceptRangeMembers(|rights|, used);
    ExceptRangeIncreasing(|rights|, used);
    assert forall k :: 0 <= k < |r| ==> r[k] in r;
    r
  }

  function MatchedFields(rules: seq<MatchingRule>, l: Record, r: Record, numText: real -> string): seq<string> {
    match Qualify(rules, l, r, numText)
    case Some(fs) => fs
    case None => []
  }

  /** The acceptance test the matcher applies to a (left, right) pair. */
  function Fits(rules: seq<MatchingRule>, numText: real -> string): (Record, Record) -> bool {
    (l: Record, r: Record) => Qualify(rules, l, r, numText).Some?
  }

  /**
    The report built from the picks: one row per left transaction, in order,
    then one `{}`-left row per unconsumed right transaction, in index order.
   */
  function Report(lefts: seq<Record>, rights: seq<Record>, ps: seq<Option<nat>>, fieldsOf: (Record, Record) -> seq<string>): (out: seq<Outcome>)
    requires |ps| == |lefts|
    requires forall i :: 0 <= i < |ps| && ps[i].Some? ==> ps[i].value < |rights|
    ensures |out| == |lefts| + |Leftover(rights, PickSet(ps))|
    ensures forall i :: 0 <= i < |lefts| ==> out[i].left == lefts[i] && (out[i].isReconciled <==> ps[i].Some?)
    ensures forall i :: 0 <= i < |lefts| && ps[i].Some? ==> out[i].right == Some(rights[ps[i].value])
    ensures forall i :: 0 <= i < |lefts| ==> (out[i].isReconciled <==> out[i].right.Some?)
    ensures forall i :: |lefts| <= i < |out| ==>
      out[i].left == [] && !out[i].isReconciled && out[i].matchedFields == [] &&
      out[i].right == Some(rights[Leftover(rights, PickSet(ps))[i - |lefts|]])
  {
    var matched := seq(|lefts|, i requires 0 <= i < |lefts| =>
      match ps[i]
      case Some(j) => Outcome(lefts[i], Some(rights[j]), true, fieldsOf(lefts[i], rights[j]))
      case None => Outcome(lefts[i], None, false, []));
    var rest := Leftover(rights, PickSet(ps));
    var unmatched := seq(|rest|, k requires 0 <= k < |rest| => Outcome([], Some(rights[rest[k]]), false, []));
    var out := matched + unmatched;
    forall i | 0 <= i < |lefts|
      ensures out[i].left == lefts[i] && (out[i].isReconciled <==> ps[i].Some?)
      ensures ps[i].Some? ==> out[i].right == Some(rights[ps[i].value])
      ensures out[i].isReconciled <==> out[i].right.Some?
    {
      assert out[i] == matched[i];
    }
    forall i | |lefts| <= i < |out|
      ensures out[i] == Outcome([], Some(rights[rest[i - |lefts|]]), false, [])
    {
      assert out[i] == unmatched[i - |lefts|];
    }
    out
  }

  /** The matcher's report for two documents' rows under the selected rules. */
  function Reconcile(lefts: seq<Record>, rights: seq<Record>, rules: seq<MatchingRule>, numText: real -> string): seq<Outcome> {
    var ps := Picks(lefts, rights, Fits(rules, numText), {});
    Report(lefts, rights, ps, (l: Record, r: Record) => MatchedFields(rules, l, r, numText))
  }

  /**
    A left row is reconciled exactly with the first unconsumed qualifying
    right row, and the report has |L| + |R| - (number of matches) rows.
   */
  lemma ReconcileSpec(lefts: seq<Record>, rights: seq<Record>, rules: seq<MatchingRule>, numText: real -> string)
    ensures |Reconcile(lefts, rights, rules, numText)| ==
      |lefts| + |rights| - CountSome(Picks(lefts, rights, Fits(rules, numText), {}))
    ensures forall i :: 0 <= i < |lefts| ==> Reconcile(lefts, rights, rules, numText)[i].left == lefts[i]
    ensures forall i :: 0 <= i < |lefts| ==>
      (Reconcile(lefts, rights, rules, numText)[i].isReconciled <==> Picks(lefts, rights, Fits(rules, numText), {})[i].Some?)
    ensures forall i :: 0 <= i < |lefts| && Picks(lefts, rights, Fits(rules, numText), {})[i].Some? ==>
      var j := Picks(lefts, rights, Fits(rules, numText), {})[i].value;
      Reconcile(lefts, rights, rules, numText)[i].right == Some(rights[j]) && Qualifies(rules, lefts[i], rights[j], numText)
    ensures forall i :: |lefts| <= i < |Reconcile(lefts, rights, rules, numText)| ==>
      var o := Reconcile(lefts, rights, rules, numText)[i];
      o.left == [] && !o.isReconciled && o.right.Some?
  {
    var fits := Fits(rules, numText);
    var ps := Picks(lefts, rights, fits, {});
    PickSetSize(ps);
    ExceptRangeSize(|rights|, PickSet(ps));
    forall i | 0 <= i < |lefts| && ps[i].Some?
      ensures Qualifies(rules, lefts[i], rights[ps[i].value], numText)
    {
      PicksAreFirstFit(lefts, rights, fits, {}, i);
      QualifyMeans(rules, lefts[i], rights[ps[i].value], numText);
    }
  }

  /**
    Left row `i` is matched with the lowest-index right row that qualifies and
    that no earlier left row took, and with no right row if there is none.
   */
  lemma ReconcileFirstFit(lefts: seq<Record>, rights: seq<Record>, rules: seq<MatchingRule>, numText: real -> string, i: nat)
    requires i < |lefts|
    ensures var ps := Picks(lefts, rights, Fits(rules, numText), {});
      var taken := PickSet(ps[..i]);
      (ps[i].Some? ==>
        ps[i].value !in taken &&
        forall k :: 0 <= k < ps[i].value && k !in taken ==> !Qualifies(rules, lefts[i], rights[k], numText)) &&
      (ps[i].None? ==> forall k :: 0 <= k < |rights| && k !in taken ==> !Qualifies(rules, lefts[i], rights[k], numText))
  {
    var fits := Fits(rules, numText);
    PicksAreFirstFit(lefts, rights, fits, {}, i);
    forall k | 0 <= k < |rights|
      ensures Qualifies(rules, lefts[i], rights[k], numText) <==> fits(lefts[i], rights[k])
    {
      QualifyMeans(rules, lefts[i], rights[k], numText);
    }
  }

  /** A stored document: `dataSource` is `None` when it is not an array. */
  datatype Document = Document(id: string, dataSource: Option<seq<Record>>)

  datatype Reply =
    | BadRequest(message: string)
    | NotFound(message: string)
    | ServerError(message: string)
    | Ok(data: seq<Outcome>)

  /** `Document.findById` on the stored documents. */
  function FindDocument(docs: seq<Document>, id: string): Option<Document> {
    FindById(docs, (d: Document) => d.id, id)
  }

  /** `MatchingRule.find({ _id: { $in: ids } })`: the stored rules whose id was asked for, in store order. */
  function SelectRules(store: seq<MatchingRule>, ids: seq<string>): (rs: seq<MatchingRule>)
    ensures forall r :: r in rs <==> r in store && r.id in ids
  {
    if |store| == 0 then []
    else (if store[0].id in ids then [store[0]] else []) + SelectRules(store[1..], ids)
  }

  lemma {:induction false} SelectNoRules(store: seq<MatchingRule>, ids: seq<string>)
    requires |ids| == 0
    ensures SelectRules(store, ids) == []
  {
    if |store| > 0 {
      SelectNoRules(store[1..], ids);
    }
  }

  function Rows(d: Document): seq<Record> {
    d.dataSource.GetOr([])
  }

  /**
    The whole request: 400 unless exactly two document ids, 404 when either
    document is missing, a server error when `matchingRuleIds` is absent,
    otherwise the report over the two documents' rows.
   */
  function ReconcileDocuments(documentIds: Option<seq<string>>, matchingRuleIds: Option<seq<string>>,
                              docs: seq<Document>, store: seq<MatchingRule>, numText: real -> string): (reply: Reply)
    ensures reply.BadRequest? <==> documentIds.None? || |documentIds.value| != 2
    ensures reply.NotFound? <==>
      documentIds.Some? && |documentIds.value| == 2 &&
      (FindDocument(docs, documentIds.value[0]).None? || FindDocument(docs, documentIds.value[1]).None?)
    ensures reply.ServerError? <==>
      documentIds.Some? && |documentIds.value| == 2 &&
      FindDocument(docs, documentIds.value[0]).Some? && FindDocument(docs, documentIds.value[1]).Some? &&
      matchingRuleIds.None?
    ensures reply.Ok? ==>
      matchingRuleIds.Some? &&
      reply.data == Reconcile(Rows(FindDocument(docs, documentIds.value[0]).value),
                              Rows(FindDocument(docs, documentIds.value[1]).value),
                              SelectRules(store, matchingRuleIds.value), numText)
  {
    if documentIds.None? || |documentIds.value| != 2 then BadRequest("Exactly two document IDs are required")
    else
      var left := FindDocument(docs, documentIds.value[0]);
      var right := FindDocument(docs, documentIds.value[1]);
      if left.None? || right.None? then NotFound("One or both documents not found")
      else if matchingRuleIds.None? then ServerError("Server error during reconciliation")
      else
        var rules := if |matchingRuleIds.value| > 0 then SelectRules(store, matchingRuleIds.value) else [];
        assert rules == SelectRules(store, matchingRuleIds.value) by {
          if |matchingRuleIds.value| == 0 {
            SelectNoRules(store, matchingRuleIds.value);
          }
        }
        Ok(Reconcile(Rows(left.value), Rows(right.value), rules, numText))
  }

}
