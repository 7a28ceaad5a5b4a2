/**
  The confidence-scored matcher of the agent service (`enhancedFallbackReconciliation`):
  every unconsumed right transaction gets an additive score against the
  current left transaction; the first right transaction with the highest score
  above 50 is kept, and it is consumed only when that score reaches 80.
 */
module Heuristic {
  import opened Wrappers
  import opened Text
  import opened Seqs
  import opened Values
  import opened Summaries
  import RuleMatcher

  type TermPair = RuleMatcher.TermPair
  type MatchingRule = RuleMatcher.MatchingRule

  /** The words `calculateSimilarity` compares: whitespace-separated pieces longer than two characters. */
  function WordSet(s: string): set<string> {
    set w | w in Tokens(s) && |w| > 2
  }

  /**
    Jaccard similarity of two word sets: 1 when both are empty, 0 when exactly
    one is, otherwise the size of the intersection over the size of the union.
   */
  function Jaccard<T>(a: set<T>, b: set<T>): real {
    if |a| == 0 && |b| == 0 then 1.0
    else if |a| == 0 || |b| == 0 then 0.0
    else |a * b| as real / |a + b| as real
  }

  /** `calculateSimilarity`: the Jaccard similarity of the two texts' word sets. */
  function Similarity(s1: string, s2: string): real {
    Jaccard(WordSet(s1), WordSet(s2))
  }

  /** Jaccard similarity lies in [0, 1], is symmetric, and is 1 exactly for equal sets. */
  lemma JaccardSpec<T>(a: set<T>, b: set<T>)
    ensures 0.0 <= Jaccard(a, b) <= 1.0
    ensures Jaccard(a, b) == Jaccard(b, a)
    ensures Jaccard(a, b) == 1.0 <==> a == b
  {
    assert a * b == b * a && a + b == b + a;
    if |a| > 0 && |b| > 0 {
      assert |a + b| + |a * b| == |a| + |b|;
      assert |a - b| == |a| - |a * b|;
      assert |b - a| == |b| - |a * b|;
      assert |a * b| <= |a + b|;
      if |a * b| == |a + b| {
        assert |a - b| == 0 && |b - a| == 0;
        assert a - b == {} && b - a == {};
        assert a == b;
      }
      if a == b {
        assert a * b == a + b;
        var n := |a + b| as real;
        assert n > 0.0 && n / n == 1.0;
      } else {
        assert |a * b| < |a + b|;
        var x, n := |a * b| as real, |a + b| as real;
        RatioBelowOne(x, n);
      }
    } else if |a| == 0 && |b| > 0 {
      assert a != b;
    } else if |b| == 0 && |a| > 0 {
      assert a != b;
    } else {
      assert a == {} == b;
    }
  }

  lemma RatioBelowOne(x: real, n: real)
    requires 0.0 <= x < n
    ensures x / n < 1.0
  {
    var q := x / n;
    assert q * n == x;
  }

  /**
    Similarity lies in [0, 1], is symmetric, and is 1 exactly when the two
    texts have the same words.
   */
  lemma SimilaritySpec(s1: string, s2: string)
    ensures 0.0 <= Similarity(s1, s2) <= 1.0
    ensures Similarity(s1, s2) == Similarity(s2, s1)
    ensures Similarity(s1, s2) == 1.0 <==> WordSet(s1) == WordSet(s2)
  {
    JaccardSpec(WordSet(s1), WordSet(s2));
  }

  /** Why a field pair did not line up exactly. */
  datatype Discrepancy =
    | FieldDiffers(term: string, left: Value, right: Value)
    | AmountDifference(difference: real)
    | DateDifference(days: real)
    | NoLeftCounterpart

  /** A candidate's score with the fields and discrepancies collected on the way. */
  datatype Scored = Scored(score: int, fields: seq<string>, discrepancies: seq<Discrepancy>)

  const Nothing := Scored(0, [], [])

  function Plus(a: Scored, b: Scored): Scored {
    Scored(a.score + b.score, a.fields + b.fields, a.discrepancies + b.discrepancies)
  }

  /** Step 1: each rule pair with both values truthy scores 25 when equal after normalisation, 15 when similar. */
  function PairScore(p: TermPair, l: Record, r: Record, numText: real -> string): Scored {
    var lv := Get(l, p.term1);
    var rv := Get(r, p.term2);
    if Truthy(lv) && Truthy(rv) then
      var ls := RuleMatcher.Normalize(lv.value, numText);
      var rs := RuleMatcher.Normalize(rv.value, numText);
      if ls == rs then Scored(25, [RuleMatcher.PairLabel(p) + " (Exact)"], [])
      else if Similarity(ls, rs) > 0.8 then
        Scored(15, [RuleMatcher.PairLabel(p) + " (Similar)"], [FieldDiffers(p.term1, lv.value, rv.value)])
      else Nothing
    else Nothing
  }

  function RulesScore(ps: seq<TermPair>, l: Record, r: Record, numText: real -> string): Scored {
    if |ps| == 0 then Nothing else Plus(PairScore(ps[0], l, r, numText), RulesScore(ps[1..], l, r, numText))
  }

  /**
    Step 2: amounts within 0.01 score 30; otherwise `difference / max < 0.01`
    scores 20, which holds for a close positive pair and for any pair whose
    larger amount is negative (the ratio is then negative), and never when the
    larger amount is 0 (the ratio is Infinity or NaN). A NaN amount scores 0.
   */
  function AmountScore(l: Record, r: Record): Scored {
    if Get(l, "Amount").Some? && Get(r, "Amount").Some? then
      var a := JsNumber(Get(l, "Amount"));
      var b := JsNumber(Get(r, "Amount"));
      if a.Finite? && b.Finite? then
        var d := Abs(a.x - b.x);
        var m := Max(a.x, b.x);
        if d < 0.01 then Scored(30, ["Amount (Exact)"], [])
        else if m < 0.0 || (m > 0.0 && d / m < 0.01) then Scored(20, ["Amount (Close)"], [AmountDifference(d)])
        else Nothing
      else Nothing
    else Nothing
  }

  /**
    The amount step on two numeric amounts: within 0.01 scores 30; otherwise
    a negative larger amount always scores 20, a larger amount of 0 never
    does, and a positive one does exactly when the gap is under 1% of it.
   */
  lemma AmountRatioEdges(l: Record, r: Record, x: real, y: real)
    requires Get(l, "Amount") == Some(Num(x)) && Get(r, "Amount") == Some(Num(y))
    ensures Abs(x - y) < 0.01 ==> AmountScore(l, r).score == 30
    ensures Abs(x - y) >= 0.01 && Max(x, y) < 0.0 ==> AmountScore(l, r).score == 20
    ensures Abs(x - y) >= 0.01 && Max(x, y) == 0.0 ==> AmountScore(l, r).score == 0
    ensures Abs(x - y) >= 0.01 && Max(x, y) > 0.0 ==>
      (AmountScore(l, r).score == 20 <==> Abs(x - y) < 0.01 * Max(x, y))
  {
    var d, m := Abs(x - y), Max(x, y);
    if d >= 0.01 && m > 0.0 {
      RatioBelow(d, m);
    }
  }

  /** For a positive divisor, the ratio is under 1% exactly when the dividend is under 1% of it. */
  lemma RatioBelow(d: real, m: real)
    requires m > 0.0
    ensures d / m < 0.01 <==> d < 0.01 * m
  {
    var q := d / m;
    assert q * m == d;
    if q < 0.01 {
      assert q * m < 0.01 * m;
    } else {
      assert q * m >= 0.01 * m;
    }
  }

  /** Step 3: dates on the same day score 20, one day apart 15, up to three days 10. */
  function DateScore(l: Record, r: Record, dayOf: Value -> Option<real>): Scored {
    var lv := Get(l, "Date");
    var rv := Get(r, "Date");
    if Truthy(lv) && Truthy(rv) && dayOf(lv.value).Some? && dayOf(rv.value).Some? then
      var days := Abs(dayOf(lv.value).value - dayOf(rv.value).value);
      if days == 0.0 then Scored(20, ["Date (Same Day)"], [])
      else if days <= 1.0 then Scored(15, ["Date (Next Day)"], [])
      else if days <= 3.0 then Scored(10, ["Date (Within 3 Days)"], [DateDifference(days)])
      else Nothing
    else Nothing
  }

  /** Step 4: descriptions (lower-cased, not trimmed) with similarity above 0.9 score 15, above 0.7 score 10. */
  function DescriptionScore(l: Record, r: Record, numText: real -> string): Scored {
    var lv := Get(l, "Description");
    var rv := Get(r, "Description");
    if Truthy(lv) && Truthy(rv) then
      var sim := Similarity(Lower(JsString(lv.value, numText)), Lower(JsString(rv.value, numText)));
      if sim > 0.9 then Scored(15, ["Description (Very Similar)"], [])
      else if sim > 0.7 then Scored(10, ["Description (Similar)"], [])
      else Nothing
    else Nothing
  }

  /** Step 5: equal truthy reference ids score 25. */
  function ReferenceScore(l: Record, r: Record): Scored {
    var lv := Get(l, "ReferenceId");
    var rv := Get(r, "ReferenceId");
    if Truthy(lv) && Truthy(rv) && lv == rv then Scored(25, ["Reference ID (Exact)"], []) else Nothing
  }

  /** The candidate's total: the five steps in source order. */
  function Score(rules: seq<MatchingRule>, l: Record, r: Record, numText: real -> string, dayOf: Value -> Option<real>): Scored {
    Plus(Plus(Plus(Plus(RulesScore(RuleMatcher.AllPairs(rules), l, r, numText), AmountScore(l, r)),
      DateScore(l, r, dayOf)), DescriptionScore(l, r, numText)), ReferenceScore(l, r))
  }

  /** Every step adds one of its listed weights. */
  lemma StepWeights(rules: seq<MatchingRule>, l: Record, r: Record, numText: real -> string, dayOf: Value -> Option<real>)
    ensures AmountScore(l, r).score in {0, 20, 30}
    ensures DateScore(l, r, dayOf).score in {0, 10, 15, 20}
    ensures DescriptionScore(l, r, numText).score in {0, 10, 15}
    ensures ReferenceScore(l, r).score in {0, 25}
    ensures forall p :: PairScore(p, l, r, numText).score in {0, 15, 25}
  {
    AmountWeights(l, r);
    DateWeights(l, r, dayOf);
    DescriptionWeights(l, r, numText);
  }

  lemma AmountWeights(l: Record, r: Record)
    ensures AmountScore(l, r).score in {0, 20, 30}
  {
  }

  lemma DateWeights(l: Record, r: Record, dayOf: Value -> Option<real>)
    ensures DateScore(l, r, dayOf).score in {0, 10, 15, 20}
  {
  }

  lemma DescriptionWeights(l: Record, r: Record, numText: real -> string)
    ensures DescriptionScore(l, r, numText).score in {0, 10, 15}
  {
  }

  /** Rule pairs add between 0 and 25 each. */
  lemma {:induction false} RulesScoreBounds(ps: seq<TermPair>, l: Record, r: Record, numText: real -> string)
    ensures 0 <= RulesScore(ps, l, r, numText).score <= 25 * |ps|
  {
    if |ps| > 0 {
      RulesScoreBounds(ps[1..], l, r, numText);
      StepWeights([], l, r, numText, _ => None);
    }
  }

  /** Without rule pairs the score is at most 30 + 20 + 15 + 25 = 90. */
  lemma ScoreBounds(rules: seq<MatchingRule>, l: Record, r: Record, numText: real -> string, dayOf: Value -> Option<real>)
    ensures 0 <= Score(rules, l, r, numText, dayOf).score <= 25 * |RuleMatcher.AllPairs(rules)| + 90
  {
    RulesScoreBounds(RuleMatcher.AllPairs(rules), l, r, numText);
    StepWeights(rules, l, r, numText, dayOf);
  }

  /** An exact amount together with an equal reference id already clears the threshold of 50. */
  lemma AmountAndReferenceClear(rules: seq<MatchingRule>, l: Record, r: Record, numText: real -> string, dayOf: Value -> Option<real>)
    requires AmountScore(l, r).score == 30 && ReferenceScore(l, r).score == 25
    ensures Score(rules, l, r, numText, dayOf).score > 50
  {
    RulesScoreBounds(RuleMatcher.AllPairs(rules), l, r, numText);
    StepWeights(rules, l, r, numText, dayOf);
  }

  /**
    The inner loop over the first `n` right rows: a candidate replaces the best
    so far when it is unconsumed and its score beats both the best score
    (initially 0) and 50.
   */
  function BestUpTo(l: Record, rights: seq<Record>, scored: (Record, Record) -> Scored, used: set<nat>, n: nat): (b: Option<nat>)
    requires n <= |rights|
    ensures b.Some? ==> b.value < n && b.value !in used && scored(l, rights[b.value]).score > 50
    ensures b.Some? ==> forall k :: 0 <= k < n && k !in used ==> scored(l, rights[k]).score <= scored(l, rights[b.value]).score
    ensures b.Some? ==> forall k :: 0 <= k < b.value && k !in used ==> scored(l, rights[k]).score < scored(l, rights[b.value]).score
    ensures b.None? ==> forall k :: 0 <= k < n && k !in used ==> scored(l, rights[k]).score <= 50
  {
    if n == 0 then None
    else
      var b := BestUpTo(l, rights, scored, used, n - 1);
      var s := scored(l, rights[n - 1]).score;
      var best := if b.Some? then scored(l, rights[b.value]).score else 0;
      if n - 1 !in used && s > best && s > 50 then Some(n - 1) else b
  }

  function Best(l: Record, rights: seq<Record>, scored: (Record, Record) -> Scored, used: set<nat>): Option<nat> {
    BestUpTo(l, rights, scored, used, |rights|)
  }

  /** A kept candidate is consumed, and its left row reconciled, when its score is at least 80. */
  predicate Consumes(l: Record, rights: seq<Record>, scored: (Record, Record) -> Scored, b: Option<nat>) {
    b.Some? && b.value < |rights| && scored(l, rights[b.value]).score >= 80
  }

  /** One turn of the outer loop: the consumed set after left row `l`. */
  function Step(l: Record, rights: seq<Record>, scored: (Record, Record) -> Scored, used: set<nat>): set<nat> {
    var b := Best(l, rights, scored, used);
    if Consumes(l, rights, scored, b) then used + {b.value} else used
  }

  /** The right rows consumed once the outer loop has seen `lefts`. */
  function Consumed(lefts: seq<Record>, rights: seq<Record>, scored: (Record, Record) -> Scored, used: set<nat>): set<nat>
    decreases |lefts|
  {
    if |lefts| == 0 then used
    else Consumed(lefts[1..], rights, scored, Step(lefts[0], rights, scored, used))
  }

  /** The kept candidate of every left row, in order. */
  function Choices(lefts: seq<Record>, rights: seq<Record>, scored: (Record, Record) -> Scored, used: set<nat>): (cs: seq<Option<nat>>)
    ensures |cs| == |lefts|
    ensures forall i :: 0 <= i < |cs| && cs[i].Some? ==> cs[i].value < |rights|
    decreases |lefts|
  {
    if |lefts| == 0 then []
    else
      var b := Best(lefts[0], rights, scored, used);
      var rest := Choices(lefts[1..], rights, scored, Step(lefts[0], rights, scored, used));
      assert forall i :: 1 <= i < |lefts| ==> ([b] + rest)[i] == rest[i - 1];
      [b] + rest
  }

  /** Whether each left row consumed its candidate. */
  function Reconciled(lefts: seq<Record>, rights: seq<Record>, scored: (Record, Record) -> Scored, used: set<nat>): (fs: seq<bool>)
    ensures |fs| == |lefts|
    decreases |lefts|
  {
    if |lefts| == 0 then []
    else
      [Consumes(lefts[0], rights, scored, Best(lefts[0], rights, scored, used))] +
      Reconciled(lefts[1..], rights, scored, Step(lefts[0], rights, scored, used))
  }

  /**
    Each left row keeps the best candidate among the rows the earlier left rows
    left unconsumed, and it is reconciled exactly when that candidate is consumed.
   */
  lemma {:induction false} ChoicesAreBest(lefts: seq<Record>, rights: seq<Record>, scored: (Record, Record) -> Scored, used: set<nat>, i: nat)
    requires i < |lefts|
    ensures Choices(lefts, rights, scored, used)[i] == Best(lefts[i], rights, scored, Consumed(lefts[..i], rights, scored, used))
    ensures Reconciled(lefts, rights, scored, used)[i] == Consumes(lefts[i], rights, scored, Choices(lefts, rights, scored, used)[i])
    decreases |lefts|
  {
    if i == 0 {
      assert lefts[..0] == [];
    } else {
      var used' := Step(lefts[0], rights, scored, used);
      var tl := lefts[1..];
      ChoicesAreBest(tl, rights, scored, used', i - 1);
      assert lefts[..i][1..] == tl[..i - 1];
      assert Consumed(lefts[..i], rights, scored, used) == Consumed(tl[..i - 1], rights, scored, used');
      assert Choices(lefts, rights, scored, used)[i] == Choices(tl, rights, scored, used')[i - 1];
      assert Reconciled(lefts, rights, scored, used)[i] == Reconciled(tl, rights, scored, used')[i - 1];
    }
  }

  /**
    Consumption only ever adds fresh, in-range rows, one per reconciled left
    row: no right row is consumed twice.
   */
  lemma {:induction false} ConsumedSize(lefts: seq<Record>, rights: seq<Record>, scored: (Record, Record) -> Scored, used: set<nat>)
    ensures used <= Consumed(lefts, rights, scored, used)
    ensures |Consumed(lefts, rights, scored, used)| == |used| + CountTrue(Reconciled(lefts, rights, scored, used))
    ensures forall j :: j in Consumed(lefts, rights, scored, used) && j !in used ==> j < |rights|
    decreases |lefts|
  {
    if |lefts| > 0 {
      var b := Best(lefts[0], rights, scored, used);
      var used' := Step(lefts[0], rights, scored, used);
      ConsumedSize(lefts[1..], rights, scored, used');
      if Consumes(lefts[0], rights, scored, b) {
        assert b.value !in used;
        assert |used'| == |used| + 1;
      }
    }
  }

  /** Running the loop over `xs + ys` is running it over `xs`, then over `ys`. */
  lemma {:induction false} ConsumedAppend(xs: seq<Record>, ys: seq<Record>, rights: seq<Record>, scored: (Record, Record) -> Scored, used: set<nat>)
    ensures Consumed(xs + ys, rights, scored, used) == Consumed(ys, rights, scored, Consumed(xs, rights, scored, used))
    decreases |xs|
  {
    if |xs| > 0 {
      assert (xs + ys)[1..] == xs[1..] + ys;
      ConsumedAppend(xs[1..], ys, rights, scored, Step(xs[0], rights, scored, used));
    } else {
      assert xs + ys == ys;
    }
  }

  /** After left row `i` the consumed set is one more step of the loop. */
  lemma ConsumedSnoc(lefts: seq<Record>, rights: seq<Record>, scored: (Record, Record) -> Scored, used: set<nat>, i: nat)
    requires i < |lefts|
    ensures Consumed(lefts[..i + 1], rights, scored, used) ==
            Step(lefts[i], rights, scored, Consumed(lefts[..i], rights, scored, used))
  {
    assert lefts[..i + 1] == lefts[..i] + [lefts[i]];
    ConsumedAppend(lefts[..i], [lefts[i]], rights, scored, used);
    assert [lefts[i]][1..] == [];
  }

  /**
    A right row consumed by a reconciled left row is never the kept candidate
    of a later left row.
   */
  lemma NoRightRowTwice(lefts: seq<Record>, rights: seq<Record>, scored: (Record, Record) -> Scored, used: set<nat>, i: nat, i': nat)
    requires i < i' < |lefts|
    requires Reconciled(lefts, rights, scored, used)[i]
    ensures Choices(lefts, rights, scored, used)[i'] != Choices(lefts, rights, scored, used)[i]
  {
    var cs := Choices(lefts, rights, scored, used);
    ChoicesAreBest(lefts, rights, scored, used, i);
    ChoicesAreBest(lefts, rights, scored, used, i');
    var before := Consumed(lefts[..i + 1], rights, scored, used);
    ConsumedSnoc(lefts, rights, scored, used, i);
    assert cs[i].value in before;
    var mid := lefts[i + 1..i'];
    assert lefts[..i + 1] + mid == lefts[..i'];
    ConsumedAppend(lefts[..i + 1], mid, rights, scored, used);
    ConsumedSize(mid, rights, scored, before);
    assert cs[i].value in Consumed(lefts[..i'], rights, scored, used);
  }

  /**
    Consumption is one-to-one: two reconciled left rows never hold the same
    right row.
   */
  lemma ConsumedOneToOne(lefts: seq<Record>, rights: seq<Record>, scored: (Record, Record) -> Scored, used: set<nat>)
    ensures var cs := Choices(lefts, rights, scored, used);
      var fs := Reconciled(lefts, rights, scored, used);
      forall i, i' :: 0 <= i < i' < |lefts| && fs[i] && fs[i'] ==> cs[i] != cs[i']
  {
    forall i, i' | 0 <= i < i' < |lefts| && Reconciled(lefts, rights, scored, used)[i]
      ensures Choices(lefts, rights, scored, used)[i'] != Choices(lefts, rights, scored, used)[i]
    {
      NoRightRowTwice(lefts, rights, scored, used, i, i');
    }
  }

  /** The textual explanation attached to a kept candidate, by confidence band. */
  datatype Reasoning =
    | Excellent(confidence: int, fields: seq<string>, perfect: bool)
    | HighConfidence(confidence: int, fields: seq<string>, notes: seq<Discrepancy>)
    | GoodMatch(confidence: int, fields: seq<string>, notes: seq<Discrepancy>)
    | ModerateMatch(confidence: int, fields: seq<string>, notes: seq<Discrepancy>)
    | LowConfidence(confidence: int)
    | NoSuitableMatch
    | UnmatchedRight

  /** `generateAIReasoning`: bands at 95, 85, 70 and 50 of the raw score. */
  function Reason(s: Scored): Reasoning {
    if s.score >= 95 then Excellent(s.score, s.fields, s.discrepancies == [])
    else if s.score >= 85 then HighConfidence(s.score, s.fields, s.discrepancies)
    else if s.score >= 70 then GoodMatch(s.score, s.fields, s.discrepancies)
    else if s.score >= 50 then ModerateMatch(s.score, s.fields, s.discrepancies)
    else LowConfidence(s.score)
  }

  /** One row of the scored report; `left == []` is the `{}` of an unmatched right row. */
  datatype Outcome = Outcome(left: Record, right: Option<Record>, isReconciled: bool, matchedFields: seq<string>,
                             confidence: int, reasoning: Reasoning, discrepancies: seq<Discrepancy>)

  function LeftOutcome(l: Record, rights: seq<Record>, scored: (Record, Record) -> Scored, b: Option<nat>): Outcome
    requires b.Some? ==> b.value < |rights|
  {
    match b
    case None => Outcome(l, None, false, [], 0, NoSuitableMatch, [])
    case Some(j) =>
      var s := scored(l, rights[j]);
      Outcome(l, Some(rights[j]), s.score >= 80, s.fields, Min(s.score, 100), Reason(s), s.discrepancies)
  }

  function RightOutcome(r: Record): Outcome {
    Outcome([], Some(r), false, [], 0, UnmatchedRight, [NoLeftCounterpart])
  }

  /** One row per left row, in order. */
  function LeftRows(lefts: seq<Record>, rights: seq<Record>, scored: (Record, Record) -> Scored): (rows: seq<Outcome>)
    ensures |rows| == |lefts|
  {
    var cs := Choices(lefts, rights, scored, {});
    seq(|lefts|, i requires 0 <= i < |lefts| => LeftOutcome(lefts[i], rights, scored, cs[i]))
  }

  /** One row per right row that no left row consumed, in index order. */
  function RightRows(lefts: seq<Record>, rights: seq<Record>, scored: (Record, Record) -> Scored): (rows: seq<Outcome>)
    ensures forall k :: 0 <= k < |rows| ==> rows[k].left == [] && !rows[k].isReconciled && rows[k].confidence == 0
  {
    var rest := RuleMatcher.Leftover(rights, Consumed(lefts, rights, scored, {}));
    seq(|rest|, k requires 0 <= k < |rest| => RightOutcome(rights[rest[k]]))
  }

  /** The report for any scoring function: the left rows, then the unconsumed right rows. */
  function ReportOf(lefts: seq<Record>, rights: seq<Record>, scored: (Record, Record) -> Scored): seq<Outcome> {
    LeftRows(lefts, rights, scored) + RightRows(lefts, rights, scored)
  }

  /** Row `i` of the left part, with the facts the greedy loop gives about it. */
  lemma LeftRow(lefts: seq<Record>, rights: seq<Record>, scored: (Record, Record) -> Scored, i: nat)
    requires i < |lefts|
    ensures var b := Choices(lefts, rights, scored, {})[i];
      var row := LeftRows(lefts, rights, scored)[i];
      row == LeftOutcome(lefts[i], rights, scored, b) &&
      row.isReconciled == Reconciled(lefts, rights, scored, {})[i] &&
      (b.Some? ==> scored(lefts[i], rights[b.value]).score > 50)
  {
    ChoicesAreBest(lefts, rights, scored, {}, i);
  }

  /** The number of unconsumed right rows. */
  lemma RightRowsSize(lefts: seq<Record>, rights: seq<Record>, scored: (Record, Record) -> Scored)
    ensures |RightRows(lefts, rights, scored)| == |rights| - CountTrue(Reconciled(lefts, rights, scored, {}))
  {
    var used := Consumed(lefts, rights, scored, {});
    ConsumedSize(lefts, rights, scored, {});
    ExceptRangeSize(|rights|, used);
  }

  /** There are |lefts| + |rights| rows less one per reconciled left row. */
  lemma ReportSize(lefts: seq<Record>, rights: seq<Record>, scored: (Record, Record) -> Scored)
    ensures |ReportOf(lefts, rights, scored)| == |lefts| + |rights| - CountTrue(Reconciled(lefts, rights, scored, {}))
  {
    RightRowsSize(lefts, rights, scored);
  }

  /**
    Row `i < |lefts|` of the report is left row `i`, reconciled exactly when it
    consumed its candidate, with confidence min(score, 100) of the kept
    candidate or 0; a kept candidate always carries banded reasoning and a
    confidence above 50.
   */
  lemma ReportLeftRow(lefts: seq<Record>, rights: seq<Record>, scored: (Record, Record) -> Scored, i: nat)
    requires i < |lefts|
    ensures var row := ReportOf(lefts, rights, scored)[i];
      var b := Choices(lefts, rights, scored, {})[i];
      row.left == lefts[i] &&
      row.isReconciled == Reconciled(lefts, rights, scored, {})[i] &&
      row.confidence == (if b.Some? then Min(scored(lefts[i], rights[b.value]).score, 100) else 0) &&
      (row.right.Some? ==> !row.reasoning.LowConfidence? && !row.reasoning.NoSuitableMatch? && row.confidence > 50) &&
      (row.right.None? ==> row.reasoning.NoSuitableMatch? && !row.isReconciled)
  {
    var ls := LeftRows(lefts, rights, scored);
    var rs := RightRows(lefts, rights, scored);
    assert ReportOf(lefts, rights, scored)[i] == ls[i];
    LeftRow(lefts, rights, scored, i);
  }

  /** Rows after the left rows are unconsumed right rows: empty left side, not reconciled, confidence 0. */
  lemma ReportRightRow(lefts: seq<Record>, rights: seq<Record>, scored: (Record, Record) -> Scored, i: nat)
    requires |lefts| <= i < |ReportOf(lefts, rights, scored)|
    ensures var row := ReportOf(lefts, rights, scored)[i];
      var k := i - |lefts|;
      var rest := RuleMatcher.Leftover(rights, Consumed(lefts, rights, scored, {}));
      row.left == [] && !row.isReconciled && row.confidence == 0 && row.reasoning.UnmatchedRight? &&
      k < |rest| && row.right == Some(rights[rest[k]]) &&
      Increasing(rest) && forall j: nat :: j in rest <==> j < |rights| && j !in Consumed(lefts, rights, scored, {})
  {
    var ls := LeftRows(lefts, rights, scored);
    var rs := RightRows(lefts, rights, scored);
    assert ReportOf(lefts, rights, scored)[i] == rs[i - |lefts|];
  }

  /** The scoring function of a request. */
  function Scorer(rules: seq<MatchingRule>, numText: real -> string, dayOf: Value -> Option<real>): (Record, Record) -> Scored {
    (l: Record, r: Record) => Score(rules, l, r, numText, dayOf)
  }

  /** `enhancedFallbackReconciliation` on a request's documents and rules. */
  function Reconcile(lefts: seq<Record>, rights: seq<Record>, rules: seq<MatchingRule>,
                     numText: real -> string, dayOf: Value -> Option<real>): seq<Outcome> {
    ReportOf(lefts, rights, Scorer(rules, numText, dayOf))
  }

  /**
    Left row `i` keeps the first right row with the highest score above 50
    among those earlier left rows did not consume, and none when every such
    score is at most 50.
   */
  lemma ReportBest(lefts: seq<Record>, rights: seq<Record>, scored: (Record, Record) -> Scored, i: nat) returns (j: nat)
    requires i < |lefts|
    ensures var taken := Consumed(lefts[..i], rights, scored, {});
      var row := ReportOf(lefts, rights, scored)[i];
      (row.right.None? ==>
        forall k :: 0 <= k < |rights| && k !in taken ==> scored(lefts[i], rights[k]).score <= 50) &&
      (row.right.Some? ==>
        j < |rights| && j !in taken && row.right == Some(rights[j]) &&
        scored(lefts[i], rights[j]).score > 50 &&
        (forall k :: 0 <= k < |rights| && k !in taken ==> scored(lefts[i], rights[k]).score <= scored(lefts[i], rights[j]).score) &&
        (forall k :: 0 <= k < j && k !in taken ==> scored(lefts[i], rights[k]).score < scored(lefts[i], rights[j]).score))
  {
    var taken := Consumed(lefts[..i], rights, scored, {});
    ChoicesAreBest(lefts, rights, scored, {}, i);
    LeftRow(lefts, rights, scored, i);
    var b := Choices(lefts, rights, scored, {})[i];
    var row := ReportOf(lefts, rights, scored)[i];
    assert row == LeftOutcome(lefts[i], rights, scored, b) by {
      assert row == LeftRows(lefts, rights, scored)[i];
    }
    assert b == BestUpTo(lefts[i], rights, scored, taken, |rights|);
    j := if b.Some? then b.value else 0;
  }

  /** The same, for the scoring function of a request. */
  lemma ReconcileBest(lefts: seq<Record>, rights: seq<Record>, rules: seq<MatchingRule>,
                      numText: real -> string, dayOf: Value -> Option<real>, i: nat) returns (j: nat)
    requires i < |lefts|
    ensures var taken := Consumed(lefts[..i], rights, Scorer(rules, numText, dayOf), {});
      var row := Reconcile(lefts, rights, rules, numText, dayOf)[i];
      (row.right.None? ==>
        forall k :: 0 <= k < |rights| && k !in taken ==> Score(rules, lefts[i], rights[k], numText, dayOf).score <= 50) &&
      (row.right.Some? ==>
        j < |rights| && j !in taken && row.right == Some(rights[j]) &&
        Score(rules, lefts[i], rights[j], numText, dayOf).score > 50 &&
        (forall k :: 0 <= k < |rights| && k !in taken ==>
          Score(rules, lefts[i], rights[k], numText, dayOf).score <= Score(rules, lefts[i], rights[j], numText, dayOf).score) &&
        (forall k :: 0 <= k < j && k !in taken ==>
          Score(rules, lefts[i], rights[k], numText, dayOf).score < Score(rules, lefts[i], rights[j], numText, dayOf).score))
  {
    var scored := Scorer(rules, numText, dayOf);
    j := ReportBest(lefts, rights, scored, i);
    forall k | 0 <= k < |rights|
      ensures scored(lefts[i], rights[k]) == Score(rules, lefts[i], rights[k], numText, dayOf)
    {
    }
  }

  /** The summary of a report: counts from `isReconciled`, mean of the confidences. */
  function SummaryOf(out: seq<Outcome>): (s: Summary)
    ensures s.totalTransactions == |out|
    ensures s.reconciledCount + s.unreconciledCount == |out|
    ensures s.reconciledCount == CountTrue(seq(|out|, i requires 0 <= i < |out| => out[i].isReconciled))
  {
    Summarize(seq(|out|, i requires 0 <= i < |out| => out[i].isReconciled),
              seq(|out|, i requires 0 <= i < |out| => out[i].confidence as real))
  }

  /**
    The summary of the heuristic report counts one reconciled row per
    consumed right row, and its total is |lefts| + |rights| less that count.
   */
  lemma ReportSummary(lefts: seq<Record>, rights: seq<Record>, scored: (Record, Record) -> Scored)
    ensures SummaryOf(ReportOf(lefts, rights, scored)).reconciledCount == CountTrue(Reconciled(lefts, rights, scored, {}))
    ensures SummaryOf(ReportOf(lefts, rights, scored)).totalTransactions ==
      |lefts| + |rights| - CountTrue(Reconciled(lefts, rights, scored, {}))
    ensures 0.0 <= SummaryOf(ReportOf(lefts, rights, scored)).confidenceScore <= 100.0
  {
    ReportSize(lefts, rights, scored);
    ReportReconciledCount(lefts, rights, scored);
    ReportConfidence(lefts, rights, scored);
  }

  /** Only left rows are reconciled, so the report's reconciled rows are the consumed right rows. */
  lemma ReportReconciledCount(lefts: seq<Record>, rights: seq<Record>, scored: (Record, Record) -> Scored)
    ensures SummaryOf(ReportOf(lefts, rights, scored)).reconciledCount == CountTrue(Reconciled(lefts, rights, scored, {}))
  {
    var out := ReportOf(lefts, rights, scored);
    var ls := LeftRows(lefts, rights, scored);
    var rs := RightRows(lefts, rights, scored);
    ReportSize(lefts, rights, scored);
    forall i | 0 <= i < |lefts|
      ensures out[i].isReconciled == Reconciled(lefts, rights, scored, {})[i]
    {
      ReportLeftRow(lefts, rights, scored, i);
    }
    var flags := seq(|out|, i requires 0 <= i < |out| => out[i].isReconciled);
    var lf := seq(|ls|, i requires 0 <= i < |ls| => ls[i].isReconciled);
    var rf := seq(|rs|, i requires 0 <= i < |rs| => rs[i].isReconciled);
    assert out == ls + rs;
    assert flags == lf + rf;
    assert lf == Reconciled(lefts, rights, scored, {});
    assert forall i :: 0 <= i < |rs| ==> !rf[i];
    CountTrueAppend(lf, rf);
    CountTrueNone(rf);
  }

  /** Every confidence in the report is between 0 and 100, and so is their mean. */
  lemma ReportConfidence(lefts: seq<Record>, rights: seq<Record>, scored: (Record, Record) -> Scored)
    ensures 0.0 <= SummaryOf(ReportOf(lefts, rights, scored)).confidenceScore <= 100.0
  {
    var out := ReportOf(lefts, rights, scored);
    ReportSize(lefts, rights, scored);
    forall i | 0 <= i < |lefts|
      ensures 0 <= out[i].confidence <= 100
    {
      ReportLeftRow(lefts, rights, scored, i);
    }
    forall i | |lefts| <= i < |out|
      ensures out[i].confidence == 0
    {
      ReportRightRow(lefts, rights, scored, i);
    }
    var conf := seq(|out|, i requires 0 <= i < |out| => out[i].confidence as real);
    MeanBounds(seq(|out|, i requires 0 <= i < |out| => out[i].isReconciled), conf, 0.0, 100.0);
  }
}
