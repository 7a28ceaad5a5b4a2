/**
  The agent-side scorer `reconcile_financial_documents`: every left record is
  scored against every right record (right records are never consumed), the
  first right record with the strictly greatest score is kept when it reaches
  30 and reconciled when it reaches 50, and every right record is listed again
  afterwards as an unmatched payment. Python exceptions raised by unexpected
  cell types end the whole call and are modelled as `Failure`.
 */
module Agent {
  import opened Wrappers
  import opened Text
  import opened Values
  import opened Summaries

  /** The exceptions the scorer can raise on unexpected cell types. */
  datatype PyError = ValueError | TypeError | AttributeError

  /** `float(v)` on a truthy cell: text must be a decimal literal after stripping. */
  function PyFloat(v: Value): Result<real, PyError> {
    match v
    case Num(n) => Success(n)
    case Bool(b) => Success(if b then 1.0 else 0.0)
    case Null => Failure(TypeError)
    case Str(s) =>
      match ParseDecimal(Trim(s))
      case Some(x) => Success(x)
      case None => Failure(ValueError)
  }

  /** `float(r.get('Amount', 0)) if r.get('Amount') else 0`. */
  function AmountOf(r: Record): (a: Result<real, PyError>)
    ensures !Truthy(Get(r, "Amount")) ==> a == Success(0.0)
    ensures Get(r, "Amount").Some? && Get(r, "Amount").value.Num? ==> a == Success(Get(r, "Amount").value.n)
    ensures a.Failure? ==> Get(r, "Amount").Some? && Get(r, "Amount").value.Str?
    ensures Truthy(Get(r, "Amount")) && Get(r, "Amount").value.Str? ==>
      match ParseDecimal(Trim(Get(r, "Amount").value.s))
      case Some(x) => a == Success(x)
      case None => a == Failure(ValueError)
    ensures Get(r, "Amount") == Some(Bool(true)) ==> a == Success(1.0)
  {
    var v := Get(r, "Amount");
    if Truthy(v) then PyFloat(v.value) else Success(0.0)
  }

  /** `str(r.get('Rest ID', '')).strip()`; Python's number formatting is the parameter `pyNumText`. */
  function RestId(r: Record, pyNumText: real -> string): string {
    Trim(PyString(Get(r, "Rest ID").GetOr(Str("")), pyNumText))
  }

  /** The longest run of digits at the start of `s`. */
  function DigitRun(s: string): (d: string)
    ensures |d| <= |s| && d == s[..|d|] && AllDigits(d)
    ensures |d| == |s| || !IsDigit(s[|d|])
  {
    if |s| > 0 && IsDigit(s[0]) then [s[0]] + DigitRun(s[1..]) else []
  }

  /**
    `re.search(r'#(\d+)', s).group(1)`: the digits after the first `#` that is
    followed by a digit, or `None` when no `#` is followed by a digit.
   */
  function StoreNumber(s: string): (n: Option<string>)
    ensures n.Some? ==> |n.value| > 0 && AllDigits(n.value) && Contains(s, "#" + n.value)
    ensures n.None? ==> forall i :: 0 <= i < |s| - 1 && s[i] == '#' ==> !IsDigit(s[i + 1])
    decreases |s|
  {
    if |s| < 2 then None
    else if s[0] == '#' && IsDigit(s[1]) then
      var d := DigitRun(s[1..]);
      assert s[..|d| + 1] == "#" + d;
      Some(d)
    else
      var rest := StoreNumber(s[1..]);
      assert forall i :: 1 <= i < |s| ==> s[i] == s[1..][i - 1];
      rest
  }

  /** A `#` directly followed by a digit starts at `i`. */
  predicate HashDigitAt(s: string, i: nat) {
    i + 1 < |s| && s[i] == '#' && IsDigit(s[i + 1])
  }

  /**
    The store number is read at the first `#` followed by a digit, and is the
    whole run of digits after it.
   */
  lemma {:induction false} StoreNumberFirst(s: string) returns (i: nat)
    ensures StoreNumber(s).Some? ==>
      HashDigitAt(s, i) && (forall k: nat :: k < i ==> !HashDigitAt(s, k)) &&
      StoreNumber(s).value == DigitRun(s[i + 1..])
    ensures StoreNumber(s).None? <==> forall k: nat :: !HashDigitAt(s, k)
    decreases |s|
  {
    if |s| < 2 {
      i := 0;
    } else if s[0] == '#' && IsDigit(s[1]) {
      i := 0;
    } else {
      var i' := StoreNumberFirst(s[1..]);
      i := i' + 1;
      forall k: nat
        ensures k > 0 ==> (HashDigitAt(s, k) <==> HashDigitAt(s[1..], k - 1))
      {
      }
      assert !HashDigitAt(s, 0);
      if StoreNumber(s).Some? {
        assert s[1..][i' + 1..] == s[i + 1..];
      } else {
        forall k: nat
          ensures !HashDigitAt(s, k)
        {
          if k > 0 {
            assert !HashDigitAt(s[1..], k - 1);
          }
        }
      }
    }
  }

  /** What the scorer reads from a left record before its inner loop. */
  datatype LeftFacts = LeftFacts(amount: real, month: Value, restId: string)

  function LeftFactsOf(l: Record, pyNumText: real -> string): Result<LeftFacts, PyError> {
    var a :- AmountOf(l);
    Success(LeftFacts(a, Get(l, "Month").GetOr(Str("")), RestId(l, pyNumText)))
  }

  /**
    `rest_id_in_description`: equality of the two Rest IDs when both are
    non-empty; otherwise, for a non-empty left Rest ID and a truthy
    description, equality with the description's store number, or a substring
    test when it has none. A truthy non-text description raises `TypeError`.
   */
  function RestIdMentioned(leftRest: string, rightRest: string, desc: Value): Result<bool, PyError> {
    if |leftRest| > 0 && |rightRest| > 0 then Success(leftRest == rightRest)
    else if |leftRest| > 0 && Truthy(Some(desc)) then
      if !desc.Str? then Failure(TypeError)
      else
        match StoreNumber(desc.s)
        case Some(n) => Success(leftRest == n)
        case None => Success(Contains(desc.s, leftRest))
    else Success(false)
  }

  /** The `match_factors` entries, one per scoring rule that fired. */
  datatype Factor =
    | PerfectMatch | RestIdCloseAmount | RestIdDifferentAmount | ExactAmountOnly
    | CloseAmount | SimilarAmounts
    | RestIdStrong | RestIdUnique | RestIdFound
    | MonthMatch | DeliveryIdentified | RestaurantIdentified | DeliveryTypeMatch

  datatype Points = Points(score: real, factors: seq<Factor>)

  const NoPoints := Points(0.0, [])

  function Add(a: Points, b: Points): Points {
    Points(a.score + b.score, a.factors + b.factors)
  }

  predicate BothPositive(la: real, ra: real) {
    la > 0.0 && ra > 0.0
  }

  /**
    `abs(l - r) / max(l, r) <= t` for two positive amounts, written without
    the division (the divisor is positive).
   */
  predicate RatioAtMost(la: real, ra: real, t: real)
    requires BothPositive(la, ra)
  {
    Abs(la - ra) <= t * Max(la, ra)
  }

  /** The division-free test agrees with the ratio the source computes. */
  lemma RatioAtMostMeans(la: real, ra: real, t: real)
    requires BothPositive(la, ra)
    ensures RatioAtMost(la, ra, t) <==> Abs(la - ra) / Max(la, ra) <= t
  {
    var m := Max(la, ra);
    var q := Abs(la - ra) / m;
    assert q * m == Abs(la - ra);
    if q <= t {
      assert q * m <= t * m;
    } else {
      assert q * m > t * m;
    }
  }

  predicate ExactAmount(la: real, ra: real) {
    BothPositive(la, ra) && Abs(la - ra) <= 0.01
  }

  predicate ExactRestId(leftRest: string, rightRest: string) {
    |leftRest| > 0 && |rightRest| > 0 && leftRest == rightRest
  }

  /** The additive amount score used when neither exact case applies. */
  function AmountPoints(la: real, ra: real): Points {
    if BothPositive(la, ra) then
      if RatioAtMost(la, ra, 0.05) then Points(30.0, [CloseAmount])
      else if RatioAtMost(la, ra, 0.15) then Points(15.0, [SimilarAmounts])
      else NoPoints
    else NoPoints
  }

  /** The boost for a Rest ID found in the description but not equal to the right Rest ID. */
  function MentionPoints(la: real, ra: real, exactRest: bool, mentioned: bool): Points {
    if mentioned && !exactRest then
      if BothPositive(la, ra) then
        if RatioAtMost(la, ra, 0.15) then Points(50.0, [RestIdStrong])
        else if RatioAtMost(la, ra, 0.50) then Points(35.0, [RestIdUnique])
        else Points(25.0, [RestIdFound])
      else Points(25.0, [RestIdFound])
    else NoPoints
  }

  /** The base score: the four fixed cases, else the additive amount and Rest ID scores. */
  function Base(la: real, ra: real, exactRest: bool, mentioned: bool): Points {
    if ExactAmount(la, ra) && exactRest then Points(100.0, [PerfectMatch])
    else if exactRest && BothPositive(la, ra) then
      if RatioAtMost(la, ra, 0.05) then Points(90.0, [RestIdCloseAmount]) else Points(75.0, [RestIdDifferentAmount])
    else if ExactAmount(la, ra) then Points(70.0, [ExactAmountOnly])
    else Add(AmountPoints(la, ra), MentionPoints(la, ra, exactRest, mentioned))
  }

  /**
    The fixed cases of the base score: exact amount with exact Rest ID is 100;
    exact Rest ID alone is 90 or 75 by the 5% ratio; exact amount alone is 70;
    anything else adds at most 30 + 50.
   */
  lemma BaseCases(la: real, ra: real, exactRest: bool, mentioned: bool)
    ensures ExactAmount(la, ra) && exactRest ==> Base(la, ra, exactRest, mentioned).score == 100.0
    ensures !ExactAmount(la, ra) && exactRest && BothPositive(la, ra) ==>
      Base(la, ra, exactRest, mentioned).score == (if RatioAtMost(la, ra, 0.05) then 90.0 else 75.0)
    ensures ExactAmount(la, ra) && !exactRest ==> Base(la, ra, exactRest, mentioned).score == 70.0
  {
  }

  /** The additive case adds at most 30 + 50, so every base score lies in [0, 100]. */
  lemma BaseBounds(la: real, ra: real, exactRest: bool, mentioned: bool)
    ensures !ExactAmount(la, ra) && !(exactRest && BothPositive(la, ra)) ==>
      0.0 <= Base(la, ra, exactRest, mentioned).score <= 80.0
    ensures 0.0 <= Base(la, ra, exactRest, mentioned).score <= 100.0
  {
  }

  /** Month bonus: the left `Month` text found in the right `Date` text, ignoring case. */
  function MonthPoints(month: Value, date: Value): Result<Points, PyError> {
    if Truthy(Some(month)) && Truthy(Some(date)) then
      if !month.Str? || !date.Str? then Failure(AttributeError)
      else if Contains(Lower(date.s), Lower(month.s)) then Success(Points(20.0, [MonthMatch]))
      else Success(NoPoints)
    else Success(NoPoints)
  }

  const DeliveryKeywords: seq<string> := ["uber", "doordash", "grubhub", "delivery", "eats", "restaurant"]
  const RestaurantKeywords: seq<string> := ["starbucks", "mcdonald", "pizza", "cafe", "restaurant"]

  /** `any(k in text for k in words)`. */
  predicate AnyIn(words: seq<string>, text: string) {
    exists i :: 0 <= i < |words| && Contains(text, words[i])
  }

  /** Description bonuses: +15 for a delivery keyword and +10 for a restaurant keyword. */
  function DescriptionPoints(desc: Value): Result<Points, PyError> {
    if Truthy(Some(desc)) then
      if !desc.Str? then Failure(AttributeError)
      else
        var t := Lower(desc.s);
        Success(Add(if AnyIn(DeliveryKeywords, t) then Points(15.0, [DeliveryIdentified]) else NoPoints,
                    if AnyIn(RestaurantKeywords, t) then Points(10.0, [RestaurantIdentified]) else NoPoints))
    else Success(NoPoints)
  }

  /** Type bonus: `r.get('Type', '').lower() == '3rd party delivery'`; a non-text type raises. */
  function TypePoints(r: Record): Result<Points, PyError> {
    var t := Get(r, "Type").GetOr(Str(""));
    if !t.Str? then Failure(AttributeError)
    else if Lower(t.s) == "3rd party delivery" then Success(Points(10.0, [DeliveryTypeMatch]))
    else Success(NoPoints)
  }

  /** The inner loop body: a right record's score against the left facts, in evaluation order. */
  function ScorePair(lf: LeftFacts, r: Record, pyNumText: real -> string): Result<Points, PyError> {
    var ra :- AmountOf(r);
    var desc := Get(r, "Description").GetOr(Str(""));
    var date := Get(r, "Date").GetOr(Str(""));
    var rightRest := RestId(r, pyNumText);
    var mentioned :- RestIdMentioned(lf.restId, rightRest, desc);
    var base := Base(lf.amount, ra, ExactRestId(lf.restId, rightRest), mentioned);
    var month :- MonthPoints(lf.month, date);
    var described :- DescriptionPoints(desc);
    var typed :- TypePoints(r);
    Success(Add(Add(Add(base, month), described), typed))
  }

  /**
    A score is its base plus bonuses of at most 20 + 25 + 10, and the bonuses
    are added after the fixed cases, so scores are not capped at 100.
   */
  lemma ScoreParts(lf: LeftFacts, r: Record, pyNumText: real -> string)
    requires ScorePair(lf, r, pyNumText).Success?
    ensures var ra := AmountOf(r).value;
      var rightRest := RestId(r, pyNumText);
      var mentioned := RestIdMentioned(lf.restId, rightRest, Get(r, "Description").GetOr(Str(""))).value;
      var base := Base(lf.amount, ra, ExactRestId(lf.restId, rightRest), mentioned).score;
      var s := ScorePair(lf, r, pyNumText).value.score;
      base <= s <= base + 55.0 &&
      (MonthPoints(lf.month, Get(r, "Date").GetOr(Str(""))) == Success(Points(20.0, [MonthMatch])) ==> s >= base + 20.0)
    ensures 0.0 <= ScorePair(lf, r, pyNumText).value.score <= 155.0
  {
    var ra := AmountOf(r).value;
    var rightRest := RestId(r, pyNumText);
    var desc := Get(r, "Description").GetOr(Str(""));
    var mentioned := RestIdMentioned(lf.restId, rightRest, desc).value;
    var base := Base(lf.amount, ra, ExactRestId(lf.restId, rightRest), mentioned);
    BaseBounds(lf.amount, ra, ExactRestId(lf.restId, rightRest), mentioned);
    var month := MonthPoints(lf.month, Get(r, "Date").GetOr(Str(""))).value;
    var described := DescriptionPoints(desc).value;
    var typed := TypePoints(r).value;
    BonusBounds(lf.month, Get(r, "Date").GetOr(Str("")), desc, r);
    assert ScorePair(lf, r, pyNumText).value.score == base.score + month.score + described.score + typed.score;
  }

  /** The bonuses are never negative and at most 20, 25 and 10. */
  lemma BonusBounds(month: Value, date: Value, desc: Value, r: Record)
    ensures MonthPoints(month, date).Success? ==> 0.0 <= MonthPoints(month, date).value.score <= 20.0
    ensures DescriptionPoints(desc).Success? ==> 0.0 <= DescriptionPoints(desc).value.score <= 25.0
    ensures TypePoints(r).Success? ==> 0.0 <= TypePoints(r).value.score <= 10.0
  {
  }

  /** A right record's score against fixed left facts. */
  function Scorer(lf: LeftFacts, pyNumText: real -> string): Record -> Result<Points, PyError> {
    r => ScorePair(lf, r, pyNumText)
  }

  /** The inner loop: the scores of every right record, or the first exception. */
  function ScoreAll(score: Record -> Result<Points, PyError>, rights: seq<Record>): (rs: Result<seq<Points>, PyError>)
    ensures rs.Success? ==> |rs.value| == |rights|
    ensures rs.Success? ==> forall j :: 0 <= j < |rights| ==> score(rights[j]) == Success(rs.value[j])
    ensures rs.Failure? ==> exists j :: 0 <= j < |rights| && score(rights[j]).Failure?
  {
    if |rights| == 0 then Success([])
    else
      var p :- score(rights[0]);
      var rest :- ScoreAll(score, rights[1..]);
      assert forall j :: 1 <= j < |rights| ==> rights[j] == rights[1..][j - 1];
      Success([p] + rest)
  }

  /**
    The running best over the first `n` scores: replaced only by a strictly
    greater score, starting from 0.
   */
  function BestUpTo(scores: seq<real>, n: nat): (b: Option<nat>)
    requires n <= |scores|
    ensures b.Some? ==> b.value < n && scores[b.value] > 0.0
    ensures b.Some? ==> forall k :: 0 <= k < n ==> scores[k] <= scores[b.value]
    ensures b.Some? ==> forall k :: 0 <= k < b.value ==> scores[k] < scores[b.value]
    ensures b.None? ==> forall k :: 0 <= k < n ==> scores[k] <= 0.0
  {
    if n == 0 then None
    else
      var b := BestUpTo(scores, n - 1);
      var best := if b.Some? then scores[b.value] else 0.0;
      if scores[n - 1] > best then Some(n - 1) else b
  }

  function Best(scores: seq<real>): Option<nat> {
    BestUpTo(scores, |scores|)
  }

  /** The reasoning band of a recorded match, and the two fixed texts. */
  datatype Band = Perfect | HighConfidence | ModerateConfidence | LowConfidence | NoMatch | UnmatchedPayment

  function BandOf(c: real): Band {
    if c >= 100.0 then Perfect
    else if c >= 70.0 then HighConfidence
    else if c >= 50.0 then ModerateConfidence
    else LowConfidence
  }

  /** One result entry; `None` is Python's `None` for a missing side. */
  datatype Outcome = Outcome(left: Option<Record>, right: Option<Record>, isReconciled: bool,
                             matchedFields: seq<Factor>, confidence: real, band: Band)

  function Scores(ps: seq<Points>): (ss: seq<real>)
    ensures |ss| == |ps| && forall k :: 0 <= k < |ps| ==> ss[k] == ps[k].score
  {
    seq(|ps|, k requires 0 <= k < |ps| => ps[k].score)
  }

  /** The result entry of left record `i`. */
  function LeftResult(i: nat, l: Record, rights: seq<Record>, pyNumText: real -> string): Result<Outcome, PyError> {
    var lf :- LeftFactsOf(l, pyNumText);
    var ps :- ScoreAll(Scorer(lf, pyNumText), rights);
    var ss := Scores(ps);
    var none := Outcome(Some(Tagged("left", i, l)), None, false, [], 0.0, NoMatch);
    match Best(ss)
    case None => Success(none)
    case Some(j) =>
      if ss[j] >= 30.0 then
        Success(Outcome(Some(Tagged("left", i, l)), Some(Tagged("right", j, rights[j])), ss[j] >= 50.0,
                        ps[j].factors, ss[j], BandOf(ss[j])))
      else Success(none)
  }

  /** The entry of left record `i`, for fixed right records. */
  function Entry(rights: seq<Record>, pyNumText: real -> string): (nat, Record) -> Result<Outcome, PyError> {
    (i: nat, l: Record) => LeftResult(i, l, rights, pyNumText)
  }

  /** The first pass, for left records `start`, `start + 1`, ... */
  function Entries(entry: (nat, Record) -> Result<Outcome, PyError>, lefts: seq<Record>, start: nat): (rs: Result<seq<Outcome>, PyError>)
    ensures rs.Success? ==> |rs.value| == |lefts|
    ensures rs.Success? ==> forall i :: 0 <= i < |lefts| ==> entry(start + i, lefts[i]) == Success(rs.value[i])
    ensures rs.Failure? ==> exists i :: 0 <= i < |lefts| && entry(start + i, lefts[i]).Failure?
  {
    if |lefts| == 0 then Success([])
    else
      var o :- entry(start, lefts[0]);
      var rest :- Entries(entry, lefts[1..], start + 1);
      assert forall i :: 1 <= i < |lefts| ==> lefts[i] == lefts[1..][i - 1] && start + i == (start + 1) + (i - 1);
      Success([o] + rest)
  }

  /** The second pass: no right index is ever consumed, so every right record is listed. */
  function RightResults(rights: seq<Record>): (rs: seq<Outcome>)
    ensures |rs| == |rights|
  {
    seq(|rights|, j requires 0 <= j < |rights| =>
      Outcome(None, Some(Tagged("right", j, rights[j])), false, [], 0.0, UnmatchedPayment))
  }

  function SummaryOf(out: seq<Outcome>): Summary {
    Summarize(seq(|out|, i requires 0 <= i < |out| => out[i].isReconciled),
              seq(|out|, i requires 0 <= i < |out| => out[i].confidence))
  }

  datatype Response = Response(results: seq<Outcome>, summary: Summary)

  /** `reconcile_financial_documents`. */
  function Reconcile(lefts: seq<Record>, rights: seq<Record>, pyNumText: real -> string): Result<Response, PyError> {
    if |lefts| == 0 && |rights| == 0 then Success(Response([], Zero))
    else
      var ls :- Entries(Entry(rights, pyNumText), lefts, 0);
      var out := ls + RightResults(rights);
      Success(Response(out, SummaryOf(out)))
  }

  /** With both inputs empty there are no results and every total is 0. */
  lemma EmptyInputs(pyNumText: real -> string)
    ensures Reconcile([], [], pyNumText) == Success(Response([], Zero))
    ensures Zero.totalTransactions == 0 && Zero.reconciledCount == 0 && Zero.unreconciledCount == 0
  {
  }

  /** The call fails exactly when some left record's entry raises. */
  lemma ReconcileFails(lefts: seq<Record>, rights: seq<Record>, pyNumText: real -> string)
    ensures Reconcile(lefts, rights, pyNumText).Failure? <==>
      exists i :: 0 <= i < |lefts| && LeftResult(i, lefts[i], rights, pyNumText).Failure?
  {
    var entry := Entry(rights, pyNumText);
    var r := Entries(entry, lefts, 0);
    if r.Success? {
      forall i | 0 <= i < |lefts|
        ensures LeftResult(i, lefts[i], rights, pyNumText).Success?
      {
        assert entry(0 + i, lefts[i]) == Success(r.value[i]);
      }
    } else {
      var i :| 0 <= i < |lefts| && entry(0 + i, lefts[i]).Failure?;
      assert LeftResult(i, lefts[i], rights, pyNumText).Failure?;
    }
  }

  /**
    On success there is one entry per left record in order, tagged `left-i`,
    and then one unmatched entry per right record in order, tagged `right-j`:
    |lefts| + |rights| entries in all.
   */
  lemma ReconcileShape(lefts: seq<Record>, rights: seq<Record>, pyNumText: real -> string)
    requires Reconcile(lefts, rights, pyNumText).Success?
    ensures var out := Reconcile(lefts, rights, pyNumText).value.results;
      |out| == |lefts| + |rights| &&
      (forall i :: 0 <= i < |lefts| ==>
        Success(out[i]) == LeftResult(i, lefts[i], rights, pyNumText) && out[i].left == Some(Tagged("left", i, lefts[i]))) &&
      (forall j :: 0 <= j < |rights| ==>
        var o := out[|lefts| + j];
        o.left.None? && o.right == Some(Tagged("right", j, rights[j])) && !o.isReconciled && o.confidence == 0.0)
  {
    if |lefts| > 0 || |rights| > 0 {
      var entry := Entry(rights, pyNumText);
      var ls := Entries(entry, lefts, 0).value;
      var rs := RightResults(rights);
      var out := ls + rs;
      assert forall i :: 0 <= i < |lefts| ==> out[i] == ls[i];
      assert forall j :: 0 <= j < |rights| ==> out[|lefts| + j] == rs[j];
      forall i | 0 <= i < |lefts|
        ensures Success(ls[i]) == LeftResult(i, lefts[i], rights, pyNumText)
        ensures ls[i].left == Some(Tagged("left", i, lefts[i]))
      {
        assert entry(0 + i, lefts[i]) == Success(ls[i]);
        LeftResultTag(i, lefts[i], rights, pyNumText);
      }
    }
  }

  lemma LeftResultTag(i: nat, l: Record, rights: seq<Record>, pyNumText: real -> string)
    requires LeftResult(i, l, rights, pyNumText).Success?
    ensures LeftResult(i, l, rights, pyNumText).value.left == Some(Tagged("left", i, l))
  {
  }

  /**
    A left entry keeps the first right record with the strictly greatest score
    when that score is at least 30 (with confidence the uncapped score), and is
    reconciled exactly when the score is at least 50; otherwise it has no
    right side and confidence 0.
   */
  lemma LeftResultSpec(i: nat, l: Record, rights: seq<Record>, pyNumText: real -> string) returns (j: nat)
    requires LeftResult(i, l, rights, pyNumText).Success?
    ensures var o := LeftResult(i, l, rights, pyNumText).value;
      var lf := LeftFactsOf(l, pyNumText).value;
      LeftFactsOf(l, pyNumText).Success? &&
      (forall k :: 0 <= k < |rights| ==> ScorePair(lf, rights[k], pyNumText).Success?) &&
      (o.right.None? ==>
        !o.isReconciled && o.confidence == 0.0 && o.band == NoMatch &&
        forall k :: 0 <= k < |rights| ==> ScorePair(lf, rights[k], pyNumText).value.score < 30.0) &&
      (o.right.Some? ==>
        j < |rights| && o.right == Some(Tagged("right", j, rights[j])) &&
        o.confidence == ScorePair(lf, rights[j], pyNumText).value.score && o.confidence >= 30.0 &&
        (o.isReconciled <==> o.confidence >= 50.0) &&
        (forall k :: 0 <= k < |rights| ==> ScorePair(lf, rights[k], pyNumText).value.score <= o.confidence) &&
        (forall k :: 0 <= k < j ==> ScorePair(lf, rights[k], pyNumText).value.score < o.confidence))
  {
    var lf := LeftFactsOf(l, pyNumText).value;
    var ps := ScoreAll(Scorer(lf, pyNumText), rights).value;
    var ss := Scores(ps);
    PairScores(lf, rights, pyNumText);
    var o := LeftResult(i, l, rights, pyNumText).value;
    if o.right.Some? {
      j := LeftResultMatch(i, l, rights, pyNumText);
    } else {
      j := 0;
      match Best(ss)
      case None =>
      case Some(b) =>
        assert ss[b] < 30.0;
        assert forall k :: 0 <= k < |rights| ==> ss[k] <= ss[b];
    }
  }

  /** On success every right record was scored, with the scores the score list holds. */
  lemma PairScores(lf: LeftFacts, rights: seq<Record>, pyNumText: real -> string)
    requires ScoreAll(Scorer(lf, pyNumText), rights).Success?
    ensures var ps := ScoreAll(Scorer(lf, pyNumText), rights).value;
      forall k :: 0 <= k < |rights| ==> ScorePair(lf, rights[k], pyNumText) == Success(ps[k])
  {
    var ps := ScoreAll(Scorer(lf, pyNumText), rights).value;
    assert forall k :: 0 <= k < |rights| ==> Scorer(lf, pyNumText)(rights[k]) == Success(ps[k]);
  }

  /** The matched right record of a left entry, with the facts that single it out. */
  lemma LeftResultMatch(i: nat, l: Record, rights: seq<Record>, pyNumText: real -> string) returns (j: nat)
    requires LeftResult(i, l, rights, pyNumText).Success? && LeftResult(i, l, rights, pyNumText).value.right.Some?
    ensures var o := LeftResult(i, l, rights, pyNumText).value;
      var lf := LeftFactsOf(l, pyNumText).value;
      LeftFactsOf(l, pyNumText).Success? &&
      j < |rights| && o.right == Some(Tagged("right", j, rights[j])) &&
      o.confidence == ScorePair(lf, rights[j], pyNumText).value.score && o.confidence >= 30.0 &&
      (o.isReconciled <==> o.confidence >= 50.0) &&
      (forall k :: 0 <= k < |rights| ==> ScorePair(lf, rights[k], pyNumText).value.score <= o.confidence) &&
      (forall k :: 0 <= k < j ==> ScorePair(lf, rights[k], pyNumText).value.score < o.confidence)
  {
    var lf := LeftFactsOf(l, pyNumText).value;
    var ps := ScoreAll(Scorer(lf, pyNumText), rights).value;
    var ss := Scores(ps);
    PairScores(lf, rights, pyNumText);
    var o := LeftResult(i, l, rights, pyNumText).value;
    j := Best(ss).value;
    assert Best(ss) == BestUpTo(ss, |ss|);
    assert o.right == Some(Tagged("right", j, rights[j])) && o.confidence == ss[j];
  }

  /**
    The summary counts reconciled entries and averages the confidences, which
    are never negative; with no rows at all it is zero.
   */
  lemma SummarySpec(lefts: seq<Record>, rights: seq<Record>, pyNumText: real -> string)
    requires Reconcile(lefts, rights, pyNumText).Success?
    ensures var r := Reconcile(lefts, rights, pyNumText).value;
      r.summary.totalTransactions == |r.results| == |lefts| + |rights| &&
      r.summary.reconciledCount + r.summary.unreconciledCount == r.summary.totalTransactions &&
      0.0 <= r.summary.confidenceScore <= 155.0
  {
    ReconcileShape(lefts, rights, pyNumText);
    var r := Reconcile(lefts, rights, pyNumText).value;
    if |lefts| > 0 || |rights| > 0 {
      var out := r.results;
      forall i | 0 <= i < |out|
        ensures 0.0 <= out[i].confidence <= 155.0
      {
        if i < |lefts| {
          var j := LeftResultSpec(i, lefts[i], rights, pyNumText);
          var o := out[i];
          if o.right.Some? {
            var lf := LeftFactsOf(lefts[i], pyNumText).value;
            ScoreParts(lf, rights[j], pyNumText);
          }
        } else {
          assert out[i] == out[|lefts| + (i - |lefts|)];
        }
      }
      MeanBounds(seq(|out|, i requires 0 <= i < |out| => out[i].isReconciled),
                 seq(|out|, i requires 0 <= i < |out| => out[i].confidence), 0.0, 155.0);
    }
  }

  /**
    The reconciled count is the number of reconciled left entries: the right
    entries appended after them are never reconciled.
   */
  lemma SummaryCount(lefts: seq<Record>, rights: seq<Record>, pyNumText: real -> string)
    requires Reconcile(lefts, rights, pyNumText).Success?
    ensures var r := Reconcile(lefts, rights, pyNumText).value;
      |r.results| == |lefts| + |rights| &&
      r.summary.reconciledCount == CountTrue(seq(|lefts|, i requires 0 <= i < |lefts| => r.results[i].isReconciled))
  {
    ReconcileShape(lefts, rights, pyNumText);
    var r := Reconcile(lefts, rights, pyNumText).value;
    var out := r.results;
    var flags := seq(|out|, i requires 0 <= i < |out| => out[i].isReconciled);
    var lf := seq(|lefts|, i requires 0 <= i < |lefts| => out[i].isReconciled);
    var rf := seq(|rights|, j requires 0 <= j < |rights| => out[|lefts| + j].isReconciled);
    assert flags == lf + rf;
    CountTrueAppend(lf, rf);
    CountTrueNone(rf);
  }
}
