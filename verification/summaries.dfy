/**
  The `summary` object both reconcilers attach to their results: how many
  rows there are, how many are reconciled, and the mean confidence.
 */
module Summaries {

  datatype Summary = Summary(totalTransactions: int, reconciledCount: int, unreconciledCount: int, confidenceScore: real)

  /** The summary reported when nothing could be reconciled at all. */
  const Zero := Summary(0, 0, 0, 0.0)

  function CountTrue(flags: seq<bool>): (n: nat)
    ensures n <= |flags|
  {
    if |flags| == 0 then 0 else (if flags[0] then 1 else 0) + CountTrue(flags[1..])
  }

  function Sum(xs: seq<real>): real {
    if |xs| == 0 then 0.0 else xs[0] + Sum(xs[1..])
  }

  /** Bounds on every term bound the total. */
  lemma {:induction false} SumBounds(xs: seq<real>, lo: real, hi: real)
    requires forall i :: 0 <= i < |xs| ==> lo <= xs[i] <= hi
    ensures |xs| as real * lo <= Sum(xs) <= |xs| as real * hi
  {
    if |xs| > 0 {
      SumBounds(xs[1..], lo, hi);
    }
  }

  /**
    `results.filter(r => r.isReconciled).length`, `results.length - reconciled`
    and the mean confidence, 0 for an empty result list.
   */
  function Summarize(reconciled: seq<bool>, confidence: seq<real>): (s: Summary)
    requires |reconciled| == |confidence|
    ensures s.totalTransactions == |reconciled|
    ensures s.reconciledCount + s.unreconciledCount == s.totalTransactions
    ensures s.reconciledCount == CountTrue(reconciled)
    ensures 0 <= s.reconciledCount <= s.totalTransactions
    ensures |reconciled| == 0 ==> s == Zero
  {
    var n := |reconciled|;
    var k := CountTrue(reconciled);
    Summary(n, k, n - k, if n > 0 then Sum(confidence) / n as real else 0.0)
  }

  /** The mean confidence lies within the bounds of the individual confidences. */
  lemma MeanBounds(reconciled: seq<bool>, confidence: seq<real>, lo: real, hi: real)
    requires |reconciled| == |confidence| && lo <= 0.0 <= hi
    requires forall i :: 0 <= i < |confidence| ==> lo <= confidence[i] <= hi
    ensures lo <= Summarize(reconciled, confidence).confidenceScore <= hi
  {
    var n := |confidence|;
    if n > 0 {
      SumBounds(confidence, lo, hi);
      var m := Sum(confidence) / n as real;
      assert m * n as real == Sum(confidence);
      assert lo * n as real <= m * n as real <= hi * n as real;
    }
  }

  /** Counting flags of a concatenation adds the counts. */
  lemma {:induction false} CountTrueAppend(a: seq<bool>, b: seq<bool>)
    ensures CountTrue(a + b) == CountTrue(a) + CountTrue(b)
  {
    if |a| > 0 {
      assert (a + b)[1..] == a[1..] + b;
      CountTrueAppend(a[1..], b);
    } else {
      assert a + b == b;
    }
  }

  lemma {:induction false} CountTrueNone(a: seq<bool>)
    requires forall i :: 0 <= i < |a| ==> !a[i]
    ensures CountTrue(a) == 0
  {
    if |a| > 0 {
      CountTrueNone(a[1..]);
    }
  }
}
