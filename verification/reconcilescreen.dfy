/**
  The reconciliation screen's pure logic: tagging each document's rows with
  an id, the table headers, the result tabs and their counts, and which
  results appear in the left and the right table.
 */
module ReconcileScreen {
  import opened Wrappers
  import opened Seqs
  import opened Values
  import RuleMatcher

  /**
    A document's rows tagged `prefix-i`. `dataSource` is None when it is
    missing or not an array; both give no rows.
   */
  function Transactions(prefix: string, dataSource: Option<seq<Record>>): seq<Record> {
    match dataSource
    case None => []
    case Some(rows) => seq(|rows|, i requires 0 <= i < |rows| => Tagged(prefix, i, rows[i]))
  }

  /**
    One transaction per row, in order; its `id` is the tag unless the row has
    an `id` of its own, which wins; every other key reads as in the row.
   */
  lemma TransactionsSpec(prefix: string, rows: seq<Record>, i: nat)
    requires i < |rows| && DistinctKeys(rows[i])
    ensures |Transactions(prefix, Some(rows))| == |rows|
    ensures Get(Transactions(prefix, Some(rows))[i], "id") ==
      if "id" in Keys(rows[i]) then Get(rows[i], "id") else Some(Str(IndexTag(prefix, i)))
    ensures forall k :: k != "id" ==> Get(Transactions(prefix, Some(rows))[i], k) == Get(rows[i], k)
  {
    TaggedId(prefix, i, rows[i]);
  }

  /** The table headers: the first transaction's keys except `id`. */
  function Headers(ts: seq<Record>): seq<string> {
    if |ts| == 0 then [] else Without(Keys(ts[0]), "id")
  }

  /**
    The headers are the first row's own keys in order, without `id`, whether
    or not the row has one; no rows give no headers.
   */
  lemma HeadersSpec(prefix: string, dataSource: Option<seq<Record>>)
    requires dataSource.Some? && |dataSource.value| > 0 ==> DistinctKeys(dataSource.value[0])
    ensures dataSource.None? || |dataSource.value| == 0 ==> Headers(Transactions(prefix, dataSource)) == []
    ensures dataSource.Some? && |dataSource.value| > 0 ==>
      Headers(Transactions(prefix, dataSource)) == Without(Keys(dataSource.value[0]), "id")
  {
    if dataSource.Some? && |dataSource.value| > 0 {
      var row := dataSource.value[0];
      var w := Without(Keys(row), "id");
      TaggedKeys(prefix, 0, row);
      WithoutSpec(["id"], w, "id");
      WithoutSpec(Keys(row), [], "id");
      ExceptNone(w, {"id"});
      assert [] + w == w;
    }
  }

  /** A reconciliation result as the screen reads it. */
  datatype Row = Row(left: Option<Record>, right: Option<Record>, isReconciled: bool)

  datatype Tab = All | ReconciledTab | UnreconciledTab

  /** `results.filter(r => r.isReconciled == flag)`. */
  function Where(rows: seq<Row>, flag: bool): seq<Row> {
    if |rows| == 0 then []
    else Where(rows[..|rows| - 1], flag) + (if rows[|rows| - 1].isReconciled == flag then [rows[|rows| - 1]] else [])
  }

  /** `filteredResults`. */
  function Shown(rows: seq<Row>, tab: Tab): seq<Row> {
    match tab
    case All => rows
    case ReconciledTab => Where(rows, true)
    case UnreconciledTab => Where(rows, false)
  }

  /** Filtering works row by row, so a tab keeps its results in their order. */
  lemma {:induction false} WhereAppend(a: seq<Row>, b: seq<Row>, flag: bool)
    ensures Where(a + b, flag) == Where(a, flag) + Where(b, flag)
    decreases |b|
  {
    if |b| > 0 {
      var b' := b[..|b| - 1];
      assert (a + b)[..|a + b| - 1] == a + b';
      WhereAppend(a, b', flag);
    } else {
      assert a + b == a;
    }
  }

  /** A tab holds exactly the rows with its flag, and the two tabs split the rows between them. */
  lemma {:induction false} WhereSpec(a: seq<Row>, flag: bool)
    ensures forall r :: r in Where(a, flag) <==> r in a && r.isReconciled == flag
    ensures |Where(a, true)| + |Where(a, false)| == |a|
    decreases |a|
  {
    if |a| > 0 {
      var init := a[..|a| - 1];
      WhereSpec(init, flag);
      assert a == init + [a[|a| - 1]];
    }
  }

  /** The tab counts: all, reconciled and unreconciled. */
  function Counts(rows: seq<Row>): (nat, nat, nat) {
    (|rows|, |Where(rows, true)|, |Where(rows, false)|)
  }

  /** The two counts add up to the total, and each is the length of its tab. */
  lemma CountsSpec(rows: seq<Row>)
    ensures Counts(rows).1 + Counts(rows).2 == Counts(rows).0
    ensures Counts(rows).1 == |Shown(rows, ReconciledTab)| && Counts(rows).2 == |Shown(rows, UnreconciledTab)|
    ensures Counts(rows).0 == |Shown(rows, All)|
  {
    WhereSpec(rows, true);
  }

  /** `Object.keys(t).length > 1` on a present transaction. */
  predicate Visible(t: Option<Record>) {
    t.Some? && |Dedupe(Keys(t.value))| > 1
  }

  /** A result is shown in the left table when its left transaction is visible, and likewise on the right. */
  predicate ShowsLeft(r: Row) {
    Visible(r.left)
  }

  predicate ShowsRight(r: Row) {
    Visible(r.right)
  }

  /** A result of the server's matcher as the screen receives it. */
  function FromOutcome(o: RuleMatcher.Outcome): Row {
    Row(Some(o.left), o.right, o.isReconciled)
  }

  /**
    On the server's report, the rows appended for unconsumed right
    transactions are never in the left table and always unreconciled, and an
    unreconciled left row is never in the right table; a left row is in the
    left table exactly when its transaction has two or more keys.
   */
  lemma ServerRows(lefts: seq<Record>, rights: seq<Record>, rules: seq<RuleMatcher.MatchingRule>,
                   numText: real -> string, i: nat)
    requires i < |RuleMatcher.Reconcile(lefts, rights, rules, numText)|
    ensures var r := FromOutcome(RuleMatcher.Reconcile(lefts, rights, rules, numText)[i]);
      (i >= |lefts| ==> !ShowsLeft(r) && !r.isReconciled) &&
      (i < |lefts| && !r.isReconciled ==> !ShowsRight(r)) &&
      (i < |lefts| ==> (ShowsLeft(r) <==> |Dedupe(Keys(lefts[i]))| > 1))
  {
    RuleMatcher.ReconcileSpec(lefts, rights, rules, numText);
    var out := RuleMatcher.Reconcile(lefts, rights, rules, numText);
    if i >= |lefts| {
      assert Keys(out[i].left) == [];
    } else {
      var ps := RuleMatcher.Picks(lefts, rights, RuleMatcher.Fits(rules, numText), {});
      assert out[i] == RuleMatcher.Report(lefts, rights, ps,
        (l: Record, r: Record) => RuleMatcher.MatchedFields(rules, l, r, numText))[i];
    }
  }
}
