/**
  The matching-rules step of the profile wizard: the terms offered for
  pairing, editing the draft's list of term pairs, saving a rule, and the
  guard on finishing. Alerts and rendering are left out.
 */
module MatchingStage {
  import opened Wrappers
  import opened Text
  import opened Seqs
  import RuleMatcher
  import ExtractionStage

  type TermPair = RuleMatcher.TermPair

  /** A saved rule; its document pairs start out empty. */
  datatype Rule = Rule(id: string, name: string, description: string, documentPairs: seq<(string, string)>,
                       rules: seq<TermPair>)

  datatype Draft = Draft(name: string, description: string, pairs: seq<TermPair>)

  datatype State = State(rules: seq<Rule>, draft: Draft, showForm: bool)

  const BlankDraft := Draft("", "", [])

  function TermLists(rules: seq<ExtractionStage.Rule>): seq<seq<string>> {
    seq(|rules|, i requires 0 <= i < |rules| => rules[i].terms)
  }

  /** `availableTerms`: every extraction rule's terms in turn, repeats included. */
  function AvailableTerms(rules: seq<ExtractionStage.Rule>): seq<string> {
    Flatten(TermLists(rules))
  }

  /**
    The offered terms are the rules' terms one rule after another, with
    nothing merged: a term two rules share is offered twice.
   */
  lemma AvailableTermsSpec(a: seq<ExtractionStage.Rule>, b: seq<ExtractionStage.Rule>, r: ExtractionStage.Rule)
    ensures AvailableTerms(a + b) == AvailableTerms(a) + AvailableTerms(b)
    ensures AvailableTerms([r]) == r.terms
    ensures forall t :: t in AvailableTerms(a) <==> exists i :: 0 <= i < |a| && t in a[i].terms
  {
    assert TermLists(a + b) == TermLists(a) + TermLists(b);
    FlattenAppend(TermLists(a), TermLists(b));
    assert TermLists([r]) == [r.terms];
    assert Flatten([r.terms]) == r.terms + Flatten([]);
    FlattenSpec(TermLists(a));
    forall t | t in AvailableTerms(a)
      ensures exists i :: 0 <= i < |a| && t in a[i].terms
    {
      var i :| 0 <= i < |TermLists(a)| && t in TermLists(a)[i];
      assert t in a[i].terms;
    }
    forall t, i | 0 <= i < |a| && t in a[i].terms
      ensures t in AvailableTerms(a)
    {
      assert t in TermLists(a)[i];
    }
  }

  /** `handleAddTermPair`: a blank pair at the end. */
  function AddPair(pairs: seq<TermPair>): seq<TermPair> {
    pairs + [RuleMatcher.TermPair("", "")]
  }

  datatype Side = Term1 | Term2

  function WithSide(p: TermPair, side: Side, value: string): TermPair {
    match side
    case Term1 => p.(term1 := value)
    case Term2 => p.(term2 := value)
  }

  /**
    `handleUpdateTermPair` at an index of an existing pair, the only indices
    the form offers.
   */
  function UpdatePair(pairs: seq<TermPair>, index: nat, side: Side, value: string): seq<TermPair>
    requires index < |pairs|
  {
    pairs[index := WithSide(pairs[index], side, value)]
  }

  /**
    An update sets the chosen side of the chosen pair and changes nothing
    else; setting a side to what it holds changes nothing, and a later
    update of the same side wins.
   */
  lemma UpdatePairSpec(pairs: seq<TermPair>, index: nat, side: Side, value: string, other: string, k: nat)
    requires index < |pairs| && k < |pairs|
    ensures |UpdatePair(pairs, index, side, value)| == |pairs|
    ensures k != index ==> UpdatePair(pairs, index, side, value)[k] == pairs[k]
    ensures var p := UpdatePair(pairs, index, side, value)[index];
      (side == Term1 ==> p.term1 == value && p.term2 == pairs[index].term2) &&
      (side == Term2 ==> p.term2 == value && p.term1 == pairs[index].term1)
    ensures UpdatePair(UpdatePair(pairs, index, side, other), index, side, value) == UpdatePair(pairs, index, side, value)
    ensures side == Term1 && value == pairs[index].term1 ==> UpdatePair(pairs, index, side, value) == pairs
    ensures side == Term2 && value == pairs[index].term2 ==> UpdatePair(pairs, index, side, value) == pairs
  {
  }

  /** `handleRemoveTermPair`: the pair at the index goes, the rest keep their order. */
  function RemovePair(pairs: seq<TermPair>, index: nat): seq<TermPair> {
    RemoveAt(pairs, index)
  }

  /** Removing the pair just added restores the list, and removal shortens the list by one. */
  lemma RemovePairSpec(pairs: seq<TermPair>, index: nat)
    ensures RemovePair(AddPair(pairs), |pairs|) == pairs
    ensures index < |pairs| ==>
      |RemovePair(pairs, index)| == |pairs| - 1 &&
      RemovePair(pairs, index) == pairs[..index] + pairs[index + 1..]
  {
    assert AddPair(pairs)[..|pairs|] == pairs;
  }

  /** `handleSaveRule`: refused without a name, then without a pair; otherwise appended and the draft reset. */
  function SaveRule(s: State, id: string): State {
    if |Trim(s.draft.name)| == 0 then s
    else if |s.draft.pairs| == 0 then s
    else
      var d := s.draft;
      s.(rules := s.rules + [Rule(id, d.name, d.description, [], d.pairs)], draft := BlankDraft, showForm := false)
  }

  /**
    A rule is saved exactly when the draft has a non-blank name and a pair;
    it then comes last, with the draft's pairs and no document pairs, and
    the rules before it are untouched.
   */
  lemma SaveRuleSpec(s: State, id: string)
    ensures AllSpace(s.draft.name) || |s.draft.pairs| == 0 ==> SaveRule(s, id) == s
    ensures !AllSpace(s.draft.name) && |s.draft.pairs| > 0 ==>
      var r := SaveRule(s, id);
      r.rules == s.rules + [Rule(id, s.draft.name, s.draft.description, [], s.draft.pairs)] &&
      r.draft == BlankDraft && !r.showForm
  {
    TrimSpec(s.draft.name);
  }

  /** `handleFinish`'s guard: the rules handed on, or None while there are none. */
  function Finish(s: State): Option<seq<Rule>> {
    if |s.rules| == 0 then None else Some(s.rules)
  }

  /** Finishing hands on the saved rules exactly when there is one, and any saved rule makes that so. */
  lemma FinishSpec(s: State, id: string)
    ensures Finish(s).Some? <==> |s.rules| > 0
    ensures Finish(s).Some? ==> Finish(s).value == s.rules
    ensures SaveRule(s, id) != s ==> Finish(SaveRule(s, id)).Some?
  {
  }
}
