/**
  The extraction-rules step of the profile wizard: entering terms as
  comma-separated text, removing terms, saving and deleting rules, moving on
  to document assignment, and ticking documents for a rule. Each handler is
  a pure transition of the step's state; toasts and rendering are left out.
 */
module ExtractionStage {
  import opened Text
  import opened Seqs

  datatype Rule = Rule(id: string, name: string, description: string, terms: seq<string>, documentIds: seq<string>)

  /** The rule being written. */
  datatype Draft = Draft(name: string, description: string, terms: seq<string>, documentIds: seq<string>)

  /**
    The step's state: the saved rules, the draft, the term input box, whether
    the form is open, and the sub-step (1 for rule creation, 2 for document
    assignment).
   */
  datatype State = State(rules: seq<Rule>, draft: Draft, termInput: string, showForm: bool, step: nat)

  const BlankDraft := Draft("", "", [], [])

  function Initial(rules: seq<Rule>): State {
    State(rules, BlankDraft, "", false, 1)
  }

  /** `.map(t => t.trim()).filter(t => t.length > 0)`. */
  function Pieces(parts: seq<string>): seq<string> {
    if |parts| == 0 then []
    else (if |Trim(parts[0])| > 0 then [Trim(parts[0])] else []) + Pieces(parts[1..])
  }

  /** The terms typed into the input box: its comma-separated pieces, trimmed, blanks dropped. */
  function NewTerms(input: string): seq<string> {
    Pieces(Split(input, ','))
  }

  /** A piece is kept exactly when it is the non-blank trimmed form of some part. */
  lemma {:induction false} PiecesMember(parts: seq<string>)
    ensures forall t :: t in Pieces(parts) <==> |t| > 0 && exists i :: 0 <= i < |parts| && Trim(parts[i]) == t
    decreases |parts|
  {
    if |parts| > 0 {
      PiecesMember(parts[1..]);
      forall t | |t| > 0 && exists i :: 0 <= i < |parts| && Trim(parts[i]) == t
        ensures t in Pieces(parts)
      {
        var i :| 0 <= i < |parts| && Trim(parts[i]) == t;
        if i > 0 {
          assert Trim(parts[1..][i - 1]) == t;
        }
      }
    }
  }

  /** Kept pieces are not blank and have no whitespace at their ends. */
  lemma {:induction false} PiecesShape(parts: seq<string>)
    ensures forall k :: 0 <= k < |Pieces(parts)| ==>
      |Pieces(parts)[k]| > 0 && !IsSpace(Pieces(parts)[k][0]) && !IsSpace(Pieces(parts)[k][|Pieces(parts)[k]| - 1])
    decreases |parts|
  {
    if |parts| > 0 {
      PiecesShape(parts[1..]);
      TrimSpec(parts[0]);
    }
  }

  /** A character no part holds is in no kept piece. */
  lemma {:induction false} PiecesAvoid(parts: seq<string>, c: char)
    requires forall i :: 0 <= i < |parts| ==> c !in parts[i]
    ensures forall k :: 0 <= k < |Pieces(parts)| ==> c !in Pieces(parts)[k]
    decreases |parts|
  {
    if |parts| > 0 {
      PiecesAvoid(parts[1..], c);
      var _ := TrimIsSlice(parts[0]);
    }
  }

  /**
    The typed terms are never blank, have no whitespace at their ends and
    hold no comma; they are exactly the non-blank trimmed pieces between
    commas, and an input without a comma gives its trimmed self.
   */
  lemma NewTermsSpec(input: string)
    ensures forall k :: 0 <= k < |NewTerms(input)| ==>
      var t := NewTerms(input)[k];
      |t| > 0 && ',' !in t && !IsSpace(t[0]) && !IsSpace(t[|t| - 1])
    ensures forall t :: t in NewTerms(input) <==>
      |t| > 0 && exists i :: 0 <= i < |Split(input, ',')| && Trim(Split(input, ',')[i]) == t
    ensures ',' !in input && !AllSpace(input) ==> NewTerms(input) == [Trim(input)]
  {
    var parts := Split(input, ',');
    PiecesMember(parts);
    PiecesShape(parts);
    PiecesAvoid(parts, ',');
    if ',' !in input && !AllSpace(input) {
      TrimSpec(input);
      assert parts == [input];
      assert Pieces([input]) == [Trim(input)] + Pieces([]);
    }
  }

  /** `handleAddTerm`: blank input does nothing; otherwise the typed terms join the draft's, once each, and the box is cleared. */
  function AddTerm(s: State): State {
    if |Trim(s.termInput)| == 0 then s
    else s.(draft := s.draft.(terms := Dedupe(s.draft.terms + NewTerms(s.termInput))), termInput := "")
  }

  /**
    Blank input changes nothing. Otherwise only the draft's terms and the box
    change: the box is emptied, the terms repeat nothing and are the old terms
    and the typed ones, and terms already there keep their places in front.
   */
  lemma AddTermSpec(s: State)
    ensures AllSpace(s.termInput) ==> AddTerm(s) == s
    ensures !AllSpace(s.termInput) ==>
      var r := AddTerm(s);
      r == s.(draft := s.draft.(terms := r.draft.terms), termInput := "") &&
      Distinct(r.draft.terms) &&
      (forall t :: t in r.draft.terms <==> t in s.draft.terms || t in NewTerms(s.termInput)) &&
      (Distinct(s.draft.terms) ==>
        r.draft.terms == s.draft.terms + Dedupe(Except(NewTerms(s.termInput), Elements(s.draft.terms))))
  {
    TrimSpec(s.termInput);
    var old', typed := s.draft.terms, NewTerms(s.termInput);
    DedupeSpec(old' + typed);
    DedupeAppend(old', typed);
    if Distinct(old') {
      DedupeOfDistinct(old');
    }
  }

  /** `handleRemoveTerm`: every occurrence of the term leaves the draft. */
  function RemoveTerm(s: State, term: string): State {
    s.(draft := s.draft.(terms := Without(s.draft.terms, term)))
  }

  /** Removal deletes the term and only it, and changes nothing else. */
  lemma RemoveTermSpec(s: State, term: string)
    ensures term !in RemoveTerm(s, term).draft.terms
    ensures forall t :: t != term ==> (t in RemoveTerm(s, term).draft.terms <==> t in s.draft.terms)
    ensures RemoveTerm(s, term) == s.(draft := s.draft.(terms := RemoveTerm(s, term).draft.terms))
  {
    WithoutSpec(s.draft.terms, [], term);
  }

  /** Typing a term the draft lacks and removing it again gives back the terms there were. */
  lemma AddRemoveTerm(s: State, term: string)
    requires Distinct(s.draft.terms) && term !in s.draft.terms
    requires !AllSpace(s.termInput) && NewTerms(s.termInput) == [term]
    ensures RemoveTerm(AddTerm(s), term).draft.terms == s.draft.terms
  {
    var ts := s.draft.terms;
    TrimSpec(s.termInput);
    DedupeOfDistinct(ts);
    DedupeSnoc(ts, term);
    assert AddTerm(s).draft.terms == ts + [term];
    WithoutSpec(ts, [term], term);
    ExceptNone(ts, {term});
  }

  /** `handleSaveRule`: refused without a name or a term; otherwise the draft becomes a rule with the given id and is reset. */
  function SaveRule(s: State, id: string): State {
    if |Trim(s.draft.name)| == 0 || |s.draft.terms| == 0 then s
    else
      var d := s.draft;
      s.(rules := s.rules + [Rule(id, d.name, d.description, d.terms, d.documentIds)], draft := BlankDraft, showForm := false)
  }

  /**
    A rule is saved exactly when the draft has a non-blank name and a term;
    then it is appended with the draft's content and the id, nothing else
    among the rules changes, and the draft starts over.
   */
  lemma SaveRuleSpec(s: State, id: string)
    ensures AllSpace(s.draft.name) || |s.draft.terms| == 0 ==> SaveRule(s, id) == s
    ensures !AllSpace(s.draft.name) && |s.draft.terms| > 0 ==>
      var r := SaveRule(s, id);
      |r.rules| == |s.rules| + 1 && r.rules[..|s.rules|] == s.rules &&
      r.rules[|s.rules|] == Rule(id, s.draft.name, s.draft.description, s.draft.terms, s.draft.documentIds) &&
      r.draft == BlankDraft && !r.showForm && r.termInput == s.termInput && r.step == s.step
  {
    TrimSpec(s.draft.name);
  }

  /** `rules.filter(r => r._id !== id)`. */
  function DeleteRule(rules: seq<Rule>, id: string): seq<Rule> {
    if |rules| == 0 then []
    else (if rules[0].id == id then [] else [rules[0]]) + DeleteRule(rules[1..], id)
  }

  /** Deleting removes every rule with that id and keeps every other rule. */
  lemma {:induction false} DeleteRuleSpec(rules: seq<Rule>, id: string)
    ensures forall r :: r in DeleteRule(rules, id) <==> r in rules && r.id != id
    ensures |DeleteRule(rules, id)| <= |rules|
    ensures (forall k :: 0 <= k < |rules| ==> rules[k].id != id) ==> DeleteRule(rules, id) == rules
    decreases |rules|
  {
    if |rules| > 0 {
      DeleteRuleSpec(rules[1..], id);
      assert rules == [rules[0]] + rules[1..];
    }
  }

  /** `handleNextStage`: document assignment opens only once a rule exists. */
  function NextStep(s: State): State {
    if |s.rules| == 0 then s else s.(step := 2)
  }

  lemma NextStepSpec(s: State)
    ensures NextStep(s).step == 2 <==> |s.rules| > 0 || s.step == 2
    ensures NextStep(s).rules == s.rules && NextStep(s).draft == s.draft
  {
  }

  /** A tick or untick of a document for the rule with id `ruleId`. */
  function Ticked(rule: Rule, ruleId: string, docId: string, checked: bool): Rule {
    if rule.id != ruleId then rule
    else rule.(documentIds := if checked then rule.documentIds + [docId] else Without(rule.documentIds, docId))
  }

  /** `handleDocumentAssignmentChange`. */
  function AssignmentChange(rules: seq<Rule>, ruleId: string, docId: string, checked: bool): seq<Rule> {
    seq(|rules|, k requires 0 <= k < |rules| => Ticked(rules[k], ruleId, docId, checked))
  }

  /**
    Only rules with the given id change, and only in their documents:
    ticking appends the document, unticking removes every occurrence of it
    and keeps the others in order.
   */
  lemma AssignmentChangeSpec(rules: seq<Rule>, ruleId: string, docId: string, checked: bool, k: nat)
    requires k < |rules|
    ensures |AssignmentChange(rules, ruleId, docId, checked)| == |rules|
    ensures var r := AssignmentChange(rules, ruleId, docId, checked)[k];
      r.id == rules[k].id && r.name == rules[k].name && r.terms == rules[k].terms &&
      (rules[k].id != ruleId ==> r == rules[k]) &&
      (rules[k].id == ruleId && checked ==> r.documentIds == rules[k].documentIds + [docId]) &&
      (rules[k].id == ruleId && !checked ==>
        docId !in r.documentIds &&
        forall d :: d != docId ==> (d in r.documentIds <==> d in rules[k].documentIds))
  {
    WithoutSpec(rules[k].documentIds, [], docId);
  }

  /** Ticking a document a rule did not have and unticking it again restores the rules. */
  lemma AssignmentRoundTrip(rules: seq<Rule>, ruleId: string, docId: string)
    requires forall k :: 0 <= k < |rules| && rules[k].id == ruleId ==> docId !in rules[k].documentIds
    ensures AssignmentChange(AssignmentChange(rules, ruleId, docId, true), ruleId, docId, false) == rules
  {
    var once := AssignmentChange(rules, ruleId, docId, true);
    forall k | 0 <= k < |rules|
      ensures AssignmentChange(once, ruleId, docId, false)[k] == rules[k]
    {
      if rules[k].id == ruleId {
        var ds := rules[k].documentIds;
        WithoutSpec(ds, [docId], docId);
        ExceptNone(ds, {docId});
      }
    }
  }
}
