/**
  The stage machine of the profile-creation wizard: four stages (basic
  information, document upload, extraction rules, matching rules), the
  sidebar that can only go back, and each stage's next and back buttons.
 */
module ProfileWizard {
  /**
    What the user can do: click a stage in the sidebar, or press the current
    stage's next or back button. The last stage has no next button (it
    finishes instead) and the first has no back button.
   */
  datatype Event = Click(stage: int) | Next | Back

  const Start := 1
  const Stages := 4

  /** The stages the sidebar offers. */
  predicate SidebarStage(s: int) {
    1 <= s <= Stages
  }

  /** `handleStageClick` and the stages' `onNext` / `onBack`. */
  function Step(current: int, e: Event): int {
    match e
    case Click(s) => if s <= current then s else current
    case Next => if 1 <= current < Stages then current + 1 else current
    case Back => if 1 < current <= Stages then current - 1 else current
  }

  /**
    The sidebar never moves forward and goes exactly to any earlier or equal
    stage; next advances by one from stages 1 to 3 and back returns by one
    from stages 2 to 4; from a valid stage every offered event leads to a
    valid stage.
   */
  lemma StepSpec(current: int, e: Event)
    ensures e.Click? ==> Step(current, e) <= current
    ensures e.Click? && e.stage <= current ==> Step(current, e) == e.stage
    ensures e.Next? && 1 <= current < Stages ==> Step(current, e) == current + 1
    ensures e.Back? && 1 < current <= Stages ==> Step(current, e) == current - 1
    ensures SidebarStage(current) && (e.Click? ==> SidebarStage(e.stage)) ==> SidebarStage(Step(current, e))
    ensures Step(current, e) <= current + 1
  {
  }

  /** The stage after a sequence of events, from the first stage. */
  function Run(events: seq<Event>): int {
    if |events| == 0 then Start
    else Step(Run(events[..|events| - 1]), events[|events| - 1])
  }

  function NextCount(events: seq<Event>): nat {
    if |events| == 0 then 0
    else NextCount(events[..|events| - 1]) + (if events[|events| - 1].Next? then 1 else 0)
  }

  /**
    Whatever the user does with the sidebar's stages, the wizard stays within
    stages 1 to 4, and it gets no further than one stage per press of next:
    stage 4 takes at least three presses.
   */
  lemma {:induction false} RunSpec(events: seq<Event>)
    requires forall k :: 0 <= k < |events| && events[k].Click? ==> SidebarStage(events[k].stage)
    ensures SidebarStage(Run(events))
    ensures Run(events) <= Start + NextCount(events)
    decreases |events|
  {
    if |events| > 0 {
      var init := events[..|events| - 1];
      assert forall k :: 0 <= k < |init| ==> init[k] == events[k];
      RunSpec(init);
      StepSpec(Run(init), events[|events| - 1]);
    }
  }
}
