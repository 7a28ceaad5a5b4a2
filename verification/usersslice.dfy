/** The client's user store: the signed-in user, a loading flag and an error, changed only by five reducers. */
module UsersSlice {
  import opened Wrappers

  datatype User = User(id: string, firstName: string, lastName: string, email: string, organizationName: string,
                       profiles: seq<string>, reconciledProfiles: int, unreconciledProfiles: int)

  datatype UserState = UserState(user: Option<User>, loading: bool, error: Option<string>)

  const Initial := UserState(None, false, None)

  datatype Action =
    | SetUser(payload: User)
    | ClearUser
    | SetLoading(loading: bool)
    | SetError(error: Option<string>)
    | UpdateProfileStats(reconciled: int, unreconciled: int)

  function Reduce(s: UserState, a: Action): UserState {
    match a
    case SetUser(u) => UserState(Some(u), false, None)
    case ClearUser => UserState(None, false, None)
    case SetLoading(b) => s.(loading := b)
    case SetError(e) => s.(error := e, loading := false)
    case UpdateProfileStats(r, u) =>
      if s.user.None? then s
      else s.(user := Some(s.user.value.(reconciledProfiles := r, unreconciledProfiles := u)))
  }

  /**
    Storing a user clears loading and error; clearing returns to the initial
    state; the loading flag changes only itself; an error stops loading and
    keeps the user; profile statistics need a user and change only its two
    counters.
   */
  lemma ReduceSpec(s: UserState, a: Action)
    ensures a.SetUser? ==> Reduce(s, a).user == Some(a.payload) && !Reduce(s, a).loading && Reduce(s, a).error.None?
    ensures a.ClearUser? ==> Reduce(s, a) == Initial
    ensures a.SetLoading? ==> Reduce(s, a).loading == a.loading && Reduce(s, a).user == s.user && Reduce(s, a).error == s.error
    ensures a.SetError? ==> Reduce(s, a).error == a.error && !Reduce(s, a).loading && Reduce(s, a).user == s.user
    ensures a.UpdateProfileStats? && s.user.None? ==> Reduce(s, a) == s
    ensures a.UpdateProfileStats? && s.user.Some? ==>
      var u := Reduce(s, a).user.value;
      Reduce(s, a).loading == s.loading && Reduce(s, a).error == s.error &&
      u.reconciledProfiles == a.reconciled && u.unreconciledProfiles == a.unreconciled &&
      u.(reconciledProfiles := s.user.value.reconciledProfiles, unreconciledProfiles := s.user.value.unreconciledProfiles) == s.user.value
  {
  }

  /** The state after a sequence of actions from the initial state. */
  function Replay(actions: seq<Action>): UserState {
    if |actions| == 0 then Initial
    else Reduce(Replay(actions[..|actions| - 1]), actions[|actions| - 1])
  }

  /**
    A user is present only after some user was stored, and the present user
    is the last one stored: every field of the stored payload is kept, and
    the two profile counters are the payload's unless a later statistics
    update replaced them.
   */
  lemma {:induction false} ReplaySpec(actions: seq<Action>) returns (k: nat)
    ensures Replay(actions).user.Some? ==>
      k < |actions| && actions[k].SetUser? &&
      var u := Replay(actions).user.value;
      var p := actions[k].payload;
      (forall j :: k < j < |actions| ==> !actions[j].SetUser? && !actions[j].ClearUser?) &&
      u.id == p.id && u.firstName == p.firstName && u.lastName == p.lastName && u.email == p.email &&
      u.organizationName == p.organizationName && u.profiles == p.profiles &&
      ((forall j :: k < j < |actions| ==> !actions[j].UpdateProfileStats?) ==> u == p)
    decreases |actions|
  {
    if |actions| == 0 {
      k := 0;
    } else {
      var init := actions[..|actions| - 1];
      var a := actions[|actions| - 1];
      if a.SetUser? {
        k := |actions| - 1;
      } else {
        k := ReplaySpec(init);
        if Replay(actions).user.Some? {
          assert actions[k] == init[k];
          assert forall j :: k < j < |init| ==> actions[j] == init[j];
        }
      }
    }
  }

  /** Loading and profile statistics touch different fields, so their order does not matter. */
  lemma LoadingCommutes(s: UserState, b: bool, r: int, u: int)
    ensures Reduce(Reduce(s, SetLoading(b)), UpdateProfileStats(r, u)) ==
            Reduce(Reduce(s, UpdateProfileStats(r, u)), SetLoading(b))
  {
  }
}
