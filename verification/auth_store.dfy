/** The session store of src/stores/auth.store.ts: who is logged in and the
    status of the last login, changed by the actions `login`, `fetchUser`,
    `logout` and `requestPasswordReset`.

    The backend's answer to each request an action awaits is an input of
    that action. The first part states each action as a pure transition on
    session values; the class `Store` below is the store itself, whose
    methods update its fields step by step and are proved to follow those
    transitions. */
module AuthStore {
  import opened Wrappers
  import opened Http

  datatype Profile = Profile(polo: string, curso: string, projetoIntegrador: string, eixo: string, drp: string)

  /** The identity record `GET /auth/user/` returns. */
  datatype User = User(pk: int, email: string, firstName: string, lastName: string, profile: Profile)

  datatype Status = Idle | Loading | Success | Error

  /** A snapshot of the store's state. */
  datatype AuthState = AuthState(user: Option<User>, isAuthenticated: bool, status: Status)

  /** The state the store starts in and that `$reset()` restores. */
  const Initial: AuthState := AuthState(None, false, Idle)

  /** The store never claims a session without a user, nor holds a user
      without claiming a session. */
  predicate Consistent(s: AuthState) {
    s.isAuthenticated <==> s.user.Some?
  }

  /** A state together with how the action's promise settled. */
  datatype Settled = Settled(state: AuthState, completion: Completion)

  // ---------------------------------------------------------------------
  // The actions as transitions
  // ---------------------------------------------------------------------

  /** `fetchUser`: on success the user is the response data and the session
      is authenticated; on failure both are cleared. It never rejects and
      never touches `status`. */
  function FetchUserStep(s: AuthState, response: Response<User>): (t: AuthState)
    ensures t.status == s.status
    ensures Consistent(t)
    ensures t.isAuthenticated <==> response.Ok?
    ensures response.Ok? ==> t.user == Some(response.data)
  {
    match response
    case Ok(data) => s.(user := Some(data), isAuthenticated := true)
    case Err(_) => s.(user := None, isAuthenticated := false)
  }

  /** The state while `login` awaits the `POST /auth/login/`. */
  function LoginPending(s: AuthState): (t: AuthState)
    ensures t.status == Loading
    ensures t.user == s.user && t.isAuthenticated == s.isAuthenticated
  {
    s.(status := Loading)
  }

  /** `login`: a failed POST leaves an unauthenticated `error` state and
      rejects with the POST's error; a successful POST runs `fetchUser` and
      ends in `success` and resolves, even when `fetchUser` failed (it
      swallows its error). */
  function LoginStep(s: AuthState, post: Response<()>, me: Response<User>): (r: Settled)
    ensures r.completion == if post.Ok? then Resolved else Rejected(post.error)
    ensures r.state.status == if post.Ok? then Success else Error
    ensures r.state.isAuthenticated <==> post.Ok? && me.Ok?
    ensures r.state.user == if post.Ok? && me.Ok? then Some(me.data) else None
    ensures Consistent(r.state)
  {
    var pending := LoginPending(s);
    match post
    case Err(e) => Settled(pending.(status := Error, isAuthenticated := false, user := None), Rejected(e))
    case Ok(_) => Settled(FetchUserStep(pending, me).(status := Success), Resolved)
  }

  /** `logout`: the state is reset whatever the POST did, and the promise
      rejects with the POST's error when it failed (`finally` without
      `catch`). */
  function LogoutStep(s: AuthState, post: Response<()>): (r: Settled)
    ensures r.state == Initial
    ensures r.completion.Rejected? <==> post.Err?
    ensures post.Err? ==> r.completion.error == post.error
  {
    Settled(Initial, if post.Ok? then Resolved else Rejected(post.error))
  }

  /** `requestPasswordReset`: no field changes; a failure is re-thrown. */
  function PasswordResetStep(s: AuthState, post: Response<()>): (r: Settled)
    ensures r.state == s
    ensures r.completion.Rejected? <==> post.Err?
    ensures post.Err? ==> r.completion.error == post.error
  {
    Settled(s, if post.Ok? then Resolved else Rejected(post.error))
  }

  // ---------------------------------------------------------------------
  // Runs of actions
  // ---------------------------------------------------------------------

  /** One call of a store action, with the backend's answers to the requests
      it awaits. */
  datatype Action =
    | Login(post: Response<()>, me: Response<User>)
    | FetchUser(response: Response<User>)
    | Logout(post: Response<()>)
    | RequestPasswordReset(post: Response<()>)

  function Step(s: AuthState, a: Action): Settled
  {
    match a
    case Login(post, me) => LoginStep(s, post, me)
    case FetchUser(response) => Settled(FetchUserStep(s, response), Resolved)
    case Logout(post) => LogoutStep(s, post)
    case RequestPasswordReset(post) => PasswordResetStep(s, post)
  }

  /** The state after the actions run one after the other, each to its end. */
  function Run(s: AuthState, actions: seq<Action>): AuthState
    decreases |actions|
  {
    if actions == [] then s
    else Run(Step(s, actions[0]).state, actions[1..])
  }

  /** The states the store rests in between actions: consistent, and never
      `loading` (that status is only seen while `login` is suspended). */
  predicate AtRest(s: AuthState) {
    Consistent(s) && s.status != Loading
  }

  /** Every action keeps a resting state at rest. */
  lemma StepKeepsAtRest(s: AuthState, a: Action)
    requires AtRest(s)
    ensures AtRest(Step(s, a).state)
  {
  }

  lemma {:induction false} RunKeepsAtRest(s: AuthState, actions: seq<Action>)
    requires AtRest(s)
    ensures AtRest(Run(s, actions))
    decreases |actions|
  {
    if actions != [] {
      StepKeepsAtRest(s, actions[0]);
      RunKeepsAtRest(Step(s, actions[0]).state, actions[1..]);
    }
  }

  /** From the initial state, whatever actions run and whatever the backend
      answers, `isAuthenticated` holds exactly when a user is loaded, and
      the status is never left at `loading`. */
  lemma ReachableStatesAtRest(actions: seq<Action>)
    ensures Consistent(Run(Initial, actions))
    ensures Run(Initial, actions).status in {Idle, Success, Error}
  {
    RunKeepsAtRest(Initial, actions);
  }

  /** Running a further action after a run is one longer run. */
  lemma {:induction false} RunAppend(s: AuthState, actions: seq<Action>, a: Action)
    ensures Run(s, actions + [a]) == Step(Run(s, actions), a).state
    decreases |actions|
  {
    if actions == [] {
      assert [] + [a] == [a];
    } else {
      assert (actions + [a])[1..] == actions[1..] + [a];
      RunAppend(Step(s, actions[0]).state, actions[1..], a);
    }
  }

  /** Whatever happened before, a logout ends in the initial state. */
  lemma LogoutAfterAnything(actions: seq<Action>, post: Response<()>)
    ensures Run(Initial, actions + [Logout(post)]) == Initial
  {
    RunAppend(Initial, actions, Logout(post));
  }

  /** A login whose POST succeeds but whose user fetch fails ends in
      `success` without a session. */
  lemma SuccessWithoutSession(e: ApiError)
    ensures Run(Initial, [Login(Ok(()), Err(e))]) == AuthState(None, false, Success)
  {
    assert [Login(Ok(()), Err(e))][1..] == [];
  }

  // ---------------------------------------------------------------------
  // The store
  // ---------------------------------------------------------------------

  /** The Pinia store. Between the synchronous steps of an action the event
      loop may run other code, which then sees the store's fields as they are
      at that `await`; `Suspended` records those states in order. */
  class Store {
    var user: Option<User>
    var isAuthenticated: bool
    var status: Status
    ghost var Suspended: seq<AuthState>

    function State(): AuthState
      reads this
    {
      AuthState(user, isAuthenticated, status)
    }

    /** Every state anyone can observe, now or at an earlier `await`, is
        consistent. */
    ghost predicate Valid()
      reads this
    {
      Consistent(State()) && forall i :: 0 <= i < |Suspended| ==> Consistent(Suspended[i])
    }

    constructor ()
      ensures Valid()
      ensures State() == Initial && Suspended == []
    {
      user, isAuthenticated, status := None, false, Idle;
      Suspended := [];
    }

    /** Pinia's `$reset()`: back to the initial state. */
    method Reset()
      requires Valid()
      modifies this
      ensures Valid()
      ensures State() == Initial
      ensures Suspended == old(Suspended)
    {
      user := None;
      isAuthenticated := false;
      status := Idle;
    }

    method FetchUser(response: Response<User>)
      requires Valid()
      modifies this
      ensures Valid()
      ensures State() == FetchUserStep(old(State()), response)
      ensures Suspended == old(Suspended) + [old(State())]
    {
      Suspended := Suspended + [State()];  // await GET /auth/user/
      match response {
        case Ok(data) =>
          user := Some(data);
          isAuthenticated := true;
        case Err(_) =>
          user := None;
          isAuthenticated := false;
      }
    }

    /** `login`: other code sees `loading` while the POST is in flight, and,
        once it succeeded, during the user fetch. */
    method Login(post: Response<()>, me: Response<User>) returns (result: Completion)
      requires Valid()
      modifies this
      ensures Valid()
      ensures Settled(State(), result) == LoginStep(old(State()), post, me)
      ensures var pending := LoginPending(old(State()));
              Suspended == old(Suspended) + [pending] +
                           if post.Ok? then [pending, FetchUserStep(pending, me)] else []
    {
      status := Loading;
      Suspended := Suspended + [State()];  // await POST /auth/login/
      match post {
        case Err(e) =>
          status := Error;
          isAuthenticated := false;
          user := None;
          return Rejected(e);
        case Ok(_) =>
          FetchUser(me);
          Suspended := Suspended + [State()];  // await this.fetchUser()
          status := Success;
          result := Resolved;
      }
    }

    /** `logout`: resets the state in `finally`, then lets a failed POST
        reject the call. */
    method Logout(post: Response<()>) returns (result: Completion)
      requires Valid()
      modifies this
      ensures Valid()
      ensures Settled(State(), result) == LogoutStep(old(State()), post)
      ensures Suspended == old(Suspended) + [old(State())]
    {
      Suspended := Suspended + [State()];  // await POST /auth/logout/
      Reset();
      result := if post.Ok? then Resolved else Rejected(post.error);
    }

    method RequestPasswordReset(post: Response<()>) returns (result: Completion)
      requires Valid()
      modifies this
      ensures Valid()
      ensures Settled(State(), result) == PasswordResetStep(old(State()), post)
      ensures Suspended == old(Suspended) + [old(State())]
    {
      Suspended := Suspended + [State()];  // await POST /password-reset/request/
      result := if post.Ok? then Resolved else Rejected(post.error);
    }
  }
}
