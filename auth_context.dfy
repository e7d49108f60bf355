/** The session state of src/contexts/AuthContext.tsx: a three-action
    reducer over {user, isLoading, isAuthenticated}, and the provider steps
    `login`, `logout`, `setLoading` and `checkAuthStatus`, which keep the
    `authUser` entry of local storage in step with the reducer. */
module AuthContext {
  import opened Wrappers

  /** The signed-in user as the client keeps it (`AuthUser` of the
      authentication service). */
  datatype AuthUser = AuthUser(
    username: string,
    email: Option<string>,
    accessToken: string,
    refreshToken: Option<string>,
    idToken: Option<string>,
    groups: Option<seq<string>>,
    roles: Option<seq<string>>)

  datatype AuthState = AuthState(user: Option<AuthUser>, isLoading: bool, isAuthenticated: bool)

  /** The three actions the reducer knows, and any other action object,
      which it ignores. */
  datatype AuthAction =
    | Login(payload: AuthUser)
    | Logout
    | SetLoading(loading: bool)
    | Unknown

  const InitialState: AuthState := AuthState(None, true, false)

  /** `isAuthenticated` says exactly whether a user is present. */
  predicate Consistent(s: AuthState)
  {
    s.isAuthenticated <==> s.user.Some?
  }

  /** `authReducer(state, action)`. */
  function AuthReducer(s: AuthState, a: AuthAction): (r: AuthState)
    ensures a.Login? ==> r.user == Some(a.payload) && r.isAuthenticated && !r.isLoading
    ensures a.Logout? ==> r.user == None && !r.isAuthenticated && !r.isLoading
    ensures a.SetLoading? ==> r.isLoading == a.loading && r.user == s.user && r.isAuthenticated == s.isAuthenticated
    ensures a.Unknown? ==> r == s
  {
    match a
    case Login(u) => s.(user := Some(u), isAuthenticated := true, isLoading := false)
    case Logout => s.(user := None, isAuthenticated := false, isLoading := false)
    case SetLoading(b) => s.(isLoading := b)
    case Unknown => s
  }

  /** The state after a run of actions. */
  function Run(s: AuthState, actions: seq<AuthAction>): AuthState
    decreases |actions|
  {
    if actions == [] then s else Run(AuthReducer(s, actions[0]), actions[1..])
  }

  // ---------------------------------------------------------------------
  // Properties of the reducer
  // ---------------------------------------------------------------------

  lemma InitialConsistent()
    ensures Consistent(InitialState) && InitialState.isLoading && InitialState.user == None
  {
  }

  /** Every action preserves the invariant. */
  lemma ReducerPreservesConsistent(s: AuthState, a: AuthAction)
    requires Consistent(s)
    ensures Consistent(AuthReducer(s, a))
  {
  }

  /** Every reachable state, from the initial one, is consistent. */
  lemma {:induction false} RunPreservesConsistent(s: AuthState, actions: seq<AuthAction>)
    requires Consistent(s)
    ensures Consistent(Run(s, actions))
    decreases |actions|
  {
    if actions != [] {
      ReducerPreservesConsistent(s, actions[0]);
      RunPreservesConsistent(AuthReducer(s, actions[0]), actions[1..]);
    }
  }

  /** LOGIN(u) and LOGOUT are idempotent, and each fixes the whole state
      whatever came before. */
  lemma LoginLogoutIdempotent(s: AuthState, u: AuthUser)
    ensures AuthReducer(AuthReducer(s, Login(u)), Login(u)) == AuthReducer(s, Login(u))
    ensures AuthReducer(AuthReducer(s, Logout), Logout) == AuthReducer(s, Logout)
    ensures AuthReducer(s, Login(u)) == AuthState(Some(u), false, true)
    ensures AuthReducer(s, Logout) == AuthState(None, false, false)
  {
  }

  /** The last LOGIN or LOGOUT of a run decides who is signed in: loading
      flags and unknown actions after it change nothing of that. */
  lemma {:induction false} RunUserAfterLast(s: AuthState, actions: seq<AuthAction>)
    requires forall i :: 0 <= i < |actions| ==> actions[i].SetLoading? || actions[i].Unknown?
    ensures Run(s, actions).user == s.user
    ensures Run(s, actions).isAuthenticated == s.isAuthenticated
    decreases |actions|
  {
    if actions != [] {
      RunUserAfterLast(AuthReducer(s, actions[0]), actions[1..]);
    }
  }

  // ---------------------------------------------------------------------
  // The provider: local storage plus the reducer
  // ---------------------------------------------------------------------

  /** The storage key of the saved user. */
  const AuthUserKey: string := "authUser"

  /** Whether `checkAuthStatus` sees a saved user: `getItem` returns a
      non-empty string. */
  predicate HasSavedUser(storage: map<string, string>)
  {
    AuthUserKey in storage && storage[AuthUserKey] != ""
  }

  /** The provider. `serialize` and `parse` stand for `JSON.stringify` and
      `JSON.parse` on users (None where parsing throws). */
  class AuthProvider {
    var state: AuthState
    var storage: map<string, string>
    const serialize: AuthUser -> string
    const parse: string -> Option<AuthUser>

    /** The JSON codec reads back what it writes, and never writes "". */
    ghost predicate CodecSound()
    {
      && (forall u :: parse(serialize(u)) == Some(u))
      && (forall u :: serialize(u) != "")
    }

    ghost predicate Valid()
      reads this
    {
      CodecSound() && Consistent(state)
    }

    /** The state is in step with storage: signed in exactly when storage
      holds a saved user, and then that saved user is the signed-in one. */
    ghost predicate InStep()
      reads this
    {
      && (state.isAuthenticated <==> HasSavedUser(storage) && parse(storage[AuthUserKey]).Some?)
      && (state.isAuthenticated ==> parse(storage[AuthUserKey]) == state.user)
    }

    /** Mounting the provider: `useReducer(authReducer, initialState)` over
        whatever local storage holds. */
    constructor (initialStorage: map<string, string>, serialize: AuthUser -> string, parse: string -> Option<AuthUser>)
      requires forall u :: parse(serialize(u)) == Some(u)
      requires forall u :: serialize(u) != ""
      ensures Valid()
      ensures state == InitialState && storage == initialStorage
      ensures this.serialize == serialize && this.parse == parse
    {
      this.serialize := serialize;
      this.parse := parse;
      state := InitialState;
      storage := initialStorage;
    }

    method Dispatch(a: AuthAction)
      requires Valid()
      modifies this`state
      ensures Valid()
      ensures state == AuthReducer(old(state), a)
    {
      state := AuthReducer(state, a);
    }

    /** `login(user)`: save the user, then dispatch LOGIN. */
    method Login(u: AuthUser)
      requires Valid()
      modifies this`state, this`storage
      ensures Valid() && InStep()
      ensures storage == old(storage)[AuthUserKey := serialize(u)]
      ensures state == AuthReducer(old(state), AuthAction.Login(u))
    {
      storage := storage[AuthUserKey := serialize(u)];
      Dispatch(AuthAction.Login(u));
    }

    /** `logout()`: remove the saved user, then dispatch LOGOUT. */
    method Logout()
      requires Valid()
      modifies this`state, this`storage
      ensures Valid() && InStep()
      ensures storage == old(storage) - {AuthUserKey}
      ensures state == AuthReducer(old(state), AuthAction.Logout)
    {
      storage := storage - {AuthUserKey};
      Dispatch(AuthAction.Logout);
    }

    /** `setLoading(b)`: only the loading flag changes. */
    method SetLoading(b: bool)
      requires Valid()
      modifies this`state
      ensures Valid()
      ensures old(InStep()) ==> InStep()
      ensures state == AuthReducer(old(state), AuthAction.SetLoading(b))
    {
      Dispatch(AuthAction.SetLoading(b));
    }

    /** `checkAuthStatus()`, run once on mount: a saved user that parses is
        signed in; no saved user only ends loading; a saved user that does
        not parse is removed, and loading ends. Run from a signed-out state
        (as on mount), it leaves state and storage in step. */
    method CheckAuthStatus()
      requires Valid()
      modifies this`state, this`storage
      ensures Valid()
      ensures !old(state.isAuthenticated) ==> InStep()
      ensures !state.isLoading
      ensures HasSavedUser(old(storage)) && parse(old(storage)[AuthUserKey]).Some? ==>
        storage == old(storage) && state == AuthReducer(old(state), AuthAction.Login(parse(old(storage)[AuthUserKey]).value))
      ensures !HasSavedUser(old(storage)) ==>
        storage == old(storage) && state == AuthReducer(old(state), AuthAction.SetLoading(false))
      ensures HasSavedUser(old(storage)) && parse(old(storage)[AuthUserKey]).None? ==>
        storage == old(storage) - {AuthUserKey} && state == AuthReducer(old(state), AuthAction.SetLoading(false))
    {
      if HasSavedUser(storage) {
        var saved := storage[AuthUserKey];
        match parse(saved)
        case Some(u) =>
          Dispatch(AuthAction.Login(u));
        case None =>
          storage := storage - {AuthUserKey};
          Dispatch(AuthAction.SetLoading(false));
      } else {
        Dispatch(AuthAction.SetLoading(false));
      }
    }
  }
}
