/** The group and permission checks of src/hooks/useUserRoles.ts: pure
    membership tests over the fetched group list, the token-side defaults,
    and the hook state that a group fetch updates. */
module UserRoles {
  import opened Wrappers
  import opened Seqs
  import opened Exceptions
  import AuthContext

  /** A group record as the group service returns it. */
  datatype UserGroup = UserGroup(
    groupName: string,
    description: Option<string>,
    roleArn: Option<string>,
    precedence: Option<int>)

  /** One entry of `getGroupRoles()`. */
  datatype GroupRole = GroupRole(groupName: string, roleArn: string)

  // ---------------------------------------------------------------------
  // Membership
  // ---------------------------------------------------------------------

  /** `hasGroup(name)`. */
  function HasGroup(groups: seq<UserGroup>, name: string): (r: bool)
    ensures r <==> exists i :: 0 <= i < |groups| && groups[i].groupName == name
  {
    Any(groups, (g: UserGroup) => g.groupName == name)
  }

  /** `hasAnyGroup(names)`. */
  function HasAnyGroup(groups: seq<UserGroup>, names: seq<string>): (r: bool)
    ensures r <==> exists j :: 0 <= j < |names| && HasGroup(groups, names[j])
    ensures names == [] ==> !r
  {
    Any(names, (n: string) => HasGroup(groups, n))
  }

  /** `hasRole(roleArn)`: some group carries exactly that role ARN. */
  function HasRole(groups: seq<UserGroup>, roleArn: string): (r: bool)
    ensures r <==> exists i :: 0 <= i < |groups| && groups[i].roleArn == Some(roleArn)
  {
    Any(groups, (g: UserGroup) => g.roleArn == Some(roleArn))
  }

  /** `group.roleArn` is truthy: present and not the empty string. */
  predicate HasRoleArn(g: UserGroup)
  {
    g.roleArn.Some? && g.roleArn.value != ""
  }

  /** `getGroupRoles()`: the groups with a truthy role ARN, in order, each
      reduced to its name and ARN. */
  function GetGroupRoles(groups: seq<UserGroup>): (r: seq<GroupRole>)
    ensures |r| <= |groups|
    ensures forall i :: 0 <= i < |r| ==> r[i].roleArn != ""
    ensures forall i :: 0 <= i < |r| ==>
              exists j :: 0 <= j < |groups| && HasRoleArn(groups[j]) &&
                r[i] == GroupRole(groups[j].groupName, groups[j].roleArn.value)
    ensures forall j :: 0 <= j < |groups| && HasRoleArn(groups[j]) ==>
              GroupRole(groups[j].groupName, groups[j].roleArn.value) in r
  {
    var kept := Filter(groups, HasRoleArn);
    var r := ToRoles(kept);
    assert forall i :: 0 <= i < |r| ==> kept[i] in groups && r[i] == GroupRole(kept[i].groupName, kept[i].roleArn.value);
    assert forall j :: 0 <= j < |groups| && HasRoleArn(groups[j]) ==> groups[j] in kept;
    r
  }

  /** The `.map` step: each kept group reduced to its name and ARN. */
  function ToRoles(kept: seq<UserGroup>): (r: seq<GroupRole>)
    requires forall i :: 0 <= i < |kept| ==> HasRoleArn(kept[i])
    ensures |r| == |kept|
    ensures forall i :: 0 <= i < |r| ==> HasRoleArn(kept[i]) && r[i] == GroupRole(kept[i].groupName, kept[i].roleArn.value)
  {
    seq(|kept|, i requires 0 <= i < |kept| => assert HasRoleArn(kept[i]); GroupRole(kept[i].groupName, kept[i].roleArn.value))
  }

  lemma ToRolesAppend(a: seq<UserGroup>, b: seq<UserGroup>)
    requires forall i :: 0 <= i < |a| ==> HasRoleArn(a[i])
    requires forall i :: 0 <= i < |b| ==> HasRoleArn(b[i])
    ensures forall i :: 0 <= i < |a + b| ==> HasRoleArn((a + b)[i])
    ensures ToRoles(a + b) == ToRoles(a) + ToRoles(b)
  {
    var l, r := ToRoles(a + b), ToRoles(a) + ToRoles(b);
    assert |l| == |r|;
    forall i | 0 <= i < |l|
      ensures l[i] == r[i]
    {
      if i < |a| {
        assert (a + b)[i] == a[i];
      } else {
        assert (a + b)[i] == b[i - |a|];
      }
    }
  }

  /** `getGroupRoles` keeps the order of the group list. */
  lemma GetGroupRolesAppend(a: seq<UserGroup>, b: seq<UserGroup>)
    ensures GetGroupRoles(a + b) == GetGroupRoles(a) + GetGroupRoles(b)
  {
    FilterAppend(a, b, HasRoleArn);
    ToRolesAppend(Filter(a, HasRoleArn), Filter(b, HasRoleArn));
  }

  /** A group without a truthy role ARN contributes nothing; one with
      contributes exactly its own entry. */
  lemma GetGroupRolesSingle(g: UserGroup)
    ensures HasRoleArn(g) ==> GetGroupRoles([g]) == [GroupRole(g.groupName, g.roleArn.value)]
    ensures !HasRoleArn(g) ==> GetGroupRoles([g]) == []
  {
    assert [g][1..] == [];
  }

  // ---------------------------------------------------------------------
  // Groups and roles from the token
  // ---------------------------------------------------------------------

  /** `user?.groups || []`. */
  function TokenGroups(user: Option<AuthContext.AuthUser>): (r: seq<string>)
    ensures user.Some? && user.value.groups.Some? ==> r == user.value.groups.value
    ensures user.None? || user.value.groups.None? ==> r == []
  {
    if user.Some? && user.value.groups.Some? then user.value.groups.value else []
  }

  /** `user?.roles || []`. */
  function TokenRoles(user: Option<AuthContext.AuthUser>): (r: seq<string>)
    ensures user.Some? && user.value.roles.Some? ==> r == user.value.roles.value
    ensures user.None? || user.value.roles.None? ==> r == []
  {
    if user.Some? && user.value.roles.Some? then user.value.roles.value else []
  }

  /** The token's groups and roles follow the session: LOGIN installs the
      user's claims (or `[]`), LOGOUT clears them, and a consistent state
      with token groups is authenticated. */
  lemma TokenClaimsFollowSession(s: AuthContext.AuthState, a: AuthContext.AuthAction)
    ensures AuthContext.Consistent(s) && TokenGroups(s.user) != [] ==> s.isAuthenticated
    ensures a.Login? ==>
      TokenGroups(AuthContext.AuthReducer(s, a).user) == a.payload.groups.GetOr([]) &&
      TokenRoles(AuthContext.AuthReducer(s, a).user) == a.payload.roles.GetOr([])
    ensures a.Logout? ==>
      TokenGroups(AuthContext.AuthReducer(s, a).user) == [] && TokenRoles(AuthContext.AuthReducer(s, a).user) == []
  {
  }

  /** Loading flags and unknown actions never change the token's groups or
      roles. */
  lemma TokenClaimsSurviveLoading(s: AuthContext.AuthState, actions: seq<AuthContext.AuthAction>)
    requires forall i :: 0 <= i < |actions| ==> actions[i].SetLoading? || actions[i].Unknown?
    ensures TokenGroups(AuthContext.Run(s, actions).user) == TokenGroups(s.user)
    ensures TokenRoles(AuthContext.Run(s, actions).user) == TokenRoles(s.user)
  {
    AuthContext.RunUserAfterLast(s, actions);
  }

  // ---------------------------------------------------------------------
  // usePermissions
  // ---------------------------------------------------------------------

  function IsAdmin(groups: seq<UserGroup>): (r: bool)
    ensures r <==> exists i :: 0 <= i < |groups| &&
                      (groups[i].groupName == "Administrators" || groups[i].groupName == "Admin")
  {
    HasGroup(groups, "Administrators") || HasGroup(groups, "Admin")
  }

  function IsModerator(groups: seq<UserGroup>): (r: bool)
    ensures r <==> exists i :: 0 <= i < |groups| &&
                      (groups[i].groupName == "Moderators" || groups[i].groupName == "Moderator")
  {
    HasGroup(groups, "Moderators") || HasGroup(groups, "Moderator")
  }

  function IsUser(groups: seq<UserGroup>): (r: bool)
    ensures r <==> exists i :: 0 <= i < |groups| &&
                      (groups[i].groupName == "Users" || groups[i].groupName == "User")
  {
    HasGroup(groups, "Users") || HasGroup(groups, "User")
  }

  datatype Permissions = Permissions(
    groups: seq<string>,
    roles: seq<string>,
    isAdmin: bool,
    isModerator: bool,
    isUser: bool)

  /** `usePermissions()`: the flags come from the fetched groups, the
      `groups` and `roles` it reports come from the token. */
  function UsePermissions(fetched: seq<UserGroup>, user: Option<AuthContext.AuthUser>): (r: Permissions)
    ensures r.groups == TokenGroups(user) && r.roles == TokenRoles(user)
    ensures r.isAdmin == (HasGroup(fetched, "Administrators") || HasGroup(fetched, "Admin"))
    ensures r.isModerator == (HasGroup(fetched, "Moderators") || HasGroup(fetched, "Moderator"))
    ensures r.isUser == (HasGroup(fetched, "Users") || HasGroup(fetched, "User"))
  {
    Permissions(TokenGroups(user), TokenRoles(user), IsAdmin(fetched), IsModerator(fetched), IsUser(fetched))
  }

  /** The three flags do not depend on the token: two users with the same
      fetched groups get the same flags, whatever groups their tokens carry. */
  lemma FlagsIgnoreToken(fetched: seq<UserGroup>, u1: Option<AuthContext.AuthUser>, u2: Option<AuthContext.AuthUser>)
    ensures UsePermissions(fetched, u1).isAdmin == UsePermissions(fetched, u2).isAdmin
    ensures UsePermissions(fetched, u1).isModerator == UsePermissions(fetched, u2).isModerator
    ensures UsePermissions(fetched, u1).isUser == UsePermissions(fetched, u2).isUser
  {
  }

  /** Membership only grows with the group list: every check that holds
      for some groups holds for more. */
  lemma HasGroupMonotone(groups: seq<UserGroup>, more: seq<UserGroup>, name: string)
    requires forall g :: g in groups ==> g in more
    requires HasGroup(groups, name)
    ensures HasGroup(more, name)
  {
    var i :| 0 <= i < |groups| && groups[i].groupName == name;
    assert groups[i] in more;
  }

  // ---------------------------------------------------------------------
  // The hook state and the group fetch
  // ---------------------------------------------------------------------

  /** What `AuthService.getUserGroups(username)` resolves to. */
  datatype GroupsResult = GroupsResult(success: bool, groups: Option<seq<UserGroup>>, error: Option<string>)

  const FetchFailedMessage: string := "Error al obtener grupos del usuario"
  const UnexpectedMessage: string := "Error inesperado"

  /** The state `useUserRoles` keeps with `useState`. */
  class UserRolesHook {
    var groups: seq<UserGroup>
    var isLoading: bool
    var error: Option<string>

    /** The initial state: no groups, not loading, no error. */
    constructor ()
      ensures groups == [] && !isLoading && error == None
    {
      groups := [];
      isLoading := false;
      error := None;
    }

    /** `fetchUserGroups` (run on mount and whenever the username changes)
        and `refetch`: both do the same. `getUserGroups` is the service
        call, resolved or rejected. Without a username nothing happens;
        otherwise loading is raised, the error cleared, the result applied,
        and loading lowered again. */
    method FetchUserGroups(user: Option<AuthContext.AuthUser>, getUserGroups: string -> Result<GroupsResult, Thrown>)
      modifies this
      ensures user.None? || user.value.username == "" ==>
        groups == old(groups) && isLoading == old(isLoading) && error == old(error)
      ensures user.Some? && user.value.username != "" ==> !isLoading
      ensures user.Some? && user.value.username != "" ==>
        match getUserGroups(user.value.username)
        case Ok(res) =>
          if res.success then
            groups == res.groups.GetOr([]) && error == None
          else
            groups == old(groups) &&
            error == Some(if res.error.Some? && res.error.value != "" then res.error.value else FetchFailedMessage)
        case Err(t) =>
          groups == old(groups) && error == Some(MessageOr(t, UnexpectedMessage))
    {
      if user.None? || user.value.username == "" {
        return;
      }
      isLoading := true;
      error := None;
      match getUserGroups(user.value.username) {
        case Ok(res) =>
          if res.success {
            groups := res.groups.GetOr([]);
          } else {
            error := Some(if res.error.Some? && res.error.value != "" then res.error.value else FetchFailedMessage);
          }
        case Err(t) =>
          error := Some(MessageOr(t, UnexpectedMessage));
      }
      isLoading := false;
    }
  }
}
