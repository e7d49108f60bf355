/** The access decision of src/components/RoleGuard.tsx: four early-return
    checks against the fetched groups, all of which must pass for the
    children to be rendered, its two fixed specialisations and the
    `useRoleCheck` helpers. What is rendered is reduced to which of the two
    nodes is. */
module RoleGuard {
  import opened Wrappers
  import opened Seqs
  import opened UserRoles

  /** The guard's props; an absent prop takes its default (`[]` or false). */
  datatype GuardProps = GuardProps(
    requiredGroups: Option<seq<string>>,
    requiredAnyGroup: Option<seq<string>>,
    adminOnly: Option<bool>,
    moderatorOrAdmin: Option<bool>)

  /** `<>{children}</>` or `<>{fallback}</>`. */
  datatype Rendered = Children | Fallback

  const NoProps: GuardProps := GuardProps(None, None, None, None)

  /** `<RoleGuard ...>` for a user whose fetched groups are `fetched`. */
  function Guard(props: GuardProps, fetched: seq<UserGroup>): (r: Rendered)
    ensures r == Children <==>
      && (props.adminOnly.GetOr(false) ==> IsAdmin(fetched))
      && (props.moderatorOrAdmin.GetOr(false) ==> IsAdmin(fetched) || IsModerator(fetched))
      && (forall g :: g in props.requiredGroups.GetOr([]) ==> HasGroup(fetched, g))
      && (props.requiredAnyGroup.GetOr([]) != [] ==>
            exists g :: g in props.requiredAnyGroup.GetOr([]) && HasGroup(fetched, g))
  {
    var requiredGroups := props.requiredGroups.GetOr([]);
    var requiredAnyGroup := props.requiredAnyGroup.GetOr([]);
    var adminOnly := props.adminOnly.GetOr(false);
    var moderatorOrAdmin := props.moderatorOrAdmin.GetOr(false);
    if adminOnly && !IsAdmin(fetched) then Fallback
    else if moderatorOrAdmin && !IsAdmin(fetched) && !IsModerator(fetched) then Fallback
    else if |requiredGroups| > 0 && !All(requiredGroups, (g: string) => HasGroup(fetched, g)) then Fallback
    else if |requiredAnyGroup| > 0 && !Any(requiredAnyGroup, (g: string) => HasGroup(fetched, g)) then Fallback
    else Children
  }

  /** `<AdminOnly>`: the guard with only `adminOnly` set. */
  function AdminOnly(fetched: seq<UserGroup>): (r: Rendered)
    ensures r == Guard(NoProps.(adminOnly := Some(true)), fetched)
    ensures r == Children <==> IsAdmin(fetched)
  {
    Guard(GuardProps(None, None, Some(true), None), fetched)
  }

  /** `<ModeratorOrAdmin>`: the guard with only `moderatorOrAdmin` set. */
  function ModeratorOrAdmin(fetched: seq<UserGroup>): (r: Rendered)
    ensures r == Guard(NoProps.(moderatorOrAdmin := Some(true)), fetched)
    ensures r == Children <==> IsAdmin(fetched) || IsModerator(fetched)
  {
    Guard(GuardProps(None, None, None, Some(true)), fetched)
  }

  /** `useRoleCheck().canAccess(groups)`. */
  function CanAccess(fetched: seq<UserGroup>, names: seq<string>): (r: bool)
    ensures r <==> exists j :: 0 <= j < |names| && HasGroup(fetched, names[j])
    ensures names == [] ==> !r
  {
    Any(names, (n: string) => HasGroup(fetched, n))
  }

  /** `useRoleCheck().hasAnyRole(roles)`: a group-name test, not a role ARN
      test, so it is the same as `canAccess`. */
  function HasAnyRole(fetched: seq<UserGroup>, roles: seq<string>): (r: bool)
    ensures r == CanAccess(fetched, roles) && r == HasAnyGroup(fetched, roles)
    ensures roles == [] ==> !r
  {
    Any(roles, (n: string) => HasGroup(fetched, n))
  }

  // ---------------------------------------------------------------------
  // Properties
  // ---------------------------------------------------------------------

  /** With every prop at its default, any user sees the children. */
  lemma DefaultsRenderChildren(fetched: seq<UserGroup>)
    ensures Guard(NoProps, fetched) == Children
    ensures Guard(GuardProps(Some([]), Some([]), Some(false), Some(false)), fetched) == Children
  {
  }

  /** Each failing check alone is enough for the fallback. */
  lemma AnyFailingCheckFallsBack(props: GuardProps, fetched: seq<UserGroup>)
    ensures props.adminOnly == Some(true) && !IsAdmin(fetched) ==> Guard(props, fetched) == Fallback
    ensures props.moderatorOrAdmin == Some(true) && !IsAdmin(fetched) && !IsModerator(fetched) ==>
      Guard(props, fetched) == Fallback
    ensures forall g :: g in props.requiredGroups.GetOr([]) && !HasGroup(fetched, g) ==>
      Guard(props, fetched) == Fallback
    ensures props.requiredAnyGroup.Some? && props.requiredAnyGroup.value != [] &&
            !HasAnyGroup(fetched, props.requiredAnyGroup.value)
            ==> Guard(props, fetched) == Fallback
  {
  }

  /** A user who gains groups never loses access: every check is a
      positive membership test. */
  lemma {:induction false} GuardMonotone(props: GuardProps, fetched: seq<UserGroup>, more: seq<UserGroup>)
    requires forall g :: g in fetched ==> g in more
    requires Guard(props, fetched) == Children
    ensures Guard(props, more) == Children
  {
    forall name | HasGroup(fetched, name)
      ensures HasGroup(more, name)
    {
      HasGroupMonotone(fetched, more, name);
    }
    assert IsAdmin(fetched) ==> IsAdmin(more) by {
      if IsAdmin(fetched) {
        assert HasGroup(fetched, "Administrators") || HasGroup(fetched, "Admin");
      }
    }
    assert IsModerator(fetched) ==> IsModerator(more) by {
      if IsModerator(fetched) {
        assert HasGroup(fetched, "Moderators") || HasGroup(fetched, "Moderator");
      }
    }
  }
}
