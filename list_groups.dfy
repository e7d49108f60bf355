/** `GET /api/auth/list-groups` (src/app/api/auth/list-groups/route.ts):
    lists the groups of the user pool. Once the SDK's answer is an input the
    route is a pure function: a credential check, one ListGroups request, a
    field-by-field projection of the groups and the error classification. */
module ListGroups {
  import opened Wrappers
  import opened Exceptions
  import opened Cognito

  /** A group as ListGroups returns it; the dates are milliseconds since the
      epoch. */
  datatype RemoteGroup = RemoteGroup(
    groupName: Option<string>,
    description: Option<string>,
    roleArn: Option<string>,
    precedence: Option<int>,
    creationDate: Option<int>,
    lastModifiedDate: Option<int>)

  datatype ListGroupsOutput = ListGroupsOutput(groups: Option<seq<RemoteGroup>>)

  /** One group of the response body. */
  datatype GroupSummary = GroupSummary(
    groupName: Option<string>,
    description: Option<string>,
    roleArn: Option<string>,
    precedence: Option<int>,
    creationDate: Option<int>,
    lastModifiedDate: Option<int>)

  /** The JSON response: the groups and their count (status 200), or an
      error body with its status, which carries `groups: []` for the
      configuration and permission errors. */
  datatype ListResponse =
    | Listed(groups: seq<GroupSummary>, totalGroups: int)
    | Failed(status: int, error: string, groupsOnError: Option<seq<GroupSummary>>)

  /** The response together with the requests sent. */
  datatype RouteResult = RouteResult(response: ListResponse, log: seq<Command>)

  const CredentialsMessage: string :=
    "Credenciales de AWS no configuradas. Configura AWS_ACCESS_KEY_ID y AWS_SECRET_ACCESS_KEY en tu archivo .env.local"
  const DefaultErrorMessage: string := "Error al listar grupos"
  const PermissionHint: string :=
    "Error de permisos AWS: El usuario IAM no tiene permisos para listar grupos. Ve a AWS Console → IAM → tu usuario → Agregar políticas → AmazonCognitoPowerUser"
  const GroupLimit: int := 60

  function Summary(g: RemoteGroup): GroupSummary
  {
    GroupSummary(g.groupName, g.description, g.roleArn, g.precedence, g.creationDate, g.lastModifiedDate)
  }

  /** `response.Groups?.map(...) || []`. */
  function Project(groups: Option<seq<RemoteGroup>>): (r: seq<GroupSummary>)
    ensures groups.None? ==> r == []
    ensures groups.Some? ==> |r| == |groups.value|
    ensures groups.Some? ==> forall i :: 0 <= i < |r| ==>
      && r[i].groupName == groups.value[i].groupName
      && r[i].description == groups.value[i].description
      && r[i].roleArn == groups.value[i].roleArn
      && r[i].precedence == groups.value[i].precedence
      && r[i].creationDate == groups.value[i].creationDate
      && r[i].lastModifiedDate == groups.value[i].lastModifiedDate
  {
    match groups
    case None => []
    case Some(gs) => seq(|gs|, i requires 0 <= i < |gs| => Summary(gs[i]))
  }

  /** The projection loses nothing: the remote groups can be read back from
      it, so distinct answers give distinct bodies. */
  lemma ProjectInjective(a: seq<RemoteGroup>, b: seq<RemoteGroup>)
    requires Project(Some(a)) == Project(Some(b))
    ensures a == b
  {
    assert |a| == |b|;
    forall i | 0 <= i < |a|
      ensures a[i] == b[i]
    {
      assert Project(Some(a))[i] == Project(Some(b))[i];
    }
  }

  /** The projection keeps the order: it works group by group. */
  lemma ProjectAppend(a: seq<RemoteGroup>, b: seq<RemoteGroup>)
    ensures Project(Some(a + b)) == Project(Some(a)) + Project(Some(b))
  {
    var l, r := Project(Some(a + b)), Project(Some(a)) + Project(Some(b));
    assert |l| == |r|;
    forall i | 0 <= i < |l|
      ensures l[i] == r[i]
    {
      if i < |a| {
        assert (a + b)[i] == a[i];
      } else {
        assert (a + b)[i] == b[i - |a|];
      }
    }
  }

  /** The request of lines 18-21. */
  function Request(env: ServerEnv): Command
  {
    ListGroups(env.userPoolId, GroupLimit)
  }

  /** The error response of the catch block. */
  function ErrorResponse(t: Thrown): (r: ListResponse)
    ensures IsPermissionError(MessageOr(t, DefaultErrorMessage)) ==> r == Failed(403, PermissionHint, Some([]))
    ensures !IsPermissionError(MessageOr(t, DefaultErrorMessage)) ==>
      r == Failed(500, MessageOr(t, DefaultErrorMessage), None)
  {
    var message := MessageOr(t, DefaultErrorMessage);
    if IsPermissionError(message) then Failed(403, PermissionHint, Some([]))
    else Failed(500, message, None)
  }

  /** `GET()`, with `send` the SDK client. */
  function Get(env: ServerEnv, send: Command -> Result<ListGroupsOutput, Thrown>): (r: RouteResult)
    ensures !HasCredentials(env) <==> r.log == []
    ensures !HasCredentials(env) ==> r.response == Failed(500, CredentialsMessage, Some([]))
    ensures HasCredentials(env) ==> r.log == [ListGroups(env.userPoolId, 60)]
    ensures r.response.Listed? ==> r.response.totalGroups == |r.response.groups|
    ensures HasCredentials(env) && send(Request(env)).Ok? ==>
      r.response == Listed(Project(send(Request(env)).value.groups), |Project(send(Request(env)).value.groups)|)
    ensures HasCredentials(env) && send(Request(env)).Err? ==> r.response == ErrorResponse(send(Request(env)).error)
  {
    if !HasCredentials(env) then RouteResult(Failed(500, CredentialsMessage, Some([])), [])
    else
      var request := Request(env);
      match send(request)
      case Err(t) => RouteResult(ErrorResponse(t), [request])
      case Ok(output) =>
        var groups := Project(output.groups);
        RouteResult(Listed(groups, |groups|), [request])
  }

  /** Every response that reports groups without an error reports them
      with their count, and every error response other than a generic 500
      carries an empty list. */
  lemma ResponseShapes(env: ServerEnv, send: Command -> Result<ListGroupsOutput, Thrown>)
    ensures var r := Get(env, send).response;
      && (r.Failed? && r.status == 403 ==> r.groupsOnError == Some([]) && r.error == PermissionHint)
      && (r.Failed? && r.groupsOnError.None? ==> r.status == 500)
      && (r.Failed? ==> r.status == 403 || r.status == 500)
  {
    if HasCredentials(env) && send(Request(env)).Err? {
      var t := send(Request(env)).error;
      assert PermissionHint != CredentialsMessage;
    }
  }
}
