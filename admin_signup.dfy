/** `POST /api/auth/admin-signup` (src/app/api/auth/admin-signup/route.ts):
    creates a confirmed user on the administrator's behalf. It checks the
    credentials and the body, picks the password (supplied, or generated
    from the clock), then sends create, an optional permanent set-password
    and an optional add-to-group, in that order, stopping at the first
    request that throws. */
module AdminSignup {
  import opened Wrappers
  import opened Text
  import opened Exceptions
  import opened Cognito

  /** The fields the route reads from the JSON body; `temporaryPassword`
      defaults to false. */
  datatype SignupBody = SignupBody(
    username: Option<string>,
    email: Option<string>,
    password: Option<string>,
    birthdate: Option<string>,
    groupName: Option<string>,
    temporaryPassword: bool)

  datatype PasswordInfo = PasswordInfo(
    password: string,
    isGenerated: bool,
    isTemporary: bool,
    mustChangeOnFirstLogin: bool)

  /** The JSON response: the success body (status 200), or an error body
      with its status and, for a permission error, the original message. */
  datatype SignupResponse =
    | Created(message: string, userSub: Option<string>, isConfirmed: bool,
              groupAssigned: Option<string>, passwordInfo: PasswordInfo)
    | Failed(status: int, error: string, details: Option<string>)

  const CredentialsMessage: string := "Credenciales de AWS no configuradas para operaciones administrativas"
  const RequiredMessage: string := "Username y email son requeridos"
  const CreatedMessage: string := "Usuario interno creado exitosamente"
  const DefaultErrorMessage: string := "Error al crear usuario interno"
  const PermissionHint: string :=
    "Error de permisos AWS: El usuario IAM no tiene permisos suficientes. Ve a AWS Console → IAM → tu usuario → Agregar políticas → AmazonCognitoPowerUser"
  const DefaultBirthdate: string := "1990-01-01"

  // ---------------------------------------------------------------------
  // The generated password
  // ---------------------------------------------------------------------

  /** `generateTemporaryPassword()` at `Date.now() == now`: "TempPass", the
      last four digits of the millisecond clock, "!". */
  function GenerateTemporaryPassword(now: nat): (r: string)
    ensures 10 <= |r| <= 13 && r[..8] == "TempPass" && r[|r| - 1] == '!'
  {
    "TempPass" + SliceLast(Decimal(now), 4) + "!"
  }

  /** The generated password has 13 characters once the clock reads 1000
      ms or more, and between "TempPass" and "!" it holds decimal digits
      whose value is the clock modulo 10000. */
  lemma GeneratedPasswordFormat(now: nat)
    ensures var r := GenerateTemporaryPassword(now);
      && (now >= 1000 <==> |r| == 13)
      && (forall i :: 8 <= i < |r| - 1 ==> IsDecimalDigit(r[i]))
      && DigitsValue(r[8..|r| - 1], 10) == now % 10000
  {
    GeneratedPasswordLength(now);
    GeneratedPasswordDigits(now);
    GeneratedPasswordValue(now);
  }

  lemma GeneratedPasswordLength(now: nat)
    ensures now >= 1000 <==> |GenerateTemporaryPassword(now)| == 13
  {
    DecimalLength(now);
  }

  lemma GeneratedPasswordDigits(now: nat)
    ensures var r := GenerateTemporaryPassword(now);
      forall i :: 8 <= i < |r| - 1 ==> IsDecimalDigit(r[i])
  {
    var d := Decimal(now);
    var digits := SliceLast(d, 4);
    var r := GenerateTemporaryPassword(now);
    assert r == "TempPass" + digits + "!";
    forall i | 8 <= i < |r| - 1
      ensures IsDecimalDigit(r[i])
    {
      var j := |d| - |digits| + (i - 8);
      assert r[i] == d[j];
      DecimalDigit(now, j);
    }
  }

  lemma GeneratedPasswordValue(now: nat)
    ensures var r := GenerateTemporaryPassword(now);
      DigitsValue(r[8..|r| - 1], 10) == now % 10000
  {
    var r := GenerateTemporaryPassword(now);
    assert r[8..|r| - 1] == SliceLast(Decimal(now), 4);
    LastFourDigits(now);
  }

  lemma DecimalDigit(n: nat, i: int)
    requires 0 <= i < |Decimal(n)|
    ensures IsDecimalDigit(Decimal(n)[i])
  {
    assert 0 <= HexDigitValue(Decimal(n)[i]) < 10;
  }

  // ---------------------------------------------------------------------
  // The password policy and the request plan
  // ---------------------------------------------------------------------

  /** `finalPassword` and `isGeneratedPassword` after lines 31-37. */
  datatype PasswordChoice = PasswordChoice(finalPassword: string, isGenerated: bool)

  function ChoosePassword(body: SignupBody, now: nat): (c: PasswordChoice)
    ensures Present(body.password) ==> c == PasswordChoice(body.password.value, false)
    ensures !Present(body.password) ==> c == PasswordChoice(GenerateTemporaryPassword(now), true)
    ensures c.finalPassword != ""
  {
    if Present(body.password) then PasswordChoice(body.password.value, false)
    else PasswordChoice(GenerateTemporaryPassword(now), true)
  }

  /** Whether the user must change the password at first sign-in. */
  predicate IsTemporary(body: SignupBody, c: PasswordChoice)
  {
    body.temporaryPassword || c.isGenerated
  }

  /** The body passed validation (a truthy username and email). */
  predicate ValidBody(body: SignupBody)
  {
    Present(body.username) && Present(body.email)
  }

  function CreateCommand(env: ServerEnv, body: SignupBody, c: PasswordChoice): Command
    requires ValidBody(body)
  {
    AdminCreateUser(
      env.userPoolId,
      body.username.value,
      [Attribute("email", body.email.value),
       Attribute("email_verified", "true"),
       Attribute("birthdate", if Present(body.birthdate) then body.birthdate.value else DefaultBirthdate)],
      "SUPPRESS",
      if IsTemporary(body, c) then Some(c.finalPassword) else None)
  }

  /** The set-password request, sent when a password was supplied and not
      marked temporary (line 64). */
  function SetPasswordRequest(env: ServerEnv, body: SignupBody, c: PasswordChoice): (r: seq<Command>)
    requires ValidBody(body)
    ensures |r| <= 1
  {
    if c.finalPassword != "" && !body.temporaryPassword && !c.isGenerated
    then [AdminSetUserPassword(env.userPoolId, body.username.value, c.finalPassword, true)]
    else []
  }

  /** The add-to-group request, sent when a group name was given. */
  function GroupRequest(env: ServerEnv, body: SignupBody): (r: seq<Command>)
    requires ValidBody(body)
    ensures |r| <= 1
  {
    if Present(body.groupName)
    then [AdminAddUserToGroup(env.userPoolId, body.username.value, body.groupName.value)]
    else []
  }

  /** The requests for a valid body and a chosen password, in order. */
  function Requests(env: ServerEnv, body: SignupBody, c: PasswordChoice): (cmds: seq<Command>)
    requires ValidBody(body)
    ensures 1 <= |cmds| <= 3 && cmds[0] == CreateCommand(env, body, c)
  {
    [CreateCommand(env, body, c)] + SetPasswordRequest(env, body, c) + GroupRequest(env, body)
  }

  /** The requests a valid body leads to at time `now`, in order, when none
      throws. */
  function Plan(env: ServerEnv, body: SignupBody, now: nat): (cmds: seq<Command>)
    requires ValidBody(body)
    ensures 1 <= |cmds| <= 3 && cmds[0] == CreateCommand(env, body, ChoosePassword(body, now))
  {
    Requests(env, body, ChoosePassword(body, now))
  }

  /** What awaiting a list of requests in turn inside one `try` does: the
      requests sent, which are the list up to and including the first that
      throws, and what that one threw. */
  datatype Sent = Sent(log: seq<Command>, thrown: Option<Thrown>)

  function SendAll(cmds: seq<Command>, send: Command -> Result<Option<string>, Thrown>): (r: Sent)
    ensures |r.log| <= |cmds| && r.log == cmds[..|r.log|]
    ensures forall i :: 0 <= i < |r.log| - 1 ==> send(r.log[i]).Ok?
    ensures r.thrown.None? <==> r.log == cmds && forall i :: 0 <= i < |cmds| ==> send(cmds[i]).Ok?
    ensures r.thrown.Some? ==> r.log != [] && send(r.log[|r.log| - 1]) == Err(r.thrown.value)
  {
    if cmds == [] then Sent([], None)
    else match send(cmds[0])
      case Err(t) => Sent([cmds[0]], Some(t))
      case Ok(_) =>
        var rest := SendAll(cmds[1..], send);
        assert forall i :: 1 <= i < |cmds| ==> cmds[i] == cmds[1..][i - 1];
        Sent([cmds[0]] + rest.log, rest.thrown)
  }

  /** The error response of the catch block. */
  function ErrorResponse(t: Thrown): (r: SignupResponse)
    ensures r.Failed?
    ensures IsPermissionError(MessageOr(t, DefaultErrorMessage)) ==>
      r == Failed(403, PermissionHint, Some(MessageOr(t, DefaultErrorMessage)))
    ensures !IsPermissionError(MessageOr(t, DefaultErrorMessage)) ==>
      r == Failed(500, MessageOr(t, DefaultErrorMessage), None)
  {
    var message := MessageOr(t, DefaultErrorMessage);
    if IsPermissionError(message) then Failed(403, PermissionHint, Some(message))
    else Failed(500, message, None)
  }

  /** The success body for a valid request whose requests all went through. */
  function CreatedResponse(body: SignupBody, c: PasswordChoice, userSub: Option<string>): SignupResponse
  {
    Created(
      CreatedMessage,
      userSub,
      true,
      if Present(body.groupName) then body.groupName else None,
      PasswordInfo(c.finalPassword, c.isGenerated, IsTemporary(body, c), IsTemporary(body, c)))
  }

  /** The success body echoes the password the user was created with
      (supplied, or generated from the clock), flags it temporary and
      to-be-changed exactly when it was generated or marked temporary, and
      names the group, or null, given in the body. */
  lemma CreatedEchoesPassword(body: SignupBody, now: nat, userSub: Option<string>)
    ensures var r := CreatedResponse(body, ChoosePassword(body, now), userSub);
      && r.Created?
      && r.message == "Usuario interno creado exitosamente"
      && r.userSub == userSub
      && r.isConfirmed
      && r.passwordInfo.password == (if Present(body.password) then body.password.value else GenerateTemporaryPassword(now))
      && r.passwordInfo.isGenerated == !Present(body.password)
      && r.passwordInfo.isTemporary == r.passwordInfo.mustChangeOnFirstLogin
      && (r.passwordInfo.isTemporary <==> body.temporaryPassword || !Present(body.password))
      && (Present(body.groupName) ==> r.groupAssigned == body.groupName)
      && (!Present(body.groupName) ==> r.groupAssigned == None)
  {
  }

  // ---------------------------------------------------------------------
  // POST
  // ---------------------------------------------------------------------

  /** The route. `body` is what `request.json()` resolves to or throws,
      `now` the clock, and `send` the SDK client; for a create request its
      value is the `User.Username` of the response (the other responses are
      not read). `log` lists the requests sent, in order. */
  method Post(env: ServerEnv, body: Result<SignupBody, Thrown>, now: nat,
              send: Command -> Result<Option<string>, Thrown>)
    returns (response: SignupResponse, log: seq<Command>)
    ensures !HasCredentials(env) ==> response == Failed(500, CredentialsMessage, None) && log == []
    ensures HasCredentials(env) && body.Err? ==> response == ErrorResponse(body.error) && log == []
    ensures HasCredentials(env) && body.Ok? && !ValidBody(body.value) ==>
      response == Failed(400, RequiredMessage, None) && log == []
    ensures HasCredentials(env) && body.Ok? && ValidBody(body.value) ==>
      var sent := SendAll(Plan(env, body.value, now), send);
      && log == sent.log
      && (sent.thrown.Some? ==> response == ErrorResponse(sent.thrown.value))
      && (sent.thrown.None? ==>
            var c := ChoosePassword(body.value, now);
            response == CreatedResponse(body.value, c, send(CreateCommand(env, body.value, c)).value))
  {
    log := [];
    if !HasCredentials(env) {
      return Failed(500, CredentialsMessage, None), log;
    }
    if body.Err? {
      return ErrorResponse(body.error), log;
    }
    var b := body.value;
    if !Present(b.username) || !Present(b.email) {
      return Failed(400, RequiredMessage, None), log;
    }

    var finalPassword := if b.password.Some? then b.password.value else "";
    var isGeneratedPassword := false;
    if finalPassword == "" {
      finalPassword := GenerateTemporaryPassword(now);
      isGeneratedPassword := true;
    }
    var c := PasswordChoice(finalPassword, isGeneratedPassword);
    assert c == ChoosePassword(b, now);
    response, log := CreateUser(env, b, c, send);
  }

  /** Lines 39-101: the requests for a valid body and its password, sent in
      turn, and the response. */
  method CreateUser(env: ServerEnv, b: SignupBody, c: PasswordChoice,
                    send: Command -> Result<Option<string>, Thrown>)
    returns (response: SignupResponse, log: seq<Command>)
    requires ValidBody(b)
    ensures var sent := SendAll(Requests(env, b, c), send);
      && log == sent.log
      && (sent.thrown.Some? ==> response == ErrorResponse(sent.thrown.value))
      && (sent.thrown.None? ==> response == CreatedResponse(b, c, send(CreateCommand(env, b, c)).value))
  {
    var finalPassword, isGeneratedPassword := c.finalPassword, c.isGenerated;
    ghost var plan, rest := Requests(env, b, c), SetPasswordRequest(env, b, c) + GroupRequest(env, b);
    assert plan == [CreateCommand(env, b, c)] + rest;

    var create := CreateCommand(env, b, c);
    log := [create];
    var created := send(create);
    if created.Err? {
      return ErrorResponse(created.error), log;
    }
    assert SendAll(plan, send) == Sent([create] + SendAll(rest, send).log, SendAll(rest, send).thrown) by {
      assert plan[0] == create && plan[1..] == rest;
    }

    var after := SetPasswordThenGroup(env, b, c, send);
    log := log + after.log;
    if after.thrown.Some? {
      return ErrorResponse(after.thrown.value), log;
    }

    var temporary := b.temporaryPassword || isGeneratedPassword;
    response := Created(
      CreatedMessage,
      created.value,
      true,
      if Present(b.groupName) then b.groupName else None,
      PasswordInfo(finalPassword, isGeneratedPassword, temporary, temporary));
  }

  /** Lines 64-86, once the create request went through: the permanent
      set-password request when a password was supplied and not marked
      temporary, then the add-to-group request; the first that throws ends
      the run. */
  method SetPasswordThenGroup(env: ServerEnv, b: SignupBody, c: PasswordChoice,
                              send: Command -> Result<Option<string>, Thrown>)
    returns (sent: Sent)
    requires ValidBody(b)
    ensures sent == SendAll(SetPasswordRequest(env, b, c) + GroupRequest(env, b), send)
  {
    ghost var setStep, groupStep := SetPasswordRequest(env, b, c), GroupRequest(env, b);
    if c.finalPassword != "" && !b.temporaryPassword && !c.isGenerated {
      var setPassword := AdminSetUserPassword(env.userPoolId, b.username.value, c.finalPassword, true);
      var passwordSet := send(setPassword);
      assert (setStep + groupStep)[0] == setPassword && (setStep + groupStep)[1..] == groupStep;
      if passwordSet.Err? {
        return Sent([setPassword], Some(passwordSet.error));
      }
      var grouped := AddToGroup(env, b, send);
      sent := Sent([setPassword] + grouped.log, grouped.thrown);
    } else {
      assert setStep + groupStep == groupStep;
      sent := AddToGroup(env, b, send);
    }
  }

  /** Lines 76-86: the add-to-group request, sent when a group name was
      given. */
  method AddToGroup(env: ServerEnv, b: SignupBody, send: Command -> Result<Option<string>, Thrown>)
    returns (sent: Sent)
    requires ValidBody(b)
    ensures sent == SendAll(GroupRequest(env, b), send)
  {
    if Present(b.groupName) {
      var addToGroup := AdminAddUserToGroup(env.userPoolId, b.username.value, b.groupName.value);
      var added := send(addToGroup);
      assert GroupRequest(env, b) == [addToGroup];
      sent := if added.Err? then Sent([addToGroup], Some(added.error)) else Sent([addToGroup], None);
    } else {
      sent := Sent([], None);
    }
  }

  // ---------------------------------------------------------------------
  // Properties of the plan
  // ---------------------------------------------------------------------

  /** Exactly one way of setting the password applies: the create request
      carries the password as temporary, or a permanent set-password request
      follows, and the latter happens exactly when a password was supplied
      and not marked temporary. */
  lemma PasswordPolicy(env: ServerEnv, body: SignupBody, now: nat)
    requires ValidBody(body)
    ensures var plan := Plan(env, body, now);
      var c := ChoosePassword(body, now);
      && (plan[0].temporaryPassword.Some? <==> IsTemporary(body, c))
      && ((exists i :: 0 <= i < |plan| && plan[i].AdminSetUserPassword?) <==>
            Present(body.password) && !body.temporaryPassword)
      && ((exists i :: 0 <= i < |plan| && plan[i].AdminSetUserPassword?) <==>
            !plan[0].temporaryPassword.Some?)
  {
    var plan := Plan(env, body, now);
    var c := ChoosePassword(body, now);
    if !IsTemporary(body, c) {
      assert plan[1].AdminSetUserPassword?;
    }
  }

  /** The order of the requests: create first, then the set-password
      request if any, then the add-to-group request, sent exactly when a
      group name was given, last. */
  lemma RequestOrder(env: ServerEnv, body: SignupBody, now: nat)
    requires ValidBody(body)
    ensures var plan := Plan(env, body, now);
      && plan[0].AdminCreateUser?
      && (forall i :: 1 <= i < |plan| ==> !plan[i].AdminCreateUser?)
      && (forall i :: 0 <= i < |plan| && plan[i].AdminSetUserPassword? ==> i == 1)
      && (Present(body.groupName) <==> plan[|plan| - 1].AdminAddUserToGroup?)
      && (Present(body.groupName) ==>
            plan[|plan| - 1] == AdminAddUserToGroup(env.userPoolId, body.username.value, body.groupName.value))
      && (forall i :: 0 <= i < |plan| - 1 ==> !plan[i].AdminAddUserToGroup?)
  {
    RequestOrderFor(env, body, ChoosePassword(body, now));
  }

  /** The same order for any choice of password. */
  lemma RequestOrderFor(env: ServerEnv, body: SignupBody, c: PasswordChoice)
    requires ValidBody(body)
    ensures var plan := Requests(env, body, c);
      && plan[0].AdminCreateUser?
      && (forall i :: 1 <= i < |plan| ==> !plan[i].AdminCreateUser?)
      && (forall i :: 0 <= i < |plan| && plan[i].AdminSetUserPassword? ==> i == 1)
      && (Present(body.groupName) <==> plan[|plan| - 1].AdminAddUserToGroup?)
      && (Present(body.groupName) ==>
            plan[|plan| - 1] == AdminAddUserToGroup(env.userPoolId, body.username.value, body.groupName.value))
      && (forall i :: 0 <= i < |plan| - 1 ==> !plan[i].AdminAddUserToGroup?)
  {
    var create, setStep, groupStep := CreateCommand(env, body, c), SetPasswordRequest(env, body, c), GroupRequest(env, body);
    var plan := Requests(env, body, c);
    assert plan == [create] + setStep + groupStep;
    if groupStep == [] {
      assert plan == [create] + setStep;
    } else {
      assert plan[|plan| - 1] == groupStep[0];
      assert plan[..|plan| - 1] == [create] + setStep;
    }
  }

  /** The create request: verified e-mail, birthdate or its default,
      welcome message suppressed. */
  lemma CreateRequestFields(env: ServerEnv, body: SignupBody, now: nat)
    requires ValidBody(body)
    ensures var create := Plan(env, body, now)[0];
      && create.userPoolId == env.userPoolId
      && create.username == body.username.value
      && create.messageAction == "SUPPRESS"
      && Attribute("email", body.email.value) in create.userAttributes
      && Attribute("email_verified", "true") in create.userAttributes
      && (Present(body.birthdate) ==> Attribute("birthdate", body.birthdate.value) in create.userAttributes)
      && (!Present(body.birthdate) ==> Attribute("birthdate", "1990-01-01") in create.userAttributes)
  {
    var create := Plan(env, body, now)[0];
    assert create.userAttributes[0] == Attribute("email", body.email.value);
    assert create.userAttributes[1] == Attribute("email_verified", "true");
    assert create.userAttributes[2].name == "birthdate";
  }

  /** A generated password is always temporary: the create request
      carries it, and no set-password request follows. */
  lemma GeneratedIsTemporary(env: ServerEnv, body: SignupBody, now: nat)
    requires ValidBody(body) && !Present(body.password)
    ensures Plan(env, body, now)[0].temporaryPassword == Some(GenerateTemporaryPassword(now))
    ensures forall i :: 0 <= i < |Plan(env, body, now)| ==> !Plan(env, body, now)[i].AdminSetUserPassword?
  {
    GeneratedChoice(env, body, ChoosePassword(body, now));
  }

  /** The same for any generated choice of password. */
  lemma GeneratedChoice(env: ServerEnv, body: SignupBody, c: PasswordChoice)
    requires ValidBody(body) && c.isGenerated
    ensures Requests(env, body, c)[0].temporaryPassword == Some(c.finalPassword)
    ensures forall i :: 0 <= i < |Requests(env, body, c)| ==> !Requests(env, body, c)[i].AdminSetUserPassword?
  {
    assert SetPasswordRequest(env, body, c) == [];
    assert Requests(env, body, c) == [CreateCommand(env, body, c)] + GroupRequest(env, body);
  }
}
