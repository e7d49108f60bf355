/** `POST /api/auth/signin` (src/app/api/auth/signin/route.ts): checks the
    body, computes the SECRET_HASH of the app client, starts the
    USER_PASSWORD_AUTH flow, and shapes the answer: a challenge, the signed-in
    user built from the tokens and the ID token's claims, or an error. */
module Signin {
  import opened Wrappers
  import opened Text
  import opened Json
  import opened Exceptions
  import opened Cognito
  import Base64
  import Utf8
  import Jwt

  datatype SigninBody = SigninBody(username: Option<string>, password: Option<string>)

  /** `AuthenticationResult` of the InitiateAuth response. */
  datatype AuthResult = AuthResult(accessToken: Option<string>, refreshToken: Option<string>, idToken: Option<string>)

  datatype InitiateAuthOutput = InitiateAuthOutput(
    challengeName: Option<string>,
    session: Option<string>,
    authenticationResult: Option<AuthResult>)

  /** The `user` object of a successful sign-in. */
  datatype SigninUser = SigninUser(
    username: string,
    email: Option<Json>,
    accessToken: Option<string>,
    refreshToken: Option<string>,
    idToken: Option<string>,
    groups: Json,
    roles: Json)

  /** The JSON response: a challenge to answer or the signed-in user (both
      status 200 with `success: true`), or an error body with its status. */
  datatype SigninResponse =
    | Challenge(challengeName: string, session: Option<string>)
    | SignedIn(user: SigninUser)
    | Failed(status: int, error: string)

  const RequiredMessage: string := "Username y password son requeridos"
  const UnexpectedMessage: string := "Respuesta inesperada del servidor"
  const DefaultErrorMessage: string := "Error en el inicio de sesión"
  const UserPasswordAuth: string := "USER_PASSWORD_AUTH"

  /** HMAC-SHA256 (RFC 2104), not modelled: a function from key bytes and
      message bytes to the 32-byte digest. */
  type Hmac = (seq<Byte>, seq<Byte>) -> seq<Byte>

  // ---------------------------------------------------------------------
  // SECRET_HASH
  // ---------------------------------------------------------------------

  /** `generateSecretHash(username)`: HMAC keyed by the client secret over
      the UTF-8 bytes of `username + clientId`, as padded base64. */
  function SecretHash(hmac: Hmac, clientSecret: string, clientId: string, username: string): (r: string)
    ensures r == Base64.Encode(hmac(Utf8.Encode(clientSecret), Utf8.Encode(username) + Utf8.Encode(clientId)))
    ensures |r| % 4 == 0
    ensures Base64.Atob(r) == Some(hmac(Utf8.Encode(clientSecret), Utf8.Encode(username) + Utf8.Encode(clientId)))
  {
    var digest := hmac(Utf8.Encode(clientSecret), Utf8.Encode(username + clientId));
    Utf8.EncodeAppend(username, clientId);
    Base64.AtobEncode(digest);
    Base64.Encode(digest)
  }

  /** Different users sign different messages: the digest input of one
      user name is never that of another, for the same client id. */
  lemma DistinctMessages(clientId: string, u1: string, u2: string)
    ensures u1 != u2 ==> Utf8.Encode(u1) + Utf8.Encode(clientId) != Utf8.Encode(u2) + Utf8.Encode(clientId)
  {
    if Utf8.Encode(u1) + Utf8.Encode(clientId) == Utf8.Encode(u2) + Utf8.Encode(clientId) {
      Utf8.EncodeAppend(u1, clientId);
      Utf8.EncodeAppend(u2, clientId);
      Utf8.EncodeInjective(u1 + clientId, u2 + clientId);
      assert |u1| == |u2|;
      assert u1 == (u1 + clientId)[..|u1|];
      assert u2 == (u2 + clientId)[..|u2|];
    }
  }

  /** Equal hashes mean equal digests of the two messages: with
      DistinctMessages, two users share a SECRET_HASH only through an HMAC
      collision. */
  lemma SharedHashIsCollision(hmac: Hmac, clientSecret: string, clientId: string, u1: string, u2: string)
    ensures SecretHash(hmac, clientSecret, clientId, u1) == SecretHash(hmac, clientSecret, clientId, u2) ==>
      hmac(Utf8.Encode(clientSecret), Utf8.Encode(u1) + Utf8.Encode(clientId))
        == hmac(Utf8.Encode(clientSecret), Utf8.Encode(u2) + Utf8.Encode(clientId))
  {
  }

  /** The InitiateAuth request of line 29. */
  function AuthRequest(env: ServerEnv, username: string, password: string, secretHash: string): Command
  {
    InitiateAuth(env.clientId, UserPasswordAuth,
      map["USERNAME" := username, "PASSWORD" := password, "SECRET_HASH" := secretHash])
  }

  /** The request carries exactly the user name, the password and a
      SECRET_HASH that decodes to the digest of the user name followed by
      the client id, keyed by the client secret. */
  lemma RequestParameters(env: ServerEnv, hmac: Hmac, clientSecret: string, username: string, password: string)
    ensures var r := AuthRequest(env, username, password, SecretHash(hmac, clientSecret, env.clientId, username));
      && r.InitiateAuth?
      && r.clientId == env.clientId
      && r.authFlow == "USER_PASSWORD_AUTH"
      && r.authParameters.Keys == {"USERNAME", "PASSWORD", "SECRET_HASH"}
      && r.authParameters["USERNAME"] == username
      && r.authParameters["PASSWORD"] == password
      && Base64.Atob(r.authParameters["SECRET_HASH"])
           == Some(hmac(Utf8.Encode(clientSecret), Utf8.Encode(username) + Utf8.Encode(env.clientId)))
  {
  }

  // ---------------------------------------------------------------------
  // The user record
  // ---------------------------------------------------------------------

  /** The user of a successful sign-in: the name from the body, the tokens
      from the response, e-mail, groups and roles from the ID token's
      claims, with `[]` for groups and roles when there are none. */
  function SignedInUser(username: string, result: AuthResult, parse: string -> Option<Json>): (u: SigninUser)
    ensures u.username == username
    ensures u.accessToken == result.accessToken && u.refreshToken == result.refreshToken
    ensures u.idToken == result.idToken
    ensures !Present(result.idToken) ==> u.email == None && u.groups == JArray([]) && u.roles == JArray([])
    ensures Present(result.idToken) ==>
      var info := Jwt.ExtractUserInfo(result.idToken.value, parse);
      && (info.None? ==> u.email == None && u.groups == JArray([]) && u.roles == JArray([]))
      && (info.Some? ==> u.email == info.value.email && u.groups == info.value.groups && u.roles == info.value.roles)
  {
    var info := if Present(result.idToken) then Jwt.ExtractUserInfo(result.idToken.value, parse) else None;
    SigninUser(
      username,
      if info.Some? then info.value.email else None,
      result.accessToken,
      result.refreshToken,
      result.idToken,
      Or(if info.Some? then Some(info.value.groups) else None, JArray([])),
      Or(if info.Some? then Some(info.value.roles) else None, JArray([])))
  }

  /** The groups of a signed-in user are the `cognito:groups` claim of the
      ID token when it is truthy. */
  lemma GroupsFromClaim(username: string, result: AuthResult, parse: string -> Option<Json>)
    requires Present(result.idToken)
    requires var payload := Jwt.DecodeJwt(result.idToken.value, parse);
      Truthy(Some(payload)) && Truthy(Get(payload, "cognito:groups"))
    ensures Some(SignedInUser(username, result, parse).groups)
      == Get(Jwt.DecodeJwt(result.idToken.value, parse), "cognito:groups")
  {
  }

  /** The whole path from a token to the record: an ID token whose payload
      segment carries the JSON text `json` gives the user the groups claim
      of `parse(json)`. */
  lemma GroupsFromEncodedToken(username: string, header: string, json: string, signature: string,
                               accessToken: Option<string>, refreshToken: Option<string>,
                               parse: string -> Option<Json>)
    requires '.' !in header && '.' !in signature
    requires parse(json).Some? && Truthy(parse(json)) && Truthy(Get(parse(json).value, "cognito:groups"))
    ensures var idToken := header + "." + Base64.EncodeUrl(Utf8.Encode(json)) + "." + signature;
      Some(SignedInUser(username, AuthResult(accessToken, refreshToken, Some(idToken)), parse).groups)
        == Get(parse(json).value, "cognito:groups")
  {
    var idToken := header + "." + Base64.EncodeUrl(Utf8.Encode(json)) + "." + signature;
    Jwt.DecodeEncodedPayload(header, json, signature, parse);
    assert idToken != "" by {
      assert |idToken| >= |header| + 2;
    }
    GroupsFromClaim(username, AuthResult(accessToken, refreshToken, Some(idToken)), parse);
  }

  // ---------------------------------------------------------------------
  // POST
  // ---------------------------------------------------------------------

  /** The error response of the catch block. */
  function ErrorResponse(t: Thrown): (r: SigninResponse)
    ensures r == Failed(500, MessageOr(t, DefaultErrorMessage))
  {
    Failed(500, MessageOr(t, DefaultErrorMessage))
  }

  /** The route. `body` is what `request.json()` resolves to or throws,
      `hmac` the digest function, `undefinedKeyError` what it throws when the
      client secret is not configured, `send` the SDK client and `parse`
      `JSON.parse`. `log` lists the requests sent. */
  method Post(env: ServerEnv, body: Result<SigninBody, Thrown>, hmac: Hmac, undefinedKeyError: Thrown,
              send: Command -> Result<InitiateAuthOutput, Thrown>, parse: string -> Option<Json>)
    returns (response: SigninResponse, log: seq<Command>)
    ensures body.Err? ==> response == ErrorResponse(body.error) && log == []
    ensures body.Ok? && (!Present(body.value.username) || !Present(body.value.password)) ==>
      response == Failed(400, RequiredMessage) && log == []
    ensures body.Ok? && Present(body.value.username) && Present(body.value.password) && env.clientSecret.None? ==>
      response == ErrorResponse(undefinedKeyError) && log == []
    ensures body.Ok? && Present(body.value.username) && Present(body.value.password) && env.clientSecret.Some? ==>
      var username := body.value.username.value;
      var request := AuthRequest(env, username, body.value.password.value,
                                 SecretHash(hmac, env.clientSecret.value, env.clientId, username));
      && log == [request]
      && match send(request)
         case Err(t) => response == ErrorResponse(t)
         case Ok(out) =>
           if Present(out.challengeName) then response == Challenge(out.challengeName.value, out.session)
           else if out.authenticationResult.Some? then
             response == SignedIn(SignedInUser(username, out.authenticationResult.value, parse))
           else response == Failed(500, UnexpectedMessage)
  {
    log := [];
    if body.Err? {
      return ErrorResponse(body.error), log;
    }
    var username, password := body.value.username, body.value.password;
    if !Present(username) || !Present(password) {
      return Failed(400, RequiredMessage), log;
    }
    if env.clientSecret.None? {
      return ErrorResponse(undefinedKeyError), log;
    }
    var secretHash := SecretHash(hmac, env.clientSecret.value, env.clientId, username.value);
    var command := AuthRequest(env, username.value, password.value, secretHash);
    log := log + [command];
    var sent := send(command);
    if sent.Err? {
      return ErrorResponse(sent.error), log;
    }
    var out := sent.value;
    if Present(out.challengeName) {
      return Challenge(out.challengeName.value, out.session), log;
    }
    if out.authenticationResult.Some? {
      var result := out.authenticationResult.value;
      var userInfo: Option<Jwt.UserInfo> := None;
      if Present(result.idToken) {
        userInfo := Jwt.ExtractUserInfo(result.idToken.value, parse);
      }
      var user := SigninUser(
        username.value,
        if userInfo.Some? then userInfo.value.email else None,
        result.accessToken,
        result.refreshToken,
        result.idToken,
        Or(if userInfo.Some? then Some(userInfo.value.groups) else None, JArray([])),
        Or(if userInfo.Some? then Some(userInfo.value.roles) else None, JArray([])));
      return SignedIn(user), log;
    }
    return Failed(500, UnexpectedMessage), log;
  }
}
