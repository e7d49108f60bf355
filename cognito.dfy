/** The Cognito user-pool requests the routes issue, the server
    configuration they read, and the permission-error test their catch
    blocks share. The SDK client itself is not modelled: each route receives
    `send` as a function from a request to its response or the value it
    throws. */
module Cognito {
  import opened Wrappers
  import opened Text

  /** `{ Name, Value }` of a user attribute. */
  datatype Attribute = Attribute(name: string, value: string)

  datatype Command =
    | AdminCreateUser(userPoolId: string, username: string, userAttributes: seq<Attribute>,
                      messageAction: string, temporaryPassword: Option<string>)
    | AdminSetUserPassword(userPoolId: string, username: string, password: string, permanent: bool)
    | AdminAddUserToGroup(userPoolId: string, username: string, groupName: string)
    | ListGroups(userPoolId: string, limit: int)
    | InitiateAuth(clientId: string, authFlow: string, authParameters: map<string, string>)

  /** The environment the routes read: the two AWS credential variables
      (absent or empty is "not configured") and the pool settings. */
  datatype ServerEnv = ServerEnv(
    accessKeyId: Option<string>,
    secretAccessKey: Option<string>,
    userPoolId: string,
    clientId: string,
    clientSecret: Option<string>)

  /** A string-valued field is truthy: present and not "". */
  predicate Present(s: Option<string>)
  {
    s.Some? && s.value != ""
  }

  /** `process.env.AWS_ACCESS_KEY_ID && process.env.AWS_SECRET_ACCESS_KEY`. */
  predicate HasCredentials(env: ServerEnv)
  {
    Present(env.accessKeyId) && Present(env.secretAccessKey)
  }

  /** The phrase by which the catch blocks recognise an IAM denial. */
  const NotAuthorizedPhrase: string := "is not authorized to perform"

  /** `message.includes('is not authorized to perform')`. */
  predicate IsPermissionError(message: string)
  {
    Contains(message, NotAuthorizedPhrase)
  }
}
