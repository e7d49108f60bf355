/** The JWT payload decoder of src/lib/jwt-utils.ts: the payload segment of
    a compact JWS (RFC 7515, section 7.1; RFC 7519, section 3) is mapped
    from the base64url alphabet onto the standard one, decoded by `atob`,
    escaped byte by byte and read back as UTF-8 by `decodeURIComponent`,
    then parsed as JSON. Any failure yields `null`; no signature, issuer or
    expiry is checked. */
module Jwt {
  import opened Wrappers
  import opened Text
  import opened Json
  import Base64
  import Utf8
  import Uri

  /** `token.split('.')[1]`: the second segment, `undefined` (None) when the
      token has no '.'. */
  function PayloadSegment(token: string): (r: Option<string>)
    ensures r.Some? <==> '.' in token
  {
    var parts := Split(token, '.');
    if |parts| < 2 then
      assert parts == [token];
      None
    else
      assert '.' in token by {
        assert token == parts[0] + ['.'] + Join(parts[1..], '.');
        assert token[|parts[0]|] == '.';
      }
      Some(parts[1])
  }

  /** The text a payload segment carries: alphabet map, `atob`, `%xx`
      escapes, `decodeURIComponent`; None where one of them throws. The
      escape round trip is exactly UTF-8 decoding of the bytes `atob`
      produced. */
  function SegmentText(segment: string): (r: Option<string>)
    ensures Base64.Atob(Base64.UrlToStd(segment)).None? ==> r.None?
    ensures Base64.Atob(Base64.UrlToStd(segment)).Some? ==>
      r == Utf8.Decode(Base64.Atob(Base64.UrlToStd(segment)).value)
  {
    match Base64.Atob(Base64.UrlToStd(segment))
    case None => None
    case Some(bytes) =>
      Uri.DecodePercentString(bytes);
      Uri.DecodeURIComponent(Uri.PercentString(bytes))
  }

  /** The parsed payload of one segment, `null` on any failure: a text
      that parses gives its value, and a non-null result is what `parse`
      made of the segment's text. */
  function DecodeSegment(segment: string, parse: string -> Option<Json>): (r: Json)
    ensures SegmentText(segment).None? ==> r == JNull
    ensures SegmentText(segment).Some? ==>
      (parse(SegmentText(segment).value).None? ==> r == JNull) &&
      (parse(SegmentText(segment).value).Some? ==> r == parse(SegmentText(segment).value).value) &&
      (r != JNull ==> parse(SegmentText(segment).value) == Some(r))
  {
    ParsedOrNull(SegmentText(segment), parse)
  }

  /** `JSON.parse` inside the try block: a missing text or a parse error
      gives `null`, and a text that parses gives the parsed value. */
  function ParsedOrNull(text: Option<string>, parse: string -> Option<Json>): (r: Json)
    ensures text.None? ==> r == JNull
    ensures text.Some? ==> (parse(text.value).None? ==> r == JNull) && (r != JNull ==> parse(text.value) == Some(r))
    ensures text.Some? && parse(text.value).Some? ==> r == parse(text.value).value
  {
    match text
    case None => JNull
    case Some(t) => parse(t).GetOr(JNull)
  }

  /** `decodeJWT(token)`: null without a second segment; otherwise the
      decoded segment: the parse of the text of segment 1 when there is one,
      and null when that text is missing or does not parse. */
  function DecodeJwt(token: string, parse: string -> Option<Json>): (r: Json)
    ensures '.' !in token ==> r == JNull
    ensures '.' in token && SegmentText(PayloadSegment(token).value).Some?
      && parse(SegmentText(PayloadSegment(token).value).value).Some?
      ==> r == parse(SegmentText(PayloadSegment(token).value).value).value
    ensures '.' in token && (SegmentText(PayloadSegment(token).value).None?
      || parse(SegmentText(PayloadSegment(token).value).value).None?)
      ==> r == JNull
    ensures r != JNull ==>
      && '.' in token
      && SegmentText(PayloadSegment(token).value).Some?
      && parse(SegmentText(PayloadSegment(token).value).value) == Some(r)
  {
    match PayloadSegment(token)
    case None => JNull
    case Some(segment) => DecodeSegment(segment, parse)
  }

  /** The record `extractUserInfo` builds. A claim the payload lacks is
      `undefined` (None); `groups` and `roles` are never undefined. */
  datatype UserInfo = UserInfo(
    username: Option<Json>,
    email: Option<Json>,
    groups: Json,
    roles: Json,
    givenName: Option<Json>,
    familyName: Option<Json>,
    emailVerified: Option<Json>,
    exp: Option<Json>,
    iat: Option<Json>)

  /** The claim projection of `extractUserInfo`, from a decoded payload. */
  function ProjectClaims(payload: Json): (r: Option<UserInfo>)
    ensures r.None? <==> !Truthy(Some(payload))
    ensures r.Some? ==>
      && r.value.username == Get(payload, "sub")
      && r.value.email == Get(payload, "email")
      && r.value.givenName == Get(payload, "given_name")
      && r.value.familyName == Get(payload, "family_name")
      && r.value.emailVerified == Get(payload, "email_verified")
      && r.value.exp == Get(payload, "exp")
      && r.value.iat == Get(payload, "iat")
    ensures r.Some? ==>
      && (Truthy(Get(payload, "cognito:groups")) ==> Some(r.value.groups) == Get(payload, "cognito:groups"))
      && (!Truthy(Get(payload, "cognito:groups")) ==> r.value.groups == JArray([]))
      && (Truthy(Get(payload, "cognito:roles")) ==> Some(r.value.roles) == Get(payload, "cognito:roles"))
      && (!Truthy(Get(payload, "cognito:roles")) ==> r.value.roles == JArray([]))
  {
    if !Truthy(Some(payload)) then None
    else Some(UserInfo(
      username := Get(payload, "sub"),
      email := Get(payload, "email"),
      groups := Or(Get(payload, "cognito:groups"), JArray([])),
      roles := Or(Get(payload, "cognito:roles"), JArray([])),
      givenName := Get(payload, "given_name"),
      familyName := Get(payload, "family_name"),
      emailVerified := Get(payload, "email_verified"),
      exp := Get(payload, "exp"),
      iat := Get(payload, "iat")))
  }

  /** `extractUserInfo(idToken)`. */
  function ExtractUserInfo(idToken: string, parse: string -> Option<Json>): (r: Option<UserInfo>)
    ensures r.None? <==> !Truthy(Some(DecodeJwt(idToken, parse)))
    ensures '.' !in idToken ==> r.None?
  {
    ProjectClaims(DecodeJwt(idToken, parse))
  }

  // ---------------------------------------------------------------------
  // Properties
  // ---------------------------------------------------------------------

  /** Only the segment at index 1 matters: the header, the signature and
      any further segments are never looked at. */
  lemma OnlyPayloadSegment(parts: seq<string>, parse: string -> Option<Json>)
    requires |parts| >= 2
    requires forall i :: 0 <= i < |parts| ==> '.' !in parts[i]
    ensures DecodeJwt(Join(parts, '.'), parse) == DecodeSegment(parts[1], parse)
  {
    SplitJoin(parts, '.');
  }

  /** A string without '.' (such as "not-a-token") decodes to null. */
  lemma NoSeparatorIsNull(token: string, parse: string -> Option<Json>)
    requires '.' !in token
    ensures DecodeJwt(token, parse) == JNull
    ensures ExtractUserInfo(token, parse) == None
  {
  }

  /** Every failing stage yields null: invalid base64, bytes that are not
      UTF-8, text that is not JSON. */
  lemma FailuresAreNull(segment: string, parse: string -> Option<Json>)
    ensures Base64.Atob(Base64.UrlToStd(segment)) == None ==> DecodeSegment(segment, parse) == JNull
    ensures forall bytes ::
              Base64.Atob(Base64.UrlToStd(segment)) == Some(bytes) && Utf8.Decode(bytes) == None
              ==> DecodeSegment(segment, parse) == JNull
    ensures forall text ::
              SegmentText(segment) == Some(text) && parse(text) == None
              ==> DecodeSegment(segment, parse) == JNull
  {
  }

  /** The payload of a JWT whose middle segment is the base64url encoding
      of the UTF-8 bytes of JSON text `json` decodes to `JSON.parse(json)`,
      whatever the header and signature segments hold. */
  lemma DecodeEncodedPayload(header: string, json: string, signature: string, parse: string -> Option<Json>)
    requires '.' !in header && '.' !in signature
    ensures DecodeJwt(header + "." + Base64.EncodeUrl(Utf8.Encode(json)) + "." + signature, parse)
      == parse(json).GetOr(JNull)
  {
    var bytes := Utf8.Encode(json);
    var segment := Base64.EncodeUrl(bytes);
    Base64.EncodeUnpaddedAlphabet(bytes, true);
    var parts := [header, segment, signature];
    assert Join(parts, '.') == header + "." + segment + "." + signature by {
      assert Join(parts[1..], '.') == segment + "." + signature by {
        assert parts[1..][1..] == [signature];
      }
    }
    OnlyPayloadSegment(parts, parse);
    assert SegmentText(segment) == Some(json) by {
      Base64.AtobUrl(bytes);
      Utf8.DecodeEncode(json);
    }
  }

  /** The worked example of a payload carrying a subject, an e-mail address
      and one group, and no roles. */
  lemma ProjectExample()
    ensures var payload := JObject(map[
      "sub" := JString("u1"), "email" := JString("a@b.com"),
      "cognito:groups" := JArray([JString("Admins")])]);
      ProjectClaims(payload) == Some(UserInfo(
        Some(JString("u1")), Some(JString("a@b.com")),
        JArray([JString("Admins")]), JArray([]),
        None, None, None, None, None))
  {
  }
}
