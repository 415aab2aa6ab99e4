/**
 * HTTP Basic and API-key authentication for the web API. The effect of a
 * successful check (setting the request's authenticated user) is returned as
 * part of the outcome instead of being written to a request global.
 */
module Auth {
  import opened Wrappers
  import opened ErrorHandlers

  const DEFAULT_REALM := "CreatureBox API"
  const DEFAULT_HEADER := "X-API-Key"
  const AUTH_REQUIRED_BODY := "Authentication required"

  /** Basic authentication: a table from user name to password and a realm. */
  datatype BasicAuth = BasicAuth(users: map<string, string>, realm: string)

  /** API-key authentication: a table from key to user identifier and the header carrying the key. */
  datatype APIKeyAuth = APIKeyAuth(apiKeys: map<string, string>, headerName: string)

  /** Credentials parsed from an `Authorization: Basic` header. */
  datatype Credentials = Credentials(username: string, password: string)

  /** What a protected view does with a request. */
  datatype Outcome =
    | Proceed(authUser: Option<string>, authApiKey: Option<string>)   // the view runs
    | Challenge(status: int, body: string, wwwAuthenticate: string)   // a 401 response
    | Raised(error: APIError)                                         // an APIError is raised

  /** `BasicAuth()` built with no arguments: no users and the default realm. */
  const DefaultBasicAuth := BasicAuth(map[], DEFAULT_REALM)

  /** `APIKeyAuth()` built with no arguments: no keys and the default header. */
  const DefaultAPIKeyAuth := APIKeyAuth(map[], DEFAULT_HEADER)

  /** The user name is registered and its password is the given one. */
  predicate CheckCredentials(a: BasicAuth, username: string, password: string): (ok: bool)
    ensures ok <==> (username, password) in a.users.Items
  {
    username in a.users && a.users[username] == password
  }

  /** The 401 challenge naming the realm. */
  function Authenticate(a: BasicAuth): (o: Outcome)
    ensures o.Challenge? && o.status == 401 && o.body == AUTH_REQUIRED_BODY
    ensures o.wwwAuthenticate == "Basic realm=\"" + a.realm + "\""
  {
    Challenge(401, AUTH_REQUIRED_BODY, "Basic realm=\"" + a.realm + "\"")
  }

  /** A view protected by Basic authentication, given the request's credentials if any. */
  function RequireAuth(a: BasicAuth, auth: Option<Credentials>): (o: Outcome)
    ensures o.Proceed? <==> auth.Some? && CheckCredentials(a, auth.value.username, auth.value.password)
    ensures o.Proceed? ==> o.authUser == Some(auth.value.username) && o.authApiKey.None?
    ensures !o.Proceed? ==> o == Authenticate(a)
  {
    if auth.None? then Authenticate(a)
    else if !CheckCredentials(a, auth.value.username, auth.value.password) then Authenticate(a)
    else Proceed(Some(auth.value.username), None)
  }

  /** The user identifier registered for a key, or `None`. */
  function CheckApiKey(k: APIKeyAuth, apiKey: string): (user: Option<string>)
    ensures user.Some? <==> apiKey in k.apiKeys
    ensures user.Some? ==> user.value == k.apiKeys[apiKey]
  {
    if apiKey in k.apiKeys then Some(k.apiKeys[apiKey]) else None
  }

  /**
   * A view protected by an API key, given the value of the configured header
   * if the request carries it. A missing or empty key and a key mapped to no
   * user (or to an empty identifier) raise PERMISSION_DENIED.
   */
  function RequireApiKey(k: APIKeyAuth, headerValue: Option<string>): (o: Outcome)
    ensures (headerValue.None? || headerValue.value == "") ==>
              o == Raised(APIError(PERMISSION_DENIED, "API key required", None))
    ensures o.Proceed? <==> headerValue.Some? && headerValue.value != "" && headerValue.value in k.apiKeys && k.apiKeys[headerValue.value] != ""
    ensures o.Proceed? ==> o.authUser == Some(k.apiKeys[headerValue.value]) && o.authApiKey == headerValue
    ensures headerValue.Some? && headerValue.value != "" && !o.Proceed? ==>
              o == Raised(APIError(PERMISSION_DENIED, "Invalid API key", None))
  {
    if headerValue.None? || headerValue.value == "" then
      Raised(APIError(PERMISSION_DENIED, "API key required", None))
    else
      var userId := CheckApiKey(k, headerValue.value);
      if userId.None? || userId.value == "" then
        Raised(APIError(PERMISSION_DENIED, "Invalid API key", None))
      else
        Proceed(userId, headerValue)
  }

  /**
   * `auth_required`: Basic authentication when it is registered, else API-key
   * authentication when that is registered, else the view runs unauthenticated.
   */
  function AuthRequired(basic: Option<BasicAuth>, apiKey: Option<APIKeyAuth>,
                        auth: Option<Credentials>, headerValue: Option<string>): (o: Outcome)
    ensures basic.Some? ==> o == RequireAuth(basic.value, auth)
    ensures basic.None? && apiKey.Some? ==> o == RequireApiKey(apiKey.value, headerValue)
    ensures basic.None? && apiKey.None? ==> o == Proceed(None, None)
  {
    if basic.Some? then RequireAuth(basic.value, auth)
    else if apiKey.Some? then RequireApiKey(apiKey.value, headerValue)
    else Proceed(None, None)
  }

  /** Once Basic authentication is registered, the API key a request carries plays no part. */
  lemma BasicAuthTakesPrecedence(basic: BasicAuth, apiKey: Option<APIKeyAuth>,
                                 auth: Option<Credentials>, h1: Option<string>, h2: Option<string>)
    ensures AuthRequired(Some(basic), apiKey, auth, h1) == AuthRequired(Some(basic), apiKey, auth, h2)
  {
  }

  /** A view runs without an authenticated user only when no scheme is registered. */
  lemma UnauthenticatedOnlyWithoutSchemes(basic: Option<BasicAuth>, apiKey: Option<APIKeyAuth>,
                                          auth: Option<Credentials>, headerValue: Option<string>)
    requires AuthRequired(basic, apiKey, auth, headerValue) == Proceed(None, None)
    ensures basic.None? && apiKey.None?
  {
  }

  /** With the default (empty) tables every request is refused. */
  lemma DefaultsRefuseEveryone(auth: Option<Credentials>, headerValue: Option<string>)
    ensures RequireAuth(DefaultBasicAuth, auth) == Challenge(401, AUTH_REQUIRED_BODY, "Basic realm=\"" + DEFAULT_REALM + "\"")
    ensures RequireApiKey(DefaultAPIKeyAuth, headerValue).Raised?
  {
  }

  /** A refused API key is answered with HTTP 403. */
  lemma ApiKeyRefusalIsForbidden(k: APIKeyAuth, headerValue: Option<string>)
    requires RequireApiKey(k, headerValue).Raised?
    ensures HandleApiError(RequireApiKey(k, headerValue).error).1 == 403
  {
  }
}
