/** `get_current_user`: who is making a request. The answer comes from the
    `access_token` cookie alone: the token must be present and non-empty,
    must verify to a user id, and that id must name a stored user. Every
    failure is the same 401 error. Token verification (signature and expiry
    checks of the JWT library) is a function the resolver receives. */
module CurrentUser {
  import opened Wrappers
  import opened UserModel
  import ErrorCodes

  const TokenCookie := "access_token"

  /** The single error every failed resolution raises. */
  const NotLoggedIn := ErrorCodes.HttpError(401, "Please log in to continue", ErrorCodes.Unauthorized)

  /** What the handler receives; only the cookies matter for identity. */
  datatype Request = Request(
    cookies: map<string, string>,
    headers: map<string, string>,
    query: map<string, string>,
    body: string)

  datatype Resolution = Ok(user: User) | Unauthorized(error: ErrorCodes.HttpError)

  /** The token the request carries, if any: `request.cookies.get("access_token")`. */
  function TokenOf(request: Request): (r: Option<string>)
    ensures r.Some? <==> TokenCookie in request.cookies
    ensures r.Some? ==> r.value == request.cookies[TokenCookie]
  {
    if TokenCookie in request.cookies then Some(request.cookies[TokenCookie]) else None
  }

  /** `get_current_user`: the stored user whose id the verified cookie token
      names; otherwise `NotLoggedIn`, whatever the step that failed. */
  function GetCurrentUser(request: Request, verifyToken: string -> Option<int>, users: map<int, User>)
    : (r: Resolution)
    requires KeyedById(users)
    ensures r.Ok? <==>
              && TokenCookie in request.cookies
              && request.cookies[TokenCookie] != ""
              && verifyToken(request.cookies[TokenCookie]).Some?
              && verifyToken(request.cookies[TokenCookie]).value in users
    ensures r.Ok? ==>
              var id := verifyToken(request.cookies[TokenCookie]).value;
              r.user == users[id] && r.user.id == id
    ensures r.Unauthorized? ==> r.error == NotLoggedIn
  {
    var token := TokenOf(request);
    if token.None? || token.value == "" then
      Unauthorized(NotLoggedIn)
    else
      var userId := verifyToken(token.value);
      if userId.None? then
        Unauthorized(NotLoggedIn)
      else if userId.value !in users then
        Unauthorized(NotLoggedIn)
      else
        Ok(users[userId.value])
  }

  /** The identity depends on the token cookie only: headers, query, body and
      other cookies have no say. */
  lemma IdentityFromTokenOnly(a: Request, b: Request, verifyToken: string -> Option<int>, users: map<int, User>)
    requires KeyedById(users)
    requires TokenOf(a) == TokenOf(b)
    ensures GetCurrentUser(a, verifyToken, users) == GetCurrentUser(b, verifyToken, users)
  {
  }

  /** A request without the cookie, or with an empty one, is turned away. */
  lemma MissingTokenRejected(request: Request, verifyToken: string -> Option<int>, users: map<int, User>)
    requires KeyedById(users)
    requires TokenOf(request) == None || TokenOf(request) == Some("")
    ensures GetCurrentUser(request, verifyToken, users) == Unauthorized(NotLoggedIn)
  {
  }
}
