/**
 * The two route guards: `protect`, which admits a request carrying a Bearer
 * token that verifies and names an existing user, and `authorize(...roles)`,
 * which admits an authenticated user whose role is listed. Token verification
 * and the user lookup are services outside this model and are given as
 * functions.
 */
module Auth {
  import opened Common
  import opened JsText

  /** A row of the users table as `protect` selects it; the role column may be null. */
  datatype User = User(id: nat, username: string, email: string, role: Option<string>)

  /** What a guard does with the request: pass it on with the user attached, or answer it itself. */
  datatype Response = Continue(user: User) | Deny(status: nat, error: string)

  /** The outcome of the user query: a row, no row, or a database error (thrown, and caught by `protect`). */
  datatype Lookup = Found(user: User) | NoSuchUser | DbError

  const NotAuthorized: string := "Not authorized to access this route"
  const UserNotFound: string := "User not found"
  const NotAuthenticated: string := "User not authenticated"

  function RoleRejected(role: Option<string>): string
  {
    "User role " + Text(role) + " is not authorized to access this route"
  }

  /** `authorization.split(' ')[1]`: the second space-separated part, undefined when there is none. */
  function BearerToken(header: string): Option<string>
  {
    var parts := Split(header, ' ');
    if |parts| >= 2 then Some(parts[1]) else None
  }

  /** The header `Bearer <token>` hands over exactly `<token>` when the token holds no space. */
  lemma BearerTokenOf(token: string)
    requires ' ' !in token
    ensures BearerToken("Bearer " + token) == Some(token)
    ensures StartsWith("Bearer " + token, "Bearer")
  {
    assert "Bearer " + token == "Bearer" + [' '] + token;
    SplitAtFirst("Bearer", ' ', token);
    SplitWithoutSeparator(token, ' ');
  }

  /**
   * `protect`. `verify` stands for `jwt.verify` with the server's secret (the
   * decoded user id, or None where it throws); a missing or empty token is
   * refused before it is consulted, as the token library does. Every refusal
   * is a 401: "User not found" when the token is good but names nobody,
   * "Not authorized to access this route" otherwise.
   */
  function Protect(header: Option<string>, verify: string -> Option<nat>, lookup: nat -> Lookup): (r: Response)
    ensures r.Deny? ==> r.status == 401 && (r.error == NotAuthorized || r.error == UserNotFound)
    ensures r.Continue? ==>
      && header.Some? && StartsWith(header.value, "Bearer")
      && BearerToken(header.value).Some? && BearerToken(header.value).value != ""
      && verify(BearerToken(header.value).value).Some?
      && lookup(verify(BearerToken(header.value).value).value) == Found(r.user)
    ensures r == Deny(401, UserNotFound) ==>
      && header.Some?
      && BearerToken(header.value).Some?
      && verify(BearerToken(header.value).value).Some?
      && lookup(verify(BearerToken(header.value).value).value) == NoSuchUser
  {
    if header.None? || !StartsWith(header.value, "Bearer") then Deny(401, NotAuthorized)
    else
      match BearerToken(header.value)
      case None => Deny(401, NotAuthorized)
      case Some(token) =>
        if token == "" then Deny(401, NotAuthorized)
        else
          match verify(token)
          case None => Deny(401, NotAuthorized)
          case Some(id) =>
            match lookup(id)
            case Found(u) => Continue(u)
            case NoSuchUser => Deny(401, UserNotFound)
            case DbError => Deny(401, NotAuthorized)
  }

  /** A well-formed Bearer header whose token verifies to an existing user passes `protect` with that user. */
  lemma ProtectAccepts(token: string, verify: string -> Option<nat>, lookup: nat -> Lookup, u: User)
    requires token != "" && ' ' !in token
    requires verify(token).Some? && lookup(verify(token).value) == Found(u)
    ensures Protect(Some("Bearer " + token), verify, lookup) == Continue(u)
  {
    BearerTokenOf(token);
  }

  /** Without an Authorization header, or with one of another scheme, the request is refused whatever the services say. */
  lemma ProtectNeedsBearer(header: Option<string>, verify: string -> Option<nat>, lookup: nat -> Lookup)
    requires header.None? || !StartsWith(header.value, "Bearer")
    ensures Protect(header, verify, lookup) == Deny(401, NotAuthorized)
  {
  }

  /**
   * `authorize(...roles)`: 401 when no user is attached, 403 naming the role
   * when it is not listed, and otherwise the request passes with its user.
   */
  function Authorize(roles: seq<string>, user: Option<User>): (r: Response)
    ensures r.Continue? <==> user.Some? && user.value.role.Some? && user.value.role.value in roles
    ensures r.Continue? ==> r.user == user.value
    ensures r == Deny(401, NotAuthenticated) <==> user.None?
    ensures r.Deny? && user.Some? ==> r == Deny(403, RoleRejected(user.value.role))
  {
    match user
    case None => Deny(401, NotAuthenticated)
    case Some(u) =>
      if u.role.Some? && u.role.value in roles then Continue(u)
      else Deny(403, RoleRejected(u.role))
  }

  /** A route behind `protect` and then `authorize(...roles)`. */
  function Guard(header: Option<string>, verify: string -> Option<nat>, lookup: nat -> Lookup, roles: seq<string>): Response
  {
    match Protect(header, verify, lookup)
    case Continue(u) => Authorize(roles, Some(u))
    case Deny(status, error) => Deny(status, error)
  }

  /**
   * Behind both guards, a request reaches the handler exactly when its token
   * names a user whose role is listed; a 403 is only ever given to an
   * authenticated user; and `authorize`'s own 401 cannot be reached.
   */
  lemma GuardOutcomes(header: Option<string>, verify: string -> Option<nat>, lookup: nat -> Lookup, roles: seq<string>)
    ensures var g := Guard(header, verify, lookup, roles);
      && (g.Continue? <==> var p := Protect(header, verify, lookup);
                           p.Continue? && p.user.role.Some? && p.user.role.value in roles)
      && (g.Continue? ==> g.user == Protect(header, verify, lookup).user)
      && (g.Deny? && g.status == 403 ==> Protect(header, verify, lookup).Continue?)
      && g != Deny(401, NotAuthenticated)
  {
  }
}
