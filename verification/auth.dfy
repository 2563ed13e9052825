/**
  The authentication middleware: how the ids are read from the
  `Authorization` header, which requests each guard admits, and the
  identity it hands to the controllers.
 */
module AuthMiddleware {
  import opened Common
  import opened Strings
  import opened Token
  import SharedApi

  /** `getUserIdFromToken`: the second '_'-separated piece of the bearer
      token. The user prefix is not checked, so any token with a second
      piece yields one. */
  function GetUserIdFromToken(header: Option<string>): (r: Option<string>)
    ensures r.Some? ==> ExtractToken(header).Some? && |r.value| > 0 && '_' !in r.value
    ensures ExtractToken(header).None? ==> r.None?
  {
    match ExtractToken(header)
    case None => None
    case Some(token) => Field(Split(token, '_'), 1)
  }

  /** `getAdminIdFromToken`: the third '_'-separated piece of a bearer token
      with the admin prefix. */
  function GetAdminIdFromToken(header: Option<string>): (r: Option<string>)
    ensures r.Some? ==> ExtractToken(header).Some? && StartsWith(ExtractToken(header).value, ADMIN_PREFIX)
    ensures r.Some? ==> |r.value| > 0 && '_' !in r.value
  {
    match ExtractToken(header)
    case None => None
    case Some(token) => if StartsWith(token, ADMIN_PREFIX) then Field(Split(token, '_'), 2) else None
  }

  /** What a guard leaves on the request: `req.userId` and `req.adminId`,
      each absent or a non-empty string. */
  datatype Identity = Identity(userId: Option<string>, adminId: Option<string>)

  /** A guard either rejects with a status and an error text, or admits the
      request with an identity. */
  datatype Gate = Reject(status: nat, error: string) | Admit(identity: Identity)

  const AUTH_REQUIRED := "Authorization required"
  const ADMIN_AUTH_REQUIRED := "Admin authorization required"

  /** `requireAuth`: rejects exactly when no user id can be read, and
      otherwise admits with that user id alone. */
  function RequireAuth(header: Option<string>): (g: Gate)
    ensures g.Reject? <==> GetUserIdFromToken(header).None?
    ensures g.Reject? ==> g.status == 401
    ensures g.Admit? ==> g.identity.userId.Some? && g.identity.adminId.None?
  {
    var userId := GetUserIdFromToken(header);
    if userId.None? then Reject(401, AUTH_REQUIRED) else Admit(Identity(userId, None))
  }

  /** `requireAdminAuth`: rejects exactly when no admin id can be read, and
      otherwise admits with that admin id alone. */
  function RequireAdminAuth(header: Option<string>): (g: Gate)
    ensures g.Reject? <==> GetAdminIdFromToken(header).None?
    ensures g.Reject? ==> g.status == 401
    ensures g.Admit? ==> g.identity.adminId.Some? && g.identity.userId.None?
  {
    var adminId := GetAdminIdFromToken(header);
    if adminId.None? then Reject(401, ADMIN_AUTH_REQUIRED) else Admit(Identity(None, adminId))
  }

  /** `requireAnyAuth`: rejects exactly when neither id can be read, and
      otherwise admits with both as read. */
  function RequireAnyAuth(header: Option<string>): (g: Gate)
    ensures g.Reject? <==> GetUserIdFromToken(header).None? && GetAdminIdFromToken(header).None?
    ensures g.Reject? ==> g.status == 401
    ensures g.Admit? ==> g.identity == Identity(GetUserIdFromToken(header), GetAdminIdFromToken(header))
  {
    var userId := GetUserIdFromToken(header);
    var adminId := GetAdminIdFromToken(header);
    if userId.None? && adminId.None? then Reject(401, AUTH_REQUIRED) else Admit(Identity(userId, adminId))
  }

  /** `optionalAuth`: always admits, with whatever ids can be read. */
  function OptionalAuth(header: Option<string>): (g: Gate)
    ensures g.Admit?
    ensures g.identity == Identity(GetUserIdFromToken(header), GetAdminIdFromToken(header))
  {
    Admit(Identity(GetUserIdFromToken(header), GetAdminIdFromToken(header)))
  }

  /** `req.userId || req.adminId`: the first truthy of the two, else the
      second. */
  function EitherId(id: Identity): Option<string>
  {
    if SharedApi.IsTruthy(id.userId) then id.userId else id.adminId
  }

  /** `isAuthenticated`: `!!(req.userId || req.adminId)`. */
  predicate IsAuthenticated(id: Identity)
  {
    SharedApi.IsTruthy(EitherId(id))
  }

  /** `isAdmin`: `!!req.adminId`. */
  predicate IsAdmin(id: Identity)
  {
    SharedApi.IsTruthy(id.adminId)
  }

  /** `isUser`: `!!req.userId`. */
  predicate IsUser(id: Identity)
  {
    SharedApi.IsTruthy(id.userId)
  }

  /** A request is authenticated exactly when it is a user's or an admin's. */
  lemma IsAuthenticatedIffUserOrAdmin(id: Identity)
    ensures IsAuthenticated(id) <==> IsUser(id) || IsAdmin(id)
  {
  }

  /** Every request a guard admits is authenticated, except under
      `optionalAuth`. */
  lemma GuardsAdmitAuthenticated(header: Option<string>)
    ensures RequireAuth(header).Admit? ==> IsUser(RequireAuth(header).identity)
    ensures RequireAdminAuth(header).Admit? ==> IsAdmin(RequireAdminAuth(header).identity)
    ensures RequireAnyAuth(header).Admit? ==> IsAuthenticated(RequireAnyAuth(header).identity)
  {
  }

  /** A header without the "Bearer " prefix is rejected by every guard. */
  lemma NoBearerRejected(header: Option<string>)
    requires header.None? || !StartsWith(header.value, BEARER)
    ensures RequireAuth(header).Reject? && RequireAdminAuth(header).Reject? && RequireAnyAuth(header).Reject?
  {
  }

  /** A user's token identifies the user and no admin. */
  lemma UserTokenIdentity(userId: string, now: nat)
    requires |userId| > 0 && '_' !in userId
    ensures var header := Some(BEARER + GenerateUserToken(userId, now));
      && GetUserIdFromToken(header) == Some(userId)
      && GetAdminIdFromToken(header).None?
      && RequireAuth(header) == Admit(Identity(Some(userId), None))
      && RequireAdminAuth(header).Reject?
      && RequireAnyAuth(header) == Admit(Identity(Some(userId), None))
  {
    ExtractTokenOfBearer(GenerateUserToken(userId, now));
    UserTokenParts(userId, now);
    PrefixesExclusive(GenerateUserToken(userId, now));
  }

  /** An admin's token identifies the admin, and also reads as the user id
      "token": it passes `requireAuth`, and under `requireAnyAuth` it
      carries both ids. */
  lemma AdminTokenIdentity(adminId: string, now: nat)
    requires |adminId| > 0 && '_' !in adminId
    ensures var header := Some(BEARER + GenerateAdminToken(adminId, now));
      && GetAdminIdFromToken(header) == Some(adminId)
      && GetUserIdFromToken(header) == Some("token")
      && RequireAdminAuth(header) == Admit(Identity(None, Some(adminId)))
      && RequireAuth(header) == Admit(Identity(Some("token"), None))
      && RequireAnyAuth(header) == Admit(Identity(Some("token"), Some(adminId)))
  {
    var token := GenerateAdminToken(adminId, now);
    var header := Some(BEARER + token);
    ExtractTokenOfBearer(token);
    AdminTokenParts(adminId, now);
    var parts := Split(token, '_');
    assert parts[1] == "token" && parts[2] == adminId;
    assert GetUserIdFromToken(header) == Some("token");
    assert GetAdminIdFromToken(header) == Some(adminId);
  }
}
