/**
  The bearer-token scheme of the server: tokens are `token_<userId>_<time>`
  and `admin_token_<adminId>_<time>`, read back by splitting on '_'.
 */
module Token {
  import opened Common
  import opened Strings

  const USER_PREFIX := "token_"
  const ADMIN_PREFIX := "admin_token_"
  const BEARER := "Bearer "

  /** An admin token never passes for a user token, nor the other way
      round: the two prefixes differ in their first character. */
  lemma PrefixesExclusive(token: string)
    ensures !(StartsWith(token, USER_PREFIX) && StartsWith(token, ADMIN_PREFIX))
  {
    assert USER_PREFIX[0] != ADMIN_PREFIX[0];
  }

  /** `generateUserToken`: the id and the issue time, joined under the
      user prefix. */
  function GenerateUserToken(userId: string, now: nat): (token: string)
    ensures StartsWith(token, USER_PREFIX)
  {
    USER_PREFIX + userId + "_" + NatToString(now)
  }

  /** `generateAdminToken`: the id and the issue time, joined under the
      admin prefix. */
  function GenerateAdminToken(adminId: string, now: nat): (token: string)
    ensures StartsWith(token, ADMIN_PREFIX)
  {
    ADMIN_PREFIX + adminId + "_" + NatToString(now)
  }

  /** `parts[i] || null`: a missing or empty piece reads as null. */
  function Field(parts: seq<string>, i: nat): (r: Option<string>)
    ensures r.Some? <==> i < |parts| && |parts[i]| > 0
    ensures r.Some? ==> r.value == parts[i]
  {
    if i < |parts| && |parts[i]| > 0 then Some(parts[i]) else None
  }

  /** `parseUserToken`: the second '_'-separated piece of a token with the
      user prefix. */
  function ParseUserToken(token: string): (r: Option<string>)
    ensures r.Some? ==> StartsWith(token, USER_PREFIX) && |r.value| > 0 && '_' !in r.value
    ensures !StartsWith(token, USER_PREFIX) ==> r.None?
  {
    if !StartsWith(token, USER_PREFIX) then None else Field(Split(token, '_'), 1)
  }

  /** `parseAdminToken`: the third '_'-separated piece of a token with the
      admin prefix. */
  function ParseAdminToken(token: string): (r: Option<string>)
    ensures r.Some? ==> StartsWith(token, ADMIN_PREFIX) && |r.value| > 0 && '_' !in r.value
    ensures !StartsWith(token, ADMIN_PREFIX) ==> r.None?
  {
    if !StartsWith(token, ADMIN_PREFIX) then None else Field(Split(token, '_'), 2)
  }

  /** `isValidToken`: a present, non-empty token of three pieces under the
      user prefix or four under the admin prefix. */
  predicate IsValidToken(token: Option<string>)
  {
    && token.Some? && |token.value| > 0
    && var parts := Split(token.value, '_');
       (StartsWith(token.value, USER_PREFIX) && |parts| == 3)
       || (StartsWith(token.value, ADMIN_PREFIX) && |parts| == 4)
  }

  /** `extractToken`: what follows "Bearer " in the header, or null. */
  function ExtractToken(header: Option<string>): (r: Option<string>)
    ensures r.Some? <==> header.Some? && StartsWith(header.value, BEARER)
    ensures r.Some? ==> header.value == BEARER + r.value
  {
    if header.None? || |header.value| == 0 || !StartsWith(header.value, BEARER) then None
    else
      assert header.value == header.value[..7] + header.value[7..];
      Some(header.value[7..])
  }

  /** The header carrying a token reads back as that token. */
  lemma ExtractTokenOfBearer(token: string)
    ensures ExtractToken(Some(BEARER + token)) == Some(token)
  {
    assert StartsWith(BEARER + token, BEARER);
  }

  lemma NoSeparatorInNumber(n: nat)
    ensures '_' !in NatToString(n)
  {
  }

  /** A user token splits into the word "token", the id and the time,
      provided the id holds no '_'. */
  lemma UserTokenParts(userId: string, now: nat)
    requires '_' !in userId
    ensures Split(GenerateUserToken(userId, now), '_') == ["token", userId, NatToString(now)]
  {
    var t := NatToString(now);
    NoSeparatorInNumber(now);
    UserPrefixPieces();
    assert GenerateUserToken(userId, now) == "token" + ['_'] + (userId + ['_'] + t);
    SplitThree("token", userId, t, '_');
  }

  /** An admin token splits into "admin", "token", the id and the time,
      provided the id holds no '_'. */
  lemma AdminTokenParts(adminId: string, now: nat)
    requires '_' !in adminId
    ensures Split(GenerateAdminToken(adminId, now), '_') == ["admin", "token", adminId, NatToString(now)]
  {
    var t := NatToString(now);
    NoSeparatorInNumber(now);
    AdminPrefixPieces();
    assert GenerateAdminToken(adminId, now) == "admin" + ['_'] + ("token" + ['_'] + (adminId + ['_'] + t));
    SplitFour("admin", "token", adminId, t, '_');
  }

  lemma UserPrefixPieces()
    ensures USER_PREFIX == "token" + ['_']
  {
  }

  lemma AdminPrefixPieces()
    ensures ADMIN_PREFIX == "admin" + ['_'] + "token" + ['_']
  {
  }

  /** Parsing a generated user token gives back the id, and the token is
      valid, when the id is non-empty and holds no '_'. */
  lemma ParseUserTokenOfGenerated(userId: string, now: nat)
    requires |userId| > 0 && '_' !in userId
    ensures ParseUserToken(GenerateUserToken(userId, now)) == Some(userId)
    ensures IsValidToken(Some(GenerateUserToken(userId, now)))
  {
    UserTokenParts(userId, now);
  }

  /** Parsing a generated admin token gives back the id, and the token is
      valid, when the id is non-empty and holds no '_'. */
  lemma ParseAdminTokenOfGenerated(adminId: string, now: nat)
    requires |adminId| > 0 && '_' !in adminId
    ensures ParseAdminToken(GenerateAdminToken(adminId, now)) == Some(adminId)
    ensures IsValidToken(Some(GenerateAdminToken(adminId, now)))
  {
    AdminTokenParts(adminId, now);
  }

  /** Each parser refuses the other kind of token. */
  lemma ParsersRefuseOtherKind(id: string, now: nat)
    ensures ParseUserToken(GenerateAdminToken(id, now)).None?
    ensures ParseAdminToken(GenerateUserToken(id, now)).None?
  {
    PrefixesExclusive(GenerateAdminToken(id, now));
    PrefixesExclusive(GenerateUserToken(id, now));
  }

  /** An id containing '_' does not survive the round trip: the token of
      "a_b" parses as "a". */
  lemma SeparatorInIdIsLost(now: nat)
    ensures ParseUserToken(GenerateUserToken("a_b", now)) == Some("a")
  {
    assert "a_b" == "a" + ['_'] + "b";
    JoinedIdParts("a", "b", now);
  }

  /** The token of an id made of two '_'-free pieces splits into four. */
  lemma JoinedIdParts(x: string, y: string, now: nat)
    requires '_' !in x && '_' !in y
    ensures Split(GenerateUserToken(x + ['_'] + y, now), '_') == ["token", x, y, NatToString(now)]
  {
    var t := NatToString(now);
    NoSeparatorInNumber(now);
    UserPrefixPieces();
    assert GenerateUserToken(x + ['_'] + y, now) == "token" + ['_'] + (x + ['_'] + (y + ['_'] + t));
    SplitFour("token", x, y, t, '_');
  }

}
