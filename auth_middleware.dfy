/** `token_required`: the bearer token is taken from the Authorization header, decoded, and
    the user it names is looked up; every failure is a 401 AUTH_ERROR. Decoding (signature and
    expiry checks) is foreign code and is a parameter; `DecodeClaims` is its expiry rule on
    the claims `generate_token` signs. */
module AuthMiddleware {

  import opened Wrappers
  import opened Strings
  import opened Models
  import opened ResponseUtils
  import opened AuthService

  /** What `jwt.decode` does with a token: the user id of its payload, or one of the two
      exceptions the middleware distinguishes. */
  datatype DecodeResult = Decoded(userId: int) | Expired | Invalid

  /** PyJWT's expiry rule with no leeway: a token whose `exp` is not after now has expired. */
  function DecodeClaims(c: Claims, now: nat): (r: DecodeResult)
    ensures r.Decoded? <==> now < c.exp
    ensures r.Decoded? ==> r.userId == c.userId
    ensures !r.Decoded? ==> r == Expired
  {
    if c.exp <= now then Expired else Decoded(c.userId)
  }

  /** A token generated at `iat` decodes to its user for exactly 24 hours. */
  lemma TokenLivesOneDay(userId: int, iat: nat, now: nat)
    requires iat <= now
    ensures DecodeClaims(GenerateToken(userId, iat), now) == Decoded(userId) <==> now - iat < 86400
    ensures DecodeClaims(GenerateToken(userId, iat), now) == Expired <==> now - iat >= 86400
  {
  }

  const BearerPrefix := "Bearer "

  /** The token of `token_required`: present only when the header (absent counts as '')
      starts with 'Bearer ', and then the header with every 'Bearer ' removed. */
  function ExtractToken(header: Option<string>): (t: Option<string>)
    ensures t.Some? <==> header.Some? && StartsWith(header.value, BearerPrefix)
    ensures t.Some? ==> t.value == RemoveAll(header.value, BearerPrefix)
  {
    var h := if header.Some? then header.value else "";
    if StartsWith(h, BearerPrefix) then Some(RemoveAll(h, BearerPrefix)) else None
  }

  /** The leading prefix goes, as the replacement's first step. */
  lemma ExtractDropsPrefix(rest: string)
    ensures ExtractToken(Some(BearerPrefix + rest)) == Some(RemoveAll(rest, BearerPrefix))
  {
    var h := BearerPrefix + rest;
    assert h[..|BearerPrefix|] == BearerPrefix;
    assert h[|BearerPrefix|..] == rest;
  }

  /** The replacement is not anchored: an inner 'Bearer ' is removed from the token too.
      For a token part `a` without a 'B' (so no occurrence starts in it) and a tail `b` without
      'Bearer ', the header `Bearer a Bearer b` (no spaces around `a`) yields `a + b`. */
  lemma ExtractRemovesInnerPrefix(a: string, b: string)
    requires 'B' !in a && !Contains(b, BearerPrefix)
    ensures ExtractToken(Some(BearerPrefix + a + BearerPrefix + b)) == Some(a + b)
  {
    assert BearerPrefix + a + BearerPrefix + b == BearerPrefix + (a + (BearerPrefix + b));
    ExtractDropsPrefix(a + (BearerPrefix + b));
    RemoveAllSkipsFree(a, BearerPrefix + b, BearerPrefix);
    var t := BearerPrefix + b;
    assert t[..|BearerPrefix|] == BearerPrefix && t[|BearerPrefix|..] == b;
  }

  /** A prefix without the pattern's first character passes through the scan unchanged. */
  lemma {:induction false} RemoveAllSkipsFree(a: string, rest: string, pat: string)
    requires pat != [] && pat[0] !in a
    ensures RemoveAll(a + rest, pat) == a + RemoveAll(rest, pat)
    decreases |a|
  {
    if a != [] {
      var s := a + rest;
      if |s| >= |pat| {
        assert s[..|pat|][0] == a[0] != pat[0];
      }
      assert s[1..] == a[1..] + rest;
      RemoveAllSkipsFree(a[1..], rest, pat);
      assert a == [a[0]] + a[1..];
    } else {
      assert a + rest == rest;
    }
  }

  /** The removal is one pass: a 'Bearer ' that only forms once an inner one is cut out
      ("Be" + "Bearer " + "arer ") stays in the token. */
  lemma ExtractIsOnePass()
    ensures ExtractToken(Some(BearerPrefix + ("Be" + BearerPrefix + "arer "))) == Some(BearerPrefix)
  {
    ExtractDropsPrefix("Be" + BearerPrefix + "arer ");
    OnePassScan();
  }

  lemma OnePassScan()
    ensures RemoveAll("Be" + BearerPrefix + "arer ", BearerPrefix) == BearerPrefix
  {
    ScanCutsOnlyTheInnerCopy("Be", BearerPrefix, "arer ");
    assert "Be" + "arer " == BearerPrefix;
  }

  /** Two characters that cannot start an occurrence, a full occurrence, and a tail too short
      for another: only the occurrence is cut. */
  lemma ScanCutsOnlyTheInnerCopy(h: string, pat: string, t: string)
    requires |h| == 2 && 3 <= |pat| && h[1] != pat[0] && pat[0] != pat[2] && |t| < |pat|
    ensures RemoveAll(h + pat + t, pat) == h + t
  {
    var s := h + pat + t;
    assert s[2] == pat[0];
    RemoveAllKeepsHead(s, pat, 2);
    var s1 := s[1..];
    assert s1[0] == h[1] && s1[1..] == pat + t;
    RemoveAllKeepsHead(s1, pat, 0);
    RemoveAllDropsLeading(t, pat);
    assert RemoveAll(t, pat) == t;
    assert h == [s[0], s1[0]];
  }

  /** An occurrence at the start is cut and the scan goes on after it. */
  lemma RemoveAllDropsLeading(t: string, pat: string)
    requires pat != []
    ensures RemoveAll(pat + t, pat) == RemoveAll(t, pat)
  {
    assert (pat + t)[..|pat|] == pat && (pat + t)[|pat|..] == t;
  }

  /** A position where the pattern does not start keeps its character. */
  lemma RemoveAllKeepsHead(s: string, pat: string, k: int)
    requires 0 <= k < |pat| <= |s| && s[k] != pat[k]
    ensures RemoveAll(s, pat) == [s[0]] + RemoveAll(s[1..], pat)
  {
    assert s[..|pat|][k] == s[k];
  }

  /** The outcome of the decorator: the handler runs with the user, or a rejection. */
  datatype AuthResult = Authorized(user: User) | Rejected(response: Response)

  function AuthError(message: string): Response {
    ErrorResponse(message, "AUTH_ERROR", 401)
  }

  /** `token_required`'s decision. */
  function TokenRequired(header: Option<string>, decode: string -> DecodeResult, users: map<int, User>): (r: AuthResult)
    ensures r.Rejected? ==>
              && r.response.status == 401 && IsError(r.response) && ErrorCode(r.response) == "AUTH_ERROR"
    ensures !Truthy(ExtractToken(header)) ==> r == Rejected(AuthError("Authentication token is missing"))
    ensures Truthy(ExtractToken(header)) ==>
              var d := decode(ExtractToken(header).value);
              && (d.Expired? ==> r == Rejected(AuthError("Token has expired")))
              && (d.Invalid? ==> r == Rejected(AuthError("Token is invalid")))
              && (d.Decoded? && d.userId !in users ==> r == Rejected(AuthError("User not found")))
              && (d.Decoded? && d.userId in users ==> r == Authorized(users[d.userId]))
  {
    var token := ExtractToken(header);
    if !Truthy(token) then Rejected(AuthError("Authentication token is missing"))
    else match decode(token.value)
      case Expired => Rejected(AuthError("Token has expired"))
      case Invalid => Rejected(AuthError("Token is invalid"))
      case Decoded(id) =>
        if id !in users then Rejected(AuthError("User not found")) else Authorized(users[id])
  }

  /** A header that is exactly the prefix yields an empty token, which counts as missing. */
  lemma BarePrefixIsMissing(decode: string -> DecodeResult, users: map<int, User>)
    ensures TokenRequired(Some(BearerPrefix), decode, users) == Rejected(AuthError("Authentication token is missing"))
  {
    ExtractDropsPrefix("");
    assert BearerPrefix + "" == BearerPrefix;
  }

  /** Without the prefix, whatever else the header holds, the token is missing. */
  lemma NoPrefixIsMissing(header: Option<string>, decode: string -> DecodeResult, users: map<int, User>)
    requires header.None? || !StartsWith(header.value, BearerPrefix)
    ensures TokenRequired(header, decode, users) == Rejected(AuthError("Authentication token is missing"))
  {
  }

  /** The decorated view: the handler sees the authenticated user, or never runs. */
  function Guarded(header: Option<string>, decode: string -> DecodeResult, users: map<int, User>, handler: User -> Response): (r: Response)
    ensures TokenRequired(header, decode, users).Authorized? ==> r == handler(TokenRequired(header, decode, users).user)
    ensures TokenRequired(header, decode, users).Rejected? ==> r.status == 401 && IsError(r)
  {
    match TokenRequired(header, decode, users)
    case Authorized(u) => handler(u)
    case Rejected(resp) => resp
  }

  /** A fresh token for an existing user passes the guard within its lifetime and names that
      user. (A signed token is base64url text with dots, so it never contains the prefix.) */
  lemma FreshTokenAuthorizes(users: map<int, User>, userId: int, iat: nat, now: nat, token: string, decode: string -> DecodeResult)
    requires userId in users && token != "" && !Contains(token, BearerPrefix) && iat <= now < iat + 86400
    requires decode(token) == DecodeClaims(GenerateToken(userId, iat), now)
    ensures TokenRequired(Some(BearerPrefix + token), decode, users) == Authorized(users[userId])
  {
    ExtractDropsPrefix(token);
  }
}
