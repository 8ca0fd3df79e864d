/** Saved credentials and the token lifecycle of `is_token_expired` and `ensure_valid_token`.
    Time is whole seconds since the Unix epoch; an `expires_at` text is either an RFC 3339
    timestamp that parses to such a second, or text that does not parse. */
module Auth {
  import opened Wrappers

  /** The stored `expires_at` string, as parsing sees it. */
  datatype Stamp = Rfc3339(seconds: int) | Unparseable

  datatype AuthTokens = AuthTokens(
    accessToken: string,
    refreshToken: string,
    tokenType: string,
    expiresIn: int,
    expiresAt: Option<Stamp>,
    csrfToken: Option<string>)

  datatype SavedCredentials = SavedCredentials(
    userId: string,
    userAppKey: string,
    authTokens: Option<AuthTokens>,
    username: Option<string>)

  /** Tokens are refreshed this many seconds before they expire. */
  const ExpiryBufferSeconds: int := 5 * 60

  /** `is_token_expired`: a token without a readable expiry counts as expired; otherwise it is
      expired once `now` is within the buffer of its expiry. */
  function IsTokenExpired(t: AuthTokens, now: int): (r: bool)
    ensures t.expiresAt.None? || t.expiresAt == Some(Unparseable) ==> r
    ensures t.expiresAt.Some? && t.expiresAt.value.Rfc3339? ==>
              (r <==> t.expiresAt.value.seconds - now <= ExpiryBufferSeconds)
  {
    match t.expiresAt
    case None => true
    case Some(Unparseable) => true
    case Some(Rfc3339(at)) => now + ExpiryBufferSeconds >= at
  }

  /** A token counts as valid at `now` exactly when it carries a parsed expiry more than five
      minutes later. */
  lemma ValidMeansParsedAndFuture(t: AuthTokens, now: int)
    ensures !IsTokenExpired(t, now) <==>
              (t.expiresAt.Some? && t.expiresAt.value.Rfc3339? && t.expiresAt.value.seconds > now + ExpiryBufferSeconds)
  {
  }

  /** Once expired, a token stays expired as time goes on. */
  lemma ExpiryIsPermanent(t: AuthTokens, now: int, later: int)
    requires now <= later && IsTokenExpired(t, now)
    ensures IsTokenExpired(t, later)
  {
  }

  /** The fields a successful refresh changes: a new access token, its lifetime, and the expiry
      `now + expires_in`; the refresh token, token type and CSRF token stay. */
  function WithNewAccessToken(t: AuthTokens, accessToken: string, expiresIn: int, now: int): (r: AuthTokens)
    ensures r.refreshToken == t.refreshToken && r.csrfToken == t.csrfToken && r.tokenType == t.tokenType
    ensures r.accessToken == accessToken && r.expiresIn == expiresIn
    ensures r.expiresAt == Some(Rfc3339(now + expiresIn))
  {
    t.(accessToken := accessToken, expiresIn := expiresIn, expiresAt := Some(Rfc3339(now + expiresIn)))
  }

  /** A refreshed token is valid at time `at` exactly when `at` is more than five minutes
      before the new expiry; right after the refresh, exactly when its lifetime exceeds five
      minutes. */
  lemma RefreshedTokenExpiry(t: AuthTokens, accessToken: string, expiresIn: int, now: int, at: int)
    ensures !IsTokenExpired(WithNewAccessToken(t, accessToken, expiresIn, now), at) <==>
              at + ExpiryBufferSeconds < now + expiresIn
    ensures !IsTokenExpired(WithNewAccessToken(t, accessToken, expiresIn, now), now) <==>
              expiresIn > ExpiryBufferSeconds
  {
  }

  /** What the refresh endpoint did: the request never got an answer, the answer was a success
      with a new access token, a success whose body did not parse, or a failure status. */
  datatype RefreshReply =
    | NoResponse
    | Refreshed(accessToken: string, expiresIn: int)
    | UnreadableBody
    | Rejected

  /** The errors `ensure_valid_token` returns. */
  datatype TokenError =
    | RequestFailed        // "Token refresh request failed"
    | ParseFailed          // "Failed to parse refresh response"
    | SaveRefreshedFailed  // "Failed to save refreshed credentials"
    | ClearFailed          // "Failed to clear invalid credentials"
    | LoginAgain           // "Token refresh failed, please login again"

  /** The credentials a command holds as `&mut SavedCredentials`. */
  class Credentials {
    var userId: string
    var userAppKey: string
    var authTokens: Option<AuthTokens>
    var username: Option<string>

    function Value(): SavedCredentials
      reads this
    {
      SavedCredentials(userId, userAppKey, authTokens, username)
    }

    constructor (c: SavedCredentials)
      ensures Value() == c
    {
      userId, userAppKey, authTokens, username := c.userId, c.userAppKey, c.authTokens, c.username;
    }

    predicate NeedsRefresh(now: int)
      reads this
    {
      authTokens.Some? && IsTokenExpired(authTokens.value, now)
    }

    /** `ensure_valid_token`. Nothing happens unless tokens are present and expired. Then the
        refresh endpoint's reply decides: a new access token is written into the tokens in
        place, a failure status clears the tokens, and anything else leaves them as they were.
        Whether saving the credentials afterwards succeeds is an input. */
    method EnsureValidToken(now: int, reply: RefreshReply, saveSucceeds: bool) returns (r: Result<(), TokenError>)
      modifies this
      ensures userId == old(userId) && userAppKey == old(userAppKey) && username == old(username)
      ensures !old(NeedsRefresh(now)) ==> r == Success(()) && authTokens == old(authTokens)
      ensures old(NeedsRefresh(now)) && reply.NoResponse? ==>
                r == Failure(RequestFailed) && authTokens == old(authTokens)
      ensures old(NeedsRefresh(now)) && reply.UnreadableBody? ==>
                r == Failure(ParseFailed) && authTokens == old(authTokens)
      ensures old(NeedsRefresh(now)) && reply.Refreshed? ==>
                && authTokens == Some(WithNewAccessToken(old(authTokens).value, reply.accessToken, reply.expiresIn, now))
                && r == (if saveSucceeds then Success(()) else Failure(SaveRefreshedFailed))
      ensures old(NeedsRefresh(now)) && reply.Rejected? ==>
                && authTokens == None
                && r == Failure(if saveSucceeds then LoginAgain else ClearFailed)
      ensures r.Success? && old(NeedsRefresh(now)) && reply.Refreshed? && reply.expiresIn > ExpiryBufferSeconds ==>
                !NeedsRefresh(now)
    {
      if authTokens.Some? && IsTokenExpired(authTokens.value, now) {
        match reply {
          case NoResponse =>
            return Failure(RequestFailed);
          case UnreadableBody =>
            return Failure(ParseFailed);
          case Refreshed(accessToken, expiresIn) =>
            var t := authTokens.value;
            t := t.(accessToken := accessToken);
            t := t.(expiresIn := expiresIn);
            t := t.(expiresAt := Some(Rfc3339(now + expiresIn)));
            authTokens := Some(t);
            RefreshedTokenExpiry(old(authTokens).value, accessToken, expiresIn, now, now);
            r := if saveSucceeds then Success(()) else Failure(SaveRefreshedFailed);
          case Rejected =>
            authTokens := None;
            r := Failure(if saveSucceeds then LoginAgain else ClearFailed);
        }
      } else {
        r := Success(());
      }
    }
  }
}
