/** The refresh-token store: a per-user state machine with two states, no
    token or one active token. Tokens are issued on login and on every
    refresh (full rotation), purged lazily when found expired, and revoked
    by owner or by value. */
module RefreshTokenService {
  import opened Wrappers
  import opened Entities

  /** `jwt.refresh-token-expiration` when the property is not set: seven days. */
  const DefaultRefreshTokenDurationMs: int := 604800000

  /** Declared length of the `token` column. */
  const MaxTokenLength: nat := 500

  /** The token type both login and refresh report. */
  const BearerType: string := "Bearer"

  /** The reply of a successful refresh. */
  datatype TokenRefreshResponse = TokenRefreshResponse(
    accessToken: string,
    refreshToken: string,
    tokenType: string)

  /** No user owns two token rows (the one-to-one `user_id` column). */
  predicate OnePerUser(ts: TokenStore) {
    forall v, w :: v in ts && w in ts && ts[v].user == ts[w].user ==> v == w
  }

  /** The table invariant: every row sits under its own value, values fit the
      column, and each user owns at most one row. */
  predicate ValidTokens(ts: TokenStore) {
    && (forall v :: v in ts ==> ts[v].token == v && |v| <= MaxTokenLength)
    && OnePerUser(ts)
  }

  /** The values of the tokens `u` owns. */
  function TokensOf(ts: TokenStore, u: UserId): set<string> {
    set v | v in ts && ts[v].user == u
  }

  /** `findByToken`. */
  function FindByToken(ts: TokenStore, value: string): Option<RefreshToken> {
    if value in ts then Some(ts[value]) else None
  }

  /** Under the invariant a user owns at most one token. */
  lemma {:induction false} AtMostOneToken(ts: TokenStore, u: UserId)
    ensures OnePerUser(ts) ==> |TokensOf(ts, u)| <= 1
  {
    var owned := TokensOf(ts, u);
    if OnePerUser(ts) && owned != {} {
      var v :| v in owned;
      assert owned == {v};
    }
  }

  /** Deletes every token `u` owns (`findByUser(user).ifPresent(delete)`, and
      `deleteByUser`). */
  function RemoveTokensOf(ts: TokenStore, u: UserId): (r: TokenStore)
    ensures TokensOf(r, u) == {}
    ensures forall v :: v in r <==> v in ts && ts[v].user != u
    ensures forall v :: v in r ==> r[v] == ts[v]
  {
    map v | v in ts && ts[v].user != u :: ts[v]
  }

  /** Inserting a row, subject to the column constraints of the table: a value
      of at most 500 characters that no row holds yet, and an owner that owns
      no row yet. A violated constraint leaves the table as it was. */
  function Save(ts: TokenStore, tok: RefreshToken): (r: Step<TokenStore, RefreshToken>)
    ensures r.result.Success? <==>
              |tok.token| <= MaxTokenLength && tok.token !in ts && TokensOf(ts, tok.user) == {}
    ensures r.result.Success? ==> r.result.value == tok && r.state == ts[tok.token := tok]
    ensures r.result.Failure? ==> r.state == ts && r.result.error == ConstraintViolation
    ensures ValidTokens(ts) ==> ValidTokens(r.state)
  {
    if |tok.token| > MaxTokenLength || tok.token in ts || TokensOf(ts, tok.user) != {} then
      Step(ts, Failure(ConstraintViolation))
    else
      InsertKeepsValid(ts, tok);
      Step(ts[tok.token := tok], Success(tok))
  }

  /** Inserting a row that meets the constraints keeps the table invariant. */
  lemma InsertKeepsValid(ts: TokenStore, tok: RefreshToken)
    requires |tok.token| <= MaxTokenLength && tok.token !in ts && TokensOf(ts, tok.user) == {}
    ensures ValidTokens(ts) ==> ValidTokens(ts[tok.token := tok])
  {
    forall v | v in ts
      ensures ts[v].user != tok.user
    {
      assert v !in TokensOf(ts, tok.user);
    }
  }

  /** `createRefreshToken`: the owner must exist; any earlier token of the owner
      is deleted (and stays deleted even when the insert then fails); the new
      token expires `durationMs` after `now`, the configured
      `jwt.refresh-token-expiration` (`DefaultRefreshTokenDurationMs` when it
      is not set). `value` is what the token generator produced. */
  function CreateRefreshToken(users: UserStore, ts: TokenStore, userId: UserId, value: string,
                              now: Instant, durationMs: int): (r: Step<TokenStore, RefreshToken>)
    // unknown owner: "User not found", nothing changes
    ensures userId !in users.byId ==> r == Step(ts, Failure(UserNotFound))
    // the insert succeeds exactly when the value fits and no other user holds it
    ensures r.result.Success? <==>
              && userId in users.byId
              && |value| <= MaxTokenLength
              && !(value in ts && ts[value].user != userId)
    ensures r.result.Failure? && userId in users.byId ==> r.result.error == ConstraintViolation
    // the saved row: owner, value, expiry and creation instant
    ensures r.result.Success? ==>
              && r.result.value == RefreshToken(userId, value, now + durationMs, now)
              && value in r.state && r.state[value] == r.result.value
    // afterwards the owner holds exactly the new token, or none if the insert failed
    ensures userId in users.byId ==>
              TokensOf(r.state, userId) == (if r.result.Success? then {value} else {})
    // tokens of every other user are untouched
    ensures forall v :: v in ts && ts[v].user != userId ==> v in r.state && r.state[v] == ts[v]
    // and nothing else appears
    ensures userId in users.byId ==> forall v :: v in r.state ==>
              (v in ts && ts[v].user != userId && r.state[v] == ts[v]) || (v == value && r.result.Success?)
    ensures ValidTokens(ts) ==> ValidTokens(r.state)
  {
    if userId !in users.byId then
      Step(ts, Failure(UserNotFound))
    else
      var cleared := RemoveTokensOf(ts, userId);
      Save(cleared, RefreshToken(userId, value, now + durationMs, now))
  }

  /** `verifyExpiration`: a token whose expiry lies strictly before `now` is
      deleted and refused; otherwise it is returned and nothing changes. */
  function VerifyExpiration(ts: TokenStore, tok: RefreshToken, now: Instant): (r: Step<TokenStore, RefreshToken>)
    ensures r.result.Failure? <==> tok.expiryDate < now
    ensures r.result.Failure? ==>
              && r.result.error == TokenExpired
              && FindByToken(r.state, tok.token) == None
              && (forall v :: v in r.state <==> v in ts && v != tok.token)
              && (forall v :: v in r.state ==> r.state[v] == ts[v])
    ensures r.result.Success? ==> r.result.value == tok && r.state == ts
    ensures ValidTokens(ts) ==> ValidTokens(r.state)
  {
    if tok.expiryDate < now then
      Step(ts - {tok.token}, Failure(TokenExpired))
    else
      Step(ts, Success(tok))
  }

  /** `refreshToken`: look the value up, check its expiry, then rotate: the
      owner's token is replaced by a fresh one (`newValue`, from the token
      generator) and a new access token (`accessToken`) is handed out. */
  function Refresh(users: UserStore, ts: TokenStore, requestToken: string, accessToken: string,
                   newValue: string, now: Instant, durationMs: int): (r: Step<TokenStore, TokenRefreshResponse>)
    // an unknown value is refused and changes nothing
    ensures requestToken !in ts ==> r == Step(ts, Failure(TokenNotInDatabase))
    // an expired token is purged and refused
    ensures requestToken in ts && ts[requestToken].expiryDate < now ==>
              r.result == Failure(TokenExpired) && r.state == ts - {ts[requestToken].token}
    // a success hands out the new pair, typed "Bearer"; the new refresh token
    // belongs to the old token's owner, and the old value is gone unless the
    // generator repeated it
    ensures r.result.Success? ==>
              && requestToken in ts && ts[requestToken].expiryDate >= now
              && r.result.value == TokenRefreshResponse(accessToken, newValue, BearerType)
              && newValue in r.state && r.state[newValue].user == ts[requestToken].user
              && r.state[newValue].expiryDate == now + durationMs
              && (newValue != requestToken ==> requestToken !in r.state)
    // a live token whose owner still exists is always rotated when the new value fits and is unused
    ensures (&& requestToken in ts && ts[requestToken].expiryDate >= now && ts[requestToken].user in users.byId
             && |newValue| <= MaxTokenLength && newValue !in ts) ==> r.result.Success?
    ensures ValidTokens(ts) ==> ValidTokens(r.state)
  {
    match FindByToken(ts, requestToken)
    case None => Step(ts, Failure(TokenNotInDatabase))
    case Some(tok) =>
      var checked := VerifyExpiration(ts, tok, now);
      if checked.result.Failure? then
        Step(checked.state, Failure(checked.result.error))
      else
        var created := CreateRefreshToken(users, ts, tok.user, newValue, now, durationMs);
        match created.result
        case Failure(e) => Step(created.state, Failure(e))
        case Success(nt) => Step(created.state, Success(TokenRefreshResponse(accessToken, nt.token, BearerType)))
  }

  /** A rotated-out value cannot be replayed: the second refresh with the same
      value finds nothing and changes nothing. */
  lemma ReplayRejected(users: UserStore, ts: TokenStore, used: string, access1: string, new1: string,
                       now1: Instant, access2: string, new2: string, now2: Instant, durationMs: int)
    requires Refresh(users, ts, used, access1, new1, now1, durationMs).result.Success?
    requires new1 != used
    ensures var s := Refresh(users, ts, used, access1, new1, now1, durationMs).state;
            Refresh(users, s, used, access2, new2, now2, durationMs) == Step(s, Failure(TokenNotInDatabase))
  {
  }

  /** An expired token cannot be observed after the failed refresh. */
  lemma ExpiredTokenUnobservable(users: UserStore, ts: TokenStore, value: string, access: string,
                                 newValue: string, now: Instant, durationMs: int)
    requires ValidTokens(ts)
    requires value in ts && ts[value].expiryDate < now
    ensures var s := Refresh(users, ts, value, access, newValue, now, durationMs).state;
            FindByToken(s, value) == None
  {
  }

  /** `deleteByUserId`: the owner must exist; every token it owns is deleted and
      the number deleted is returned (at most one under the invariant). */
  function DeleteByUserId(users: UserStore, ts: TokenStore, userId: UserId): (r: Step<TokenStore, nat>)
    ensures userId !in users.byId ==> r == Step(ts, Failure(UserNotFound))
    ensures userId in users.byId ==>
              && r.result.Success?
              && r.result.value == |TokensOf(ts, userId)|
              && TokensOf(r.state, userId) == {}
              && (forall v :: v in r.state <==> v in ts && ts[v].user != userId)
              && (forall v :: v in r.state ==> r.state[v] == ts[v])
    ensures OnePerUser(ts) && r.result.Success? ==> r.result.value <= 1
    ensures ValidTokens(ts) ==> ValidTokens(r.state)
  {
    if userId !in users.byId then
      Step(ts, Failure(UserNotFound))
    else
      AtMostOneToken(ts, userId);
      Step(RemoveTokensOf(ts, userId), Success(|TokensOf(ts, userId)|))
  }

  /** `deleteByToken`: deletes the row holding `value`, if there is one. */
  function DeleteByToken(ts: TokenStore, value: string): (r: TokenStore)
    ensures value !in r
    ensures forall v :: v != value ==> (v in r <==> v in ts)
    ensures forall v :: v in r ==> r[v] == ts[v]
    ensures value !in ts ==> r == ts
    ensures ValidTokens(ts) ==> ValidTokens(r)
  {
    ts - {value}
  }

  /** Issues one token per entry of `issues` (value, clock reading) to `u`, in order. */
  function IssueAll(users: UserStore, ts: TokenStore, u: UserId, issues: seq<(string, Instant)>, durationMs: int): TokenStore
    decreases |issues|
  {
    if |issues| == 0 then ts
    else IssueAll(users, CreateRefreshToken(users, ts, u, issues[0].0, issues[0].1, durationMs).state,
                  u, issues[1..], durationMs)
  }

  /** However many times a user logs in, at most one of its tokens is stored,
      and when the last issue succeeded it is the only one. */
  lemma {:induction false} SequentialIssuesLeaveOneToken(users: UserStore, ts: TokenStore, u: UserId,
                                                         issues: seq<(string, Instant)>, durationMs: int)
    requires ValidTokens(ts)
    requires |issues| > 0
    ensures var last := issues[|issues| - 1];
            var before := IssueAll(users, ts, u, issues[..|issues| - 1], durationMs);
            && ValidTokens(IssueAll(users, ts, u, issues, durationMs))
            && |TokensOf(IssueAll(users, ts, u, issues, durationMs), u)| <= 1
            && (CreateRefreshToken(users, before, u, last.0, last.1, durationMs).result.Success? ==>
                  TokensOf(IssueAll(users, ts, u, issues, durationMs), u) == {last.0})
  {
    var n := |issues|;
    var before := IssueAll(users, ts, u, issues[..n - 1], durationMs);
    IssueAllSnoc(users, ts, u, issues, durationMs);
    IssueAllValid(users, ts, u, issues[..n - 1], durationMs);
    var after := CreateRefreshToken(users, before, u, issues[n - 1].0, issues[n - 1].1, durationMs).state;
    AtMostOneToken(after, u);
  }

  /** Issuing a list then one more is issuing the extended list. */
  lemma {:induction false} IssueAllSnoc(users: UserStore, ts: TokenStore, u: UserId,
                                        issues: seq<(string, Instant)>, durationMs: int)
    requires |issues| > 0
    ensures var n := |issues|;
            IssueAll(users, ts, u, issues, durationMs) ==
            CreateRefreshToken(users, IssueAll(users, ts, u, issues[..n - 1], durationMs), u,
                               issues[n - 1].0, issues[n - 1].1, durationMs).state
    decreases |issues|
  {
    if |issues| > 1 {
      var s1 := CreateRefreshToken(users, ts, u, issues[0].0, issues[0].1, durationMs).state;
      IssueAllSnoc(users, s1, u, issues[1..], durationMs);
      assert issues[1..][..|issues| - 2] == issues[..|issues| - 1][1..];
    }
  }

  /** Issuing keeps the table invariant. */
  lemma {:induction false} IssueAllValid(users: UserStore, ts: TokenStore, u: UserId,
                                         issues: seq<(string, Instant)>, durationMs: int)
    requires ValidTokens(ts)
    ensures ValidTokens(IssueAll(users, ts, u, issues, durationMs))
    decreases |issues|
  {
    if |issues| > 0 {
      var s1 := CreateRefreshToken(users, ts, u, issues[0].0, issues[0].1, durationMs).state;
      IssueAllValid(users, s1, u, issues[1..], durationMs);
    }
  }
}
