/** Login: check the credentials, then rotate the user's refresh token. The
    authentication manager is an opaque predicate on (email, password); the
    access-token generator and the refresh-token generator are supplied
    values. */
module AuthenticationService {
  import opened Wrappers
  import opened Entities
  import opened RefreshTokenService
  import opened UserService

  /** Body of `POST /api/auth/login`. */
  datatype LoginRequest = LoginRequest(email: string, password: string)

  /** The identity summary of a login: id and email only. */
  datatype UserInfo = UserInfo(id: UserId, email: string)

  datatype LoginResponse = LoginResponse(
    accessToken: string,
    refreshToken: string,
    tokenType: string,
    user: UserInfo)

  /** `login`. An authentication failure of any kind surfaces as one
      `InvalidCredentials` error; failures after authentication (the user
      lookup, the token insert) propagate as they are. */
  function Login(users: UserStore, ts: TokenStore, req: LoginRequest, authenticate: (string, string) -> bool,
                 accessToken: string, newValue: string, now: Instant, durationMs: int): (r: Step<TokenStore, LoginResponse>)
    // every credential failure collapses into one error and changes nothing
    ensures !authenticate(req.email, req.password) ==> r == Step(ts, Failure(InvalidCredentials))
    // and that error means exactly a credential failure
    ensures r.result == Failure(InvalidCredentials) <==> !authenticate(req.email, req.password)
    // a lookup failure after authentication is not collapsed
    ensures authenticate(req.email, req.password) && FindByEmail(users, req.email).None? ==>
              r == Step(ts, Failure(UserNotFound))
    // success: a "Bearer" pair whose refresh token is the one token the user now holds
    ensures r.result.Success? ==>
              var resp := r.result.value;
              && authenticate(req.email, req.password)
              && resp.tokenType == BearerType
              && resp.accessToken == accessToken
              && resp.refreshToken == newValue
              && resp.user.id in users.byId
              && resp.user.email == users.byId[resp.user.id].email == req.email
              && TokensOf(r.state, resp.user.id) == {newValue}
              && r.state[newValue].expiryDate == now + durationMs
    // tokens of other users are untouched
    ensures r.result.Success? ==>
              forall v :: v in ts && ts[v].user != r.result.value.user.id ==> v in r.state && r.state[v] == ts[v]
    ensures ValidTokens(ts) ==> ValidTokens(r.state)
  {
    if !authenticate(req.email, req.password) then
      Step(ts, Failure(InvalidCredentials))
    else
      match FindByEmail(users, req.email)
      case None => Step(ts, Failure(UserNotFound))
      case Some(id) =>
        var created := CreateRefreshToken(users, ts, id, newValue, now, durationMs);
        match created.result
        case Failure(e) => Step(created.state, Failure(e))
        case Success(tok) =>
          Step(created.state, Success(LoginResponse(accessToken, tok.token, BearerType, UserInfo(id, users.byId[id].email))))
  }

  /** A store-backed credential check: some user holds the email and the
      password matches that user's hash (`matches` is the encoder's verify). */
  predicate CredentialsMatch(users: UserStore, matches: (string, string) -> bool, email: string, password: string) {
    exists id :: id in users.byId && users.byId[id].email == email && matches(password, users.byId[id].passwordHash)
  }

  /** With the store-backed check, an unknown email and a wrong password are
      indistinguishable to the caller, and authenticated users are always found. */
  lemma StoreBackedLoginCollapsesFailures(users: UserStore, ts: TokenStore, req: LoginRequest,
                                          matches: (string, string) -> bool, accessToken: string,
                                          newValue: string, now: Instant, durationMs: int)
    requires ValidUsers(users)
    ensures var r := Login(users, ts, req, (e, p) => CredentialsMatch(users, matches, e, p),
                           accessToken, newValue, now, durationMs);
            && (r.result == Failure(InvalidCredentials) <==>
                  match FindByEmail(users, req.email)
                  case None => true
                  case Some(id) => !matches(req.password, users.byId[id].passwordHash))
            && r.result != Failure(UserNotFound)
  {
    var check := (e, p) => CredentialsMatch(users, matches, e, p);
    match FindByEmail(users, req.email)
    case None =>
      assert !check(req.email, req.password);
    case Some(id) =>
      if check(req.email, req.password) {
        var w :| w in users.byId && users.byId[w].email == req.email && matches(req.password, users.byId[w].passwordHash);
        assert w == id;
      }
  }

  /** Logging in again replaces the earlier session: the earlier refresh token
      is gone and only the new one remains. */
  lemma LoginReplacesEarlierToken(users: UserStore, ts: TokenStore, req: LoginRequest,
                                  authenticate: (string, string) -> bool, accessToken: string,
                                  newValue: string, now: Instant, durationMs: int, earlier: string)
    requires ValidTokens(ts)
    requires earlier in ts && earlier != newValue
    requires Login(users, ts, req, authenticate, accessToken, newValue, now, durationMs).result.Success?
    requires ts[earlier].user == Login(users, ts, req, authenticate, accessToken, newValue, now, durationMs).result.value.user.id
    ensures earlier !in Login(users, ts, req, authenticate, accessToken, newValue, now, durationMs).state
  {
    var r := Login(users, ts, req, authenticate, accessToken, newValue, now, durationMs);
    assert earlier !in TokensOf(r.state, r.result.value.user.id);
  }
}
