/** The user registry: registration, profile update and deletion, keeping
    email addresses unique. Password hashing is an opaque `encode` function
    supplied by the caller. */
module UserService {
  import opened Wrappers
  import opened Entities

  /** Body of `POST /api/auth/register`: the two fields `createUser` reads. */
  datatype RegisterRequest = RegisterRequest(email: string, password: string)

  /** Body of the user-administration endpoints; the password may be null. */
  datatype UserRequest = UserRequest(email: string, password: Option<string>, displayName: Option<string>)

  /** What the service returns about a user: never the password hash. */
  datatype UserResponse = UserResponse(id: UserId, email: string, displayName: Option<string>, createdAt: Instant)

  /** `existsByEmail`. */
  predicate ExistsByEmail(users: map<UserId, User>, email: string) {
    exists id :: id in users && users[id].email == email
  }

  /** `mapToResponse`. */
  function MapToResponse(u: User): (r: UserResponse)
    ensures r.id == u.id && r.email == u.email && r.displayName == u.displayName && r.createdAt == u.createdAt
  {
    UserResponse(u.id, u.email, u.displayName, u.createdAt)
  }

  /** The response never reveals the password hash: users that differ only in
      it answer alike, and users that differ in anything else do not. */
  lemma MapToResponseHidesHash(u: User, v: User)
    ensures MapToResponse(u) == MapToResponse(v) <==> u.(passwordHash := v.passwordHash) == v
  {
  }

  /** Scans ids `from`, `from + 1`, ... below `bound` for a user with `email`. */
  function FindByEmailFrom(users: map<UserId, User>, email: string, from: nat, bound: nat): (r: Option<UserId>)
    ensures r.Some? ==> from <= r.value < bound && r.value in users && users[r.value].email == email
    ensures r.None? ==> forall id :: from <= id < bound && id in users ==> users[id].email != email
    decreases bound - from
  {
    if from >= bound then None
    else if from in users && users[from].email == email then Some(from)
    else FindByEmailFrom(users, email, from + 1, bound)
  }

  /** `findByEmail`: the user holding `email`, if any. */
  function FindByEmail(us: UserStore, email: string): (r: Option<UserId>)
    ensures r.Some? ==> r.value in us.byId && us.byId[r.value].email == email
    ensures UserKeysValid(us) ==> (r.None? <==> !ExistsByEmail(us.byId, email))
    ensures ValidUsers(us) && r.Some? ==>
              forall id :: id in us.byId && us.byId[id].email == email ==> id == r.value
  {
    FindByEmailFrom(us.byId, email, 0, us.nextId)
  }

  /** Inserts a new row under the next identity value. */
  function Insert(us: UserStore, u: User): (r: UserStore)
    requires u.id == us.nextId
    ensures r.nextId == us.nextId + 1
    ensures r.byId.Keys == us.byId.Keys + {u.id}
    ensures r.byId[u.id] == u
    ensures forall id :: id in us.byId && id != u.id ==> r.byId[id] == us.byId[id]
  {
    UserStore(us.byId[u.id := u], us.nextId + 1)
  }

  /** `createUser(RegisterRequest)`: refuses a taken email; stores the hash of
      the password and no display name. */
  function CreateUser(us: UserStore, req: RegisterRequest, encode: string -> string, now: Instant): (r: Step<UserStore, UserResponse>)
    ensures ExistsByEmail(us.byId, req.email) ==> r == Step(us, Failure(EmailAlreadyExists))
    ensures !ExistsByEmail(us.byId, req.email) ==>
              && r.result == Success(UserResponse(us.nextId, req.email, None, now))
              && r.state.byId.Keys == us.byId.Keys + {us.nextId}
              && r.state.byId[us.nextId] == User(us.nextId, req.email, encode(req.password), None, now)
              && (UserKeysValid(us) ==>
                    forall id :: id in us.byId ==> id in r.state.byId && r.state.byId[id] == us.byId[id])
    ensures ValidUsers(us) ==> ValidUsers(r.state)
  {
    if ExistsByEmail(us.byId, req.email) then
      Step(us, Failure(EmailAlreadyExists))
    else
      var u := User(us.nextId, req.email, encode(req.password), None, now);
      Step(Insert(us, u), Success(MapToResponse(u)))
  }

  /** `createUser(UserRequest)`: as registration, but the display name is
      stored too, and a null password is refused by the encoder. */
  function CreateUserWithProfile(us: UserStore, req: UserRequest, encode: string -> string, now: Instant): (r: Step<UserStore, UserResponse>)
    ensures ExistsByEmail(us.byId, req.email) ==> r == Step(us, Failure(EmailAlreadyExists))
    ensures !ExistsByEmail(us.byId, req.email) && req.password.None? ==> r == Step(us, Failure(NullPassword))
    ensures !ExistsByEmail(us.byId, req.email) && req.password.Some? ==>
              && r.result == Success(UserResponse(us.nextId, req.email, req.displayName, now))
              && r.state.byId.Keys == us.byId.Keys + {us.nextId}
              && r.state.byId[us.nextId] == User(us.nextId, req.email, encode(req.password.value), req.displayName, now)
              && (UserKeysValid(us) ==>
                    forall id :: id in us.byId ==> id in r.state.byId && r.state.byId[id] == us.byId[id])
    ensures ValidUsers(us) ==> ValidUsers(r.state)
  {
    if ExistsByEmail(us.byId, req.email) then
      Step(us, Failure(EmailAlreadyExists))
    else if req.password.None? then
      Step(us, Failure(NullPassword))
    else
      var u := User(us.nextId, req.email, encode(req.password.value), req.displayName, now);
      Step(Insert(us, u), Success(MapToResponse(u)))
  }

  /** True when `updateUser` re-hashes: the new password is non-null and non-empty. */
  predicate ChangesPassword(req: UserRequest) {
    req.password.Some? && |req.password.value| > 0
  }

  /** `updateUser`: the user must exist; a changed email must be free; email
      and display name are always overwritten, the hash only when a non-empty
      password is supplied. */
  function UpdateUser(us: UserStore, id: UserId, req: UserRequest, encode: string -> string): (r: Step<UserStore, UserResponse>)
    ensures id !in us.byId ==> r == Step(us, Failure(UserNotFound))
    ensures id in us.byId && us.byId[id].email != req.email && ExistsByEmail(us.byId, req.email) ==>
              r == Step(us, Failure(EmailAlreadyExists))
    ensures r.result.Failure? ==> r.state == us
    ensures r.result.Success? <==>
              id in us.byId && (us.byId[id].email == req.email || !ExistsByEmail(us.byId, req.email))
    ensures r.result.Success? ==> id in r.state.byId
    ensures r.result.Success? ==>
              var before := us.byId[id];
              var after := r.state.byId[id];
              && r.state.byId.Keys == us.byId.Keys
              && r.state.nextId == us.nextId
              && after.email == req.email
              && after.displayName == req.displayName
              && after.passwordHash == (if ChangesPassword(req) then encode(req.password.value) else before.passwordHash)
              && after.id == before.id && after.createdAt == before.createdAt
              && r.result.value == MapToResponse(after)
              && (forall other :: other in us.byId && other != id ==> r.state.byId[other] == us.byId[other])
    ensures ValidUsers(us) ==> ValidUsers(r.state)
  {
    if id !in us.byId then
      Step(us, Failure(UserNotFound))
    else
      var u := us.byId[id];
      if u.email != req.email && ExistsByEmail(us.byId, req.email) then
        Step(us, Failure(EmailAlreadyExists))
      else
        var hash := if ChangesPassword(req) then encode(req.password.value) else u.passwordHash;
        var u' := u.(email := req.email, passwordHash := hash, displayName := req.displayName);
        Step(UserStore(us.byId[id := u'], us.nextId), Success(MapToResponse(u')))
  }

  /** `deleteUser`: the user must exist; exactly that row is removed. */
  function DeleteUser(us: UserStore, id: UserId): (r: Step<UserStore, ()>)
    ensures id !in us.byId ==> r == Step(us, Failure(UserNotFound))
    ensures id in us.byId ==>
              && r.result.Success?
              && r.state.byId.Keys == us.byId.Keys - {id}
              && r.state.nextId == us.nextId
              && (forall other :: other in r.state.byId ==> r.state.byId[other] == us.byId[other])
    ensures ValidUsers(us) ==> ValidUsers(r.state)
  {
    if id !in us.byId then Step(us, Failure(UserNotFound))
    else Step(UserStore(us.byId - {id}, us.nextId), Success(()))
  }

  /** `getUserById`. */
  function GetUserById(us: UserStore, id: UserId): (r: Result<UserResponse, Error>)
    ensures r.Success? <==> id in us.byId
    ensures r.Success? ==> r.value.id == us.byId[id].id && r.value.email == us.byId[id].email
    ensures r.Success? ==> r.value == MapToResponse(us.byId[id])
    ensures r.Failure? ==> r.error == UserNotFound
  {
    if id in us.byId then Success(MapToResponse(us.byId[id])) else Failure(UserNotFound)
  }

  /** `getUserByEmail`. */
  function GetUserByEmail(us: UserStore, email: string): (r: Result<UserResponse, Error>)
    ensures UserKeysValid(us) ==> (r.Success? <==> ExistsByEmail(us.byId, email))
    ensures r.Success? ==> r.value.email == email
    // the answer describes a stored holder of the email
    ensures r.Success? ==> exists id :: id in us.byId && us.byId[id].email == email && r.value == MapToResponse(us.byId[id])
    ensures r.Failure? ==> r.error == UserNotFound
  {
    match FindByEmail(us, email)
    case Some(id) => Success(MapToResponse(us.byId[id]))
    case None => Failure(UserNotFound)
  }

  /** Registration with a taken email leaves the original account as it was. */
  lemma DuplicateRegistrationKeepsAccount(us: UserStore, req: RegisterRequest, encode: string -> string,
                                          now: Instant, holder: UserId)
    requires holder in us.byId && us.byId[holder].email == req.email
    ensures CreateUser(us, req, encode, now).result == Failure(EmailAlreadyExists)
    ensures CreateUser(us, req, encode, now).state.byId[holder] == us.byId[holder]
  {
  }
}
