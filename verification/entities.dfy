/** The persisted entities (users, refresh tokens, trips), the errors the
    services raise, and the shape of a state transition. */
module Entities {
  import opened Wrappers

  type UserId = nat
  type TripId = nat

  /** An instant, in milliseconds since the epoch. */
  type Instant = int

  /** A latitude or longitude: a Java `Double` the services only copy. */
  type Coordinate = real

  /** The `users` table row. */
  datatype User = User(
    id: UserId,
    email: string,
    passwordHash: string,
    displayName: Option<string>,
    createdAt: Instant)

  /** The `refresh_tokens` table row: one owner, an opaque value, an expiry and
      the creation instant. */
  datatype RefreshToken = RefreshToken(
    user: UserId,
    token: string,
    expiryDate: Instant,
    createdAt: Instant)

  /** The `trips` table row; every column but the id is nullable. */
  datatype Trip = Trip(
    id: TripId,
    title: Option<string>,
    description: Option<string>,
    photos: Option<seq<string>>,
    tags: Option<seq<string>>,
    latitude: Option<Coordinate>,
    longitude: Option<Coordinate>,
    authorId: Option<UserId>)

  /** Why an `AccessDeniedException` was raised. */
  datatype DenialReason =
    | AuthenticationRequired   // no authenticated principal with a user id
    | NotOwner                 // the trip's author is null or someone else

  /** The exceptions the core raises, one variant per distinct failure. */
  datatype Error =
    | UserNotFound             // "User not found with id: ..." / "User not found"
    | NullId                   // a repository lookup with a null id
    | TokenNotInDatabase       // "Refresh token is not in database!"
    | TokenExpired             // "Refresh token was expired. Please make a new signin request"
    | InvalidCredentials       // "Invalid email or password"
    | EmailAlreadyExists
    | NullPassword             // the password encoder refuses a null password
    | TripNotFound             // "Trip not found with id: ..."
    | AccessDenied(reason: DenialReason)
    | StorageNotConfigured     // "Supabase configuration is missing..."
    | UploadFailed             // "Failed to upload photo: ..."
    | ConstraintViolation      // a column constraint rejected an insert
    | NullRequest              // a method called on a null request object

  /** A transition: the state afterwards, and the value returned or the
      exception thrown. The state is returned on failure too, because some
      operations commit a deletion before they throw. */
  datatype Step<S, T> = Step(state: S, result: Result<T, Error>)

  /** The `users` table: rows by id, and the next value of the identity column. */
  datatype UserStore = UserStore(byId: map<UserId, User>, nextId: UserId)

  /** The `trips` table: rows by id, and the next value of the identity column. */
  datatype TripStore = TripStore(byId: map<TripId, Trip>, nextId: TripId)

  /** The `refresh_tokens` table, keyed by the (unique) token value. */
  type TokenStore = map<string, RefreshToken>

  /** Every row sits under its own id, and every id is below the identity
      column's next value. */
  predicate UserKeysValid(us: UserStore) {
    forall id :: id in us.byId ==> us.byId[id].id == id && id < us.nextId
  }

  predicate TripKeysValid(ts: TripStore) {
    forall id :: id in ts.byId ==> ts.byId[id].id == id && id < ts.nextId
  }

  /** No two users share an email. */
  predicate EmailsUnique(users: map<UserId, User>) {
    forall a, b :: a in users && b in users && users[a].email == users[b].email ==> a == b
  }

  /** The user-store invariant kept by every user operation. */
  predicate ValidUsers(us: UserStore) {
    UserKeysValid(us) && EmailsUnique(us.byId)
  }
}
