/** `AuthService`: sign-up, login and lookup of accounts. None of it is
    transactional; the only write is the single `save` of a new user. The
    password is stored and compared as plain text, as the source does. */
module AuthService {
  import opened Common
  import opened Ordering
  import opened Users
  import opened UserRepository
  import opened Store
  import opened FileUploadService

  const USERNAME_TAKEN := "Username already exists"
  const EMAIL_TAKEN := "Email already exists"
  const INVALID_IMAGE := "Invalid image file format"
  const PHOTO_TOO_LARGE := "File size exceeds 10MB limit"
  const USER_NOT_FOUND := "User not found"
  const DEACTIVATED := "Account is deactivated"
  const INVALID_PASSWORD := "Invalid password"
  const PROFILE_DIR := "profile-pictures"
  const MAX_PHOTO_SIZE := 10 * 1024 * 1024

  /** The fields of a sign-up form the service reads. */
  datatype SignUpRequest = SignUpRequest(username: string, password: string, email: string)

  datatype LoginRequest = LoginRequest(usernameOrEmail: string, password: string)

  /** `UserResponse`: the account without its password; `createdAt` is the
      stored time itself rather than its text rendering. */
  datatype UserResponse = UserResponse(
    id: Id,
    username: string,
    email: string,
    userPhoto: Option<string>,
    isActive: Option<bool>,
    createdAt: Time)

  /** `mapToUserResponse(user)`; a stored user always has a creation time. */
  function MapToUserResponse(u: User): UserResponse
    requires u.createdAt.Some?
  {
    UserResponse(u.id, u.username, u.email, u.userPhoto, u.isActive, u.createdAt.value)
  }

  // ---------------------------------------------------------------------------
  // signUp
  // ---------------------------------------------------------------------------

  /** The photo step of `signUp`: no photo or an empty one stores nothing; a
      non-empty one must be one of the accepted image types and at most
      10 MiB, in that order, before it is stored under "profile-pictures". */
  function PhotoOutcome(photo: Option<UploadedFile>, uuid: string): (r: Result<Option<string>>)
    ensures photo.None? || photo.value.IsEmpty() ==> r == Success(None)
    ensures photo.Some? && !photo.value.IsEmpty() && !IsValidImageFile(photo.value) ==>
              r == Failure(Error(RuntimeError, INVALID_IMAGE))
    ensures photo.Some? && IsValidImageFile(photo.value) && photo.value.size > MAX_PHOTO_SIZE ==>
              r == Failure(Error(RuntimeError, PHOTO_TOO_LARGE))
    ensures r.Success? && r.value.Some? ==>
              && IsValidImageFile(photo.value) && photo.value.size <= MAX_PHOTO_SIZE
              && StartsWith(r.value.value, PROFILE_DIR + "/")
  {
    if photo.None? || photo.value.IsEmpty() then Success(None)
    else if !IsValidImageFile(photo.value) then Failure(Error(RuntimeError, INVALID_IMAGE))
    else if !IsValidFileSize(photo.value, MAX_PHOTO_SIZE) then Failure(Error(RuntimeError, PHOTO_TOO_LARGE))
    else
      var path := PROFILE_DIR + "/" + uuid + Extension(photo.value.originalFilename);
      assert path[..|PROFILE_DIR + "/"|] == PROFILE_DIR + "/";
      Success(Some(path))
  }

  /** The `new User()` that `signUp` fills in before saving it. */
  function NewUser(request: SignUpRequest, photoPath: Option<string>): User {
    EmptyUser().(username := request.username, password := request.password, email := request.email,
                 userPhoto := photoPath, isActive := Some(true))
  }

  /** `signUp(request, userPhoto)`: the two uniqueness checks, the photo, then
      the save; a rejected save leaves no user behind. */
  method SignUp(db: Database, request: SignUpRequest, photo: Option<UploadedFile>, uuid: string, now: Time)
    returns (r: Result<UserResponse>)
    requires db.State().Valid()
    modifies db
    ensures db.State().Valid()
    ensures ExistsByUsername(old(db.users), request.username) ==> r == Failure(Error(RuntimeError, USERNAME_TAKEN))
    ensures !ExistsByUsername(old(db.users), request.username) && ExistsByEmail(old(db.users), request.email) ==>
              r == Failure(Error(RuntimeError, EMAIL_TAKEN))
    ensures !ExistsByUsername(old(db.users), request.username) && !ExistsByEmail(old(db.users), request.email)
            && PhotoOutcome(photo, uuid).Failure? ==>
              r == Failure(PhotoOutcome(photo, uuid).error)
    ensures r.Success? <==>
              PhotoOutcome(photo, uuid).Success?
              && UserInsertable(old(db.State()), NewUser(request, PhotoOutcome(photo, uuid).value), now)
    ensures r.Failure? ==> db.State() == old(db.State())
    ensures r.Success? ==>
              && db.State() == SignedUp(old(db.State()), request, PhotoOutcome(photo, uuid).value, now)
              && r.value == MapToUserResponse(UserRow(old(db.State()), NewUser(request, PhotoOutcome(photo, uuid).value), now))
  {
    if ExistsByUsername(db.users, request.username) {
      return Failure(Error(RuntimeError, USERNAME_TAKEN));
    }
    if ExistsByEmail(db.users, request.email) {
      return Failure(Error(RuntimeError, EMAIL_TAKEN));
    }
    var photoPath := StorePhoto(photo, uuid);
    if photoPath.Failure? {
      return Failure(photoPath.error);
    }
    var saved := db.InsertUser(NewUser(request, photoPath.value), now);
    if saved.Failure? {
      return Failure(saved.error);
    }
    OnCreateDefaults(NewUser(request, photoPath.value), now);
    r := Success(MapToUserResponse(saved.value));
  }

  /** The photo step of `signUp` as the service runs it: check, then upload. */
  method StorePhoto(photo: Option<UploadedFile>, uuid: string) returns (r: Result<Option<string>>)
    ensures r == PhotoOutcome(photo, uuid)
  {
    if photo.None? || photo.value.IsEmpty() {
      return Success(None);
    }
    if !IsValidImageFile(photo.value) {
      return Failure(Error(RuntimeError, INVALID_IMAGE));
    }
    if !IsValidFileSize(photo.value, MAX_PHOTO_SIZE) {
      return Failure(Error(RuntimeError, PHOTO_TOO_LARGE));
    }
    var path := UploadFile(photo.value, PROFILE_DIR, uuid);
    r := Success(Some(path));
  }

  /** `@Email` on the email column: a sign-up whose email is not well formed
      is refused by the save, whatever else the request carries; with the
      outcome of `SignUp` this makes the call fail and store nothing. */
  lemma MalformedEmailRefused(t: Tables, request: SignUpRequest, photoPath: Option<string>, now: Time)
    requires !IsWellFormedEmail(request.email)
    ensures !UserInsertable(t, NewUser(request, photoPath), now)
  {
    SignedUpAccountDefaults(t, request, photoPath, now);
  }

  /** The stored account is active and offline, with the default status and
      preferences, the server's creation time, the next id and the photo
      path of the photo step. */
  lemma SignedUpAccountDefaults(t: Tables, request: SignUpRequest, photoPath: Option<string>, now: Time)
    ensures var row := UserRow(t, NewUser(request, photoPath), now);
      && row.id == t.nextUserId && row.username == request.username && row.email == request.email
      && row.password == request.password && row.userPhoto == photoPath
      && row.IsCurrentlyActive() && !row.IsCurrentlyOnline() && row.status == Some(STATUS_OFFLINE)
      && row.IsPrivacyPublic() && row.IsNotificationEnabled() && !row.IsTwoFactorEnabled()
      && row.createdAt == Some(now) && row.updatedAt == Some(now)
  {
    OnCreateDefaults(NewUser(request, photoPath), now);
  }

  // ---------------------------------------------------------------------------
  // login and getUserById
  // ---------------------------------------------------------------------------

  /** `login(request)`: the one account whose username or email is the given
      text, then the active flag, then the password. */
  function Login(t: Tables, request: LoginRequest): (r: Result<UserResponse>)
    requires forall i :: 0 <= i < |t.users| ==> t.users[i].createdAt.Some?
    ensures Count(t.users, UsernameOrEmailIs(request.usernameOrEmail)) == 0 ==>
              r == Failure(Error(RuntimeError, USER_NOT_FOUND))
    ensures Count(t.users, UsernameOrEmailIs(request.usernameOrEmail)) > 1 ==>
              r.Failure? && r.error.kind == IncorrectResultSize
    ensures r.Success? ==>
              exists u :: u in t.users && (u.username == request.usernameOrEmail || u.email == request.usernameOrEmail)
                && u.IsCurrentlyActive() && u.password == request.password && r.value == MapToUserResponse(u)
  {
    var found := FindByUsernameOrEmail(t.users, request.usernameOrEmail);
    CountExtremes(t.users, UsernameOrEmailIs(request.usernameOrEmail));
    if found.Failure? then Failure(found.error)
    else if found.value.None? then
      assert Count(t.users, UsernameOrEmailIs(request.usernameOrEmail)) == 0 by {
        forall i | 0 <= i < |t.users| ensures !UsernameOrEmailIs(request.usernameOrEmail)(t.users[i]) {
          assert t.users[i] in t.users;
        }
      }
      Failure(Error(RuntimeError, USER_NOT_FOUND))
    else
      var u := found.value.value;
      var i :| 0 <= i < |t.users| && t.users[i] == u;
      if !u.IsCurrentlyActive() then Failure(Error(RuntimeError, DEACTIVATED))
      else if u.password != request.password then Failure(Error(RuntimeError, INVALID_PASSWORD))
      else Success(MapToUserResponse(u))
  }

  /** With exactly one account matching the text, login decides on that
      account alone: deactivation is reported before a wrong password, and
      an active account with the right password is let in. */
  lemma LoginDecidesOnTheAccount(t: Tables, request: LoginRequest, i: nat)
    requires t.Valid() && i < |t.users|
    requires Count(t.users, UsernameOrEmailIs(request.usernameOrEmail)) == 1
    requires t.users[i].username == request.usernameOrEmail || t.users[i].email == request.usernameOrEmail
    ensures var u := t.users[i];
      && (!u.IsCurrentlyActive() ==> Login(t, request) == Failure(Error(RuntimeError, DEACTIVATED)))
      && (u.IsCurrentlyActive() && u.password != request.password ==>
            Login(t, request) == Failure(Error(RuntimeError, INVALID_PASSWORD)))
      && (u.IsCurrentlyActive() && u.password == request.password ==> Login(t, request) == Success(MapToUserResponse(u)))
  {
    var p := UsernameOrEmailIs(request.usernameOrEmail);
    var found := FindByUsernameOrEmail(t.users, request.usernameOrEmail);
    assert t.users[i] in t.users;
    var v := found.value.value;
    var j :| 0 <= j < |t.users| && t.users[j] == v;
  }

  /** The tables after `signUp` saved the account built from `request`. */
  function SignedUp(t: Tables, request: SignUpRequest, photoPath: Option<string>, now: Time): Tables {
    t.(users := t.users + [UserRow(t, NewUser(request, photoPath), now)], nextUserId := t.nextUserId + 1)
  }

  /** A user who has just signed up can log in with the username and the
      password, unless an existing account's email is that username. */
  lemma SignedUpUserCanLogIn(t: Tables, request: SignUpRequest, photoPath: Option<string>, now: Time)
    requires t.Valid() && UserInsertable(t, NewUser(request, photoPath), now)
    requires forall u :: u in t.users ==> u.email != request.username
    ensures SignedUp(t, request, photoPath, now).Valid()
    ensures Login(SignedUp(t, request, photoPath, now), LoginRequest(request.username, request.password))
            == Success(MapToUserResponse(UserRow(t, NewUser(request, photoPath), now)))
  {
    InsertUserKeepsValid(t, NewUser(request, photoPath), now);
    SignedUpAccountDefaults(t, request, photoPath, now);
    OnlyTheNewAccountMatches(t, request, photoPath, now);
    LoginDecidesOnTheAccount(SignedUp(t, request, photoPath, now), LoginRequest(request.username, request.password), |t.users|);
  }

  /** After the sign-up the username names the new account and no other. */
  lemma OnlyTheNewAccountMatches(t: Tables, request: SignUpRequest, photoPath: Option<string>, now: Time)
    requires !ExistsByUsername(t.users, request.username)
    requires forall u :: u in t.users ==> u.email != request.username
    ensures Count(SignedUp(t, request, photoPath, now).users, UsernameOrEmailIs(request.username)) == 1
  {
    var row := UserRow(t, NewUser(request, photoPath), now);
    var p := UsernameOrEmailIs(request.username);
    CountExtremes(t.users, UsernameIs(request.username));
    forall k | 0 <= k < |t.users| ensures !p(t.users[k]) {
      assert t.users[k] in t.users;
    }
    CountExtremes(t.users, p);
    CountAppend(t.users, row, p);
  }

  /** One account's username that is another account's email locks both out
      of logging in with that text, whatever the password. */
  lemma SharedTextBlocksLogin(t: Tables, i: nat, j: nat, password: string)
    requires t.Valid() && i < |t.users| && j < |t.users| && i != j
    requires t.users[i].username == t.users[j].email
    ensures Login(t, LoginRequest(t.users[i].username, password)).Failure?
    ensures Login(t, LoginRequest(t.users[i].username, password)).error.kind == IncorrectResultSize
  {
    var p := UsernameOrEmailIs(t.users[i].username);
    if i < j {
      CountAtLeastTwo(t.users, p, i, j);
    } else {
      CountAtLeastTwo(t.users, p, j, i);
    }
  }

  /** `getUserById(id)`. */
  function GetUserById(t: Tables, id: Id): (r: Result<UserResponse>)
    requires t.Valid()
    ensures r.Failure? <==> forall u :: u in t.users ==> u.id != id
    ensures r.Failure? ==> r.error == Error(RuntimeError, USER_NOT_FOUND)
    ensures r.Success? ==> exists u :: u in t.users && u.id == id && r.value == MapToUserResponse(u)
  {
    var found := t.FindUserById(id);
    if found.None? then Failure(Error(RuntimeError, USER_NOT_FOUND))
    else
      var i :| 0 <= i < |t.users| && t.users[i] == found.value;
      Success(MapToUserResponse(found.value))
  }

  /** The account a successful login returns can be fetched again by its id. */
  lemma LoginThenGetById(t: Tables, request: LoginRequest)
    requires t.Valid() && Login(t, request).Success?
    ensures GetUserById(t, Login(t, request).value.id) == Login(t, request)
  {
    var r := Login(t, request);
    var u :| u in t.users && (u.username == request.usernameOrEmail || u.email == request.usernameOrEmail)
             && u.IsCurrentlyActive() && u.password == request.password && r.value == MapToUserResponse(u);
    UserFoundByOwnId(t.users, u);
  }

  /** With unique ids, looking a listed user up by its id finds that user. */
  lemma UserFoundByOwnId(us: seq<User>, u: User)
    requires UniqueColumns(us) && u in us
    ensures FindById(us, IdOfUser, u.id) == Some(u)
  {
    var v := FindById(us, IdOfUser, u.id).value;
    var i :| 0 <= i < |us| && us[i] == u;
    var j :| 0 <= j < |us| && us[j] == v;
  }
}
