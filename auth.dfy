/**
 * The two authentication routes of the API (fastapi/main.py:104-187):
 * registration, which guards and then inserts one row into the `users`
 * table, and login, which looks a row up and compares the password.
 */
module Auth {
  import opened Wrappers
  import opened Schemas
  import opened Models
  import Query

  /** The constant token every successful login returns in place of a signed token. */
  const AccessToken := "fake-jwt-token"
  const TokenType := "bearer"

  /** The ways the two routes fail, each with its HTTP status and detail message. */
  datatype ApiError =
    | InvalidRequest(fields: seq<Field>)  // the request body fails its schema
    | DuplicateAccount
    | PasswordMismatch
    | InvalidCredentials
    | StorageRejected                     // the commit fails: a value does not fit its column
  {
    function Status(): int {
      match this
      case InvalidRequest(_) => 422
      case DuplicateAccount => 400
      case PasswordMismatch => 400
      case InvalidCredentials => 401
      case StorageRejected => 500
    }

    /** The detail message the route itself raises; the framework's own errors have none here. */
    function Detail(): Option<string> {
      match this
      case DuplicateAccount => Some("Email or username already registered")
      case PasswordMismatch => Some("Passwords do not match")
      case InvalidCredentials => Some("Invalid credentials")
      case _ => None
    }
  }

  /** The user fields a successful login reports. */
  datatype PublicUser = PublicUser(id: int, email: string, username: string, fullName: Option<string>)

  datatype LoginResponse = LoginResponse(accessToken: string, tokenType: string, user: PublicUser)

  /** The registration query's filter: same email or same username. */
  predicate Conflicts(u: User, email: string, username: string) {
    u.email == email || u.username == username
  }

  /** The login query's filter: the one identifier equals the username or the email. */
  predicate Identifies(u: User, identifier: string) {
    u.username == identifier || u.email == identifier
  }

  /** Row k is the first row, in table order, that the identifier picks out. */
  ghost predicate FirstIdentified(rows: seq<User>, identifier: string, k: int) {
    Query.IsFirst(rows, u => Identifies(u, identifier), k)
  }

  /** A stored row as the registration response shows it. */
  function ToResponse(u: User): UserResponse {
    UserResponse(u.id, u.email, u.username, u.fullName, u.isActive, u.createdAt, u.updatedAt)
  }

  /** A stored row as the login response shows it. */
  function ToPublic(u: User): PublicUser {
    PublicUser(u.id, u.email, u.username, u.fullName)
  }

  /**
   * The row registration inserts: the supplied password is stored verbatim
   * in hashed_password, is_active is left to its column default, and the id
   * is the next auto-increment value.
   */
  function Candidate(id: int, req: UserCreate, now: Timestamp): (u: User)
    ensures u.id == id && u.email == req.email && u.username == req.username
    ensures u.fullName == req.fullName && u.hashedPassword == req.password
    ensures u.isActive && u.createdAt == now && u.updatedAt.None?
  {
    NewUser(id, req.email, req.username, req.fullName, req.password, None, now)
  }

  /**
   * Why registration refuses a request, or None when it inserts: the body
   * is validated first, then the table is searched for a row with the same
   * email or username, then the confirmation is compared, and last the
   * database refuses a row that does not fit its columns (including an id
   * past the end of the INT auto-increment range).
   */
  function Rejection(rows: seq<User>, nextId: int, req: UserCreate, now: Timestamp): (e: Option<ApiError>)
    ensures e == Some(DuplicateAccount) ==> e.value.Status() == 400 && e.value.Detail() == Some("Email or username already registered")
    ensures e == Some(PasswordMismatch) ==> e.value.Status() == 400 && e.value.Detail() == Some("Passwords do not match")
    ensures !UserCreateValid(req) ==> e == Some(InvalidRequest(CreateViolations(req)))
    ensures UserCreateValid(req) && (exists i :: 0 <= i < |rows| && Conflicts(rows[i], req.email, req.username))
            ==> e == Some(DuplicateAccount)
    ensures UserCreateValid(req) && (forall i :: 0 <= i < |rows| ==> !Conflicts(rows[i], req.email, req.username))
            && req.password != req.confirmPassword
            ==> e == Some(PasswordMismatch)
    ensures UserCreateValid(req) && (forall i :: 0 <= i < |rows| ==> !Conflicts(rows[i], req.email, req.username))
            && req.password == req.confirmPassword && !FitsColumns(Candidate(nextId, req, now))
            ==> e == Some(StorageRejected)
    ensures e.None? <==>
            && UserCreateValid(req)
            && (forall i :: 0 <= i < |rows| ==> !Conflicts(rows[i], req.email, req.username))
            && req.password == req.confirmPassword
            && FitsColumns(Candidate(nextId, req, now))
  {
    var violations := CreateViolations(req);
    if violations != [] then Some(InvalidRequest(violations))
    else if Query.First(rows, u => Conflicts(u, req.email, req.username)).Some? then Some(DuplicateAccount)
    else if req.password != req.confirmPassword then Some(PasswordMismatch)
    else if !FitsColumns(Candidate(nextId, req, now)) then Some(StorageRejected)
    else None
  }

  /**
   * Login: the first row whose username or email equals the identifier is
   * taken, and its stored password must equal the supplied one. Both ways of
   * failing give the same error; success reports the public fields of that
   * row with the constant token.
   */
  function Login(rows: seq<User>, req: UserLogin): (r: Result<LoginResponse, ApiError>)
    ensures r.Err? ==> r.error == InvalidCredentials
    ensures r.Err? ==> r.error.Status() == 401 && r.error.Detail() == Some("Invalid credentials")
    ensures r.Ok? <==> exists k :: FirstIdentified(rows, req.identifier, k) && rows[k].hashedPassword == req.password
    ensures forall k :: (FirstIdentified(rows, req.identifier, k) && rows[k].hashedPassword == req.password
                         ==> r == Ok(LoginResponse(AccessToken, TokenType, ToPublic(rows[k]))))
  {
    match Query.First(rows, u => Identifies(u, req.identifier))
    case None => Err(InvalidCredentials)
    case Some(k) =>
      if rows[k].hashedPassword != req.password then Err(InvalidCredentials)
      else Ok(LoginResponse(AccessToken, TokenType, ToPublic(rows[k])))
  }

  /** Inserting an admitted row keeps every invariant of the table. */
  lemma AdmittedKeepsTableValid(rows: seq<User>, nextId: int, req: UserCreate, now: Timestamp)
    requires TableValid(rows, nextId)
    requires Rejection(rows, nextId, req, now).None?
    ensures TableValid(rows + [Candidate(nextId, req, now)], nextId + 1)
  {
  }

  /** The `users` table behind a database session. */
  class UserTable {
    var rows: seq<User>
    /** The value the auto-increment counter hands to the next insert. */
    var nextId: int

    predicate Valid()
      reads this
    {
      TableValid(rows, nextId)
    }

    constructor ()
      ensures Valid() && rows == [] && nextId == 1
    {
      rows := [];
      nextId := 1;
    }

    /**
     * POST /auth/register. On every error the table is unchanged; on success
     * exactly one row, the candidate, is appended and returned.
     */
    method Register(req: UserCreate, now: Timestamp) returns (r: Result<UserResponse, ApiError>)
      requires Valid()
      modifies this
      ensures Valid()
      ensures r.Err? <==> Rejection(old(rows), old(nextId), req, now).Some?
      ensures r.Err? ==> Some(r.error) == Rejection(old(rows), old(nextId), req, now)
      ensures r.Err? ==> rows == old(rows) && nextId == old(nextId)
      ensures r.Ok? ==> && rows == old(rows) + [Candidate(old(nextId), req, now)]
                        && nextId == old(nextId) + 1
                        && r.value == ToResponse(Candidate(old(nextId), req, now))
    {
      var violations := CreateViolations(req);
      if violations != [] {
        return Err(InvalidRequest(violations));
      }
      var existing := Query.First(rows, u => Conflicts(u, req.email, req.username));
      if existing.Some? {
        return Err(DuplicateAccount);
      }
      if req.password != req.confirmPassword {
        return Err(PasswordMismatch);
      }
      var user := Candidate(nextId, req, now);
      if !FitsColumns(user) {
        return Err(StorageRejected);
      }
      AdmittedKeepsTableValid(rows, nextId, req, now);
      rows := rows + [user];
      nextId := nextId + 1;
      return Ok(ToResponse(user));
    }
  }
}
