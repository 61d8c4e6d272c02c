/** Access control and credentials: the two route guards, which answer a
    request with pass, 401 Unauthorized or 403 Forbidden, and the user-table
    rules for logging in and registering. Password hashing is outside the
    model: registration receives the hash already computed, and login receives
    the hash comparison as a function. */
module Auth {
  import opened Common
  import opened Schema

  /** What a login stores in the session: the user's id, login and role. */
  datatype SessionUser = SessionUser(id: int, login: string, role: Role)

  /** The outcome of a guard. `json` says whether the request accepts JSON:
      then a denial is a 401/403 JSON error; otherwise Unauthorized is a
      redirect to the login page and Forbidden renders the 403 page. */
  datatype Verdict = Pass | Unauthorized(json: bool) | Forbidden(json: bool)

  /** The argument of `ensureRole`: an array of roles, or one role value. */
  datatype Guard = AnyOf(roles: seq<Role>) | Exactly(role: Role)

  /** `Array.prototype.includes`, a left-to-right scan. */
  function Includes(roles: seq<Role>, r: Role): bool
  {
    if roles == [] then false else roles[0] == r || Includes(roles[1..], r)
  }

  /** Whether the guard admits a role: array membership, or strict equality
      with a single value. */
  function Admits(g: Guard, r: Role): bool
  {
    match g
    case AnyOf(roles) => Includes(roles, r)
    case Exactly(role) => role == r
  }

  /** `ensureAuthenticated`: passes exactly when the session holds a user,
      and otherwise always answers 401 (or the login redirect), never 403. */
  function EnsureAuthenticated(user: Option<SessionUser>, acceptsJson: bool): (v: Verdict)
    ensures v == Pass <==> user.Some?
    ensures v != Pass ==> v == Unauthorized(acceptsJson)
  {
    if user.Some? then Pass else Unauthorized(acceptsJson)
  }

  /** `ensureRole(roles)`: passes exactly when a user is signed in and the
      guard admits their role. Without a user the answer is 401 (or the login
      redirect), never 403; a signed-in user whose role is not admitted gets
      403. */
  function EnsureRole(g: Guard, user: Option<SessionUser>, acceptsJson: bool): (v: Verdict)
    ensures v == Pass <==> user.Some? && Admits(g, user.value.role)
    ensures user.None? ==> v == Unauthorized(acceptsJson)
    ensures user.Some? && v != Pass ==> v == Forbidden(acceptsJson)
  {
    if user.None? then Unauthorized(acceptsJson)
    else if Admits(g, user.value.role) then Pass
    else Forbidden(acceptsJson)
  }

  /** The scan finds a role exactly when it is a member of the array. */
  lemma {:induction false} IncludesIsMembership(roles: seq<Role>, r: Role)
    ensures Includes(roles, r) <==> r in roles
  {
    if roles != [] {
      IncludesIsMembership(roles[1..], r);
      assert roles == [roles[0]] + roles[1..];
    }
  }

  /** With a session user, an array guard passes exactly when the user's role
      is in the array, and otherwise answers 403. */
  lemma RoleGuardIsMembership(roles: seq<Role>, u: SessionUser, acceptsJson: bool)
    ensures EnsureRole(AnyOf(roles), Some(u), acceptsJson) == Pass <==> u.role in roles
    ensures u.role !in roles ==> EnsureRole(AnyOf(roles), Some(u), acceptsJson) == Forbidden(acceptsJson)
  {
    IncludesIsMembership(roles, u.role);
  }

  /** With a session user, a single-value guard passes exactly when the role
      is that value, and otherwise answers 403. */
  lemma SingleRoleGuard(role: Role, u: SessionUser, acceptsJson: bool)
    ensures EnsureRole(Exactly(role), Some(u), acceptsJson) == Pass <==> u.role == role
    ensures u.role != role ==> EnsureRole(Exactly(role), Some(u), acceptsJson) == Forbidden(acceptsJson)
  {
  }

  /** Roles form no hierarchy: a guard that lists only `client` turns away an
      admin (and a worker) with 403. */
  lemma NoRoleHierarchy(u: SessionUser, acceptsJson: bool)
    requires u.role != Client
    ensures EnsureRole(AnyOf([Client]), Some(u), acceptsJson) == Forbidden(acceptsJson)
  {
    RoleGuardIsMembership([Client], u, acceptsJson);
  }

  /** A role guard listing all three roles decides exactly as `ensureAuthenticated`. */
  lemma AllRolesGuardIsAuthentication(user: Option<SessionUser>, acceptsJson: bool)
    ensures EnsureRole(AnyOf([Admin, Worker, Client]), user, acceptsJson)
         == EnsureAuthenticated(user, acceptsJson)
  {
    if user.Some? {
      RoleGuardIsMembership([Admin, Worker, Client], user.value, acceptsJson);
    }
  }

  /** `SELECT * FROM users WHERE login = ?`: the position of a row with the
      login, or None exactly when no row has it. */
  function FindLogin(users: seq<Row<User>>, login: string): (r: Option<nat>)
    ensures r.Some? ==> r.value < |users| && users[r.value].data.login == login
    ensures r.None? <==> !LoginTaken(users, login)
  {
    FirstWhere(users, (r: Row<User>) => r.data.login == login)
  }

  /** Whether some user row carries the login. */
  ghost predicate LoginTaken(users: seq<Row<User>>, login: string)
  {
    exists k :: 0 <= k < |users| && users[k].data.login == login
  }

  /** `loginUser`: `verify` stands for the hash comparison. The result is None
      when no user has the login or the password does not match its hash;
      otherwise it is that user's id, login and role. */
  method LoginUser(db: Store, login: string, password: string, verify: (string, Hash) -> bool)
    returns (u: Option<SessionUser>)
    requires db.Valid()
    ensures u.None? <==> forall k :: 0 <= k < |db.users| && db.users[k].data.login == login ==>
                                        !verify(password, db.users[k].data.passwordHash)
    ensures u.Some? ==> exists k :: 0 <= k < |db.users| && db.users[k].data.login == login
                                 && verify(password, db.users[k].data.passwordHash)
                                 && u.value == SessionUser(db.users[k].id, login, db.users[k].data.role)
  {
    var found := FindLogin(db.users, login);
    if found.None? {
      return None;
    }
    var row := db.users[found.value];
    if !verify(password, row.data.passwordHash) {
      return None;
    }
    return Some(SessionUser(row.id, row.data.login, row.data.role));
  }

  /** Why registration throws. */
  datatype RegisterError =
    | UserExists        // the login is taken
    | RoleRejected      // the role text fails the CHECK constraint

  /** `registerUser`: `passwordHash` is the output of hashing the password.
      A taken login throws before anything is written; a role outside the
      three throws at the INSERT; otherwise exactly one user row is appended
      under the next id and that user is returned. */
  method RegisterUser(db: Store, login: string, passwordHash: Hash, role: string)
    returns (r: Result<SessionUser, RegisterError>)
    requires db.Valid()
    modifies db`users, db`lastUserId
    ensures db.Valid()
    ensures LoginTaken(old(db.users), login) ==> r == Err(UserExists) && unchanged(db)
    ensures !LoginTaken(old(db.users), login) && ParseRole(role).None? ==>
              r == Err(RoleRejected) && unchanged(db)
    ensures !LoginTaken(old(db.users), login) && ParseRole(role).Some? ==>
              && r == Ok(SessionUser(old(db.lastUserId) + 1, login, ParseRole(role).value))
              && r.value.id !in Ids(old(db.users))
              && db.users == old(db.users) + [Row(r.value.id, User(login, passwordHash, r.value.role))]
              && db.lastUserId == r.value.id
  {
    var existing := FindLogin(db.users, login);
    if existing.Some? {
      return Err(UserExists);
    }
    var parsed := ParseRole(role);
    if parsed.None? {
      return Err(RoleRejected);
    }
    var id := db.lastUserId + 1;
    IdsAppend(db.users, Row(id, User(login, passwordHash, parsed.value)));
    db.users := db.users + [Row(id, User(login, passwordHash, parsed.value))];
    db.lastUserId := id;
    return Ok(SessionUser(id, login, parsed.value));
  }
}
