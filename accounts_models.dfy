/** Users, their roles and their login sessions (elearning/accounts/models.py). */
module AccountsModels {
  import opened Wrappers
  import opened Tables

  /** `User.role`, a choice among three. */
  datatype Role = Admin | Tutor | Student

  /** A user created without an explicit role is a student. */
  const DefaultRole: Role := Student

  /** The text the store keeps for a role. */
  function RoleName(r: Role): string
  {
    match r
    case Admin => "admin"
    case Tutor => "tutor"
    case Student => "student"
  }

  /** Reads a role back from its text; any other text names no role. */
  function ParseRole(s: string): (r: Option<Role>)
    ensures r.Some? ==> RoleName(r.value) == s
    ensures r.None? ==> forall role: Role :: RoleName(role) != s
  {
    if s == "admin" then Some(Admin)
    else if s == "tutor" then Some(Tutor)
    else if s == "student" then Some(Student)
    else None
  }

  lemma ParseRoleName(r: Role)
    ensures ParseRole(RoleName(r)) == Some(r)
  {
  }

  /** The columns of a user that the core reads or writes. */
  datatype User = User(username: string, email: string, role: Role, isSuspended: bool)
  {
    predicate IsAdmin() { role == Admin }
    predicate IsTutor() { role == Tutor }
    predicate IsStudent() { role == Student }
  }

  /** A freshly created user: the given role, and not suspended. */
  function NewUser(username: string, email: string, role: Role): (u: User)
    ensures u.username == username && u.email == email && u.role == role
    ensures !u.isSuspended
  {
    User(username, email, role, false)
  }

  /** `create_user`, the framework's default user manager: an empty username is refused with an
      error before anything is written; otherwise the new row holds the username and the email as
      the manager normalises them, the given role, and is not suspended. */
  function CreateUser(username: string, email: string, role: Role,
                      normalizeUsername: string -> string, normalizeEmail: string -> string): (r: Option<User>)
    ensures r.None? <==> username == ""
    ensures r.Some? ==> r.value.username == normalizeUsername(username) && r.value.email == normalizeEmail(email)
    ensures r.Some? ==> r.value.role == role && !r.value.isSuspended
  {
    if username == "" then None
    else Some(NewUser(normalizeUsername(username), normalizeEmail(email), role))
  }

  /** Exactly one of the three role predicates holds of every user. */
  lemma ExactlyOneRole(u: User)
    ensures u.IsAdmin() || u.IsTutor() || u.IsStudent()
    ensures !(u.IsAdmin() && u.IsTutor()) && !(u.IsAdmin() && u.IsStudent()) && !(u.IsTutor() && u.IsStudent())
  {
  }

  /** A `UserSession` row; the table is keyed by its unique `session_key`. */
  datatype UserSession = UserSession(user: Id, deviceInfo: string, ipAddress: Option<string>, isActive: bool)

  /** A freshly recorded session is active. */
  function NewUserSession(user: Id, deviceInfo: string, ipAddress: Option<string>): (s: UserSession)
    ensures s.user == user && s.deviceInfo == deviceInfo && s.ipAddress == ipAddress
    ensures s.isActive
  {
    UserSession(user, deviceInfo, ipAddress, true)
  }

  /** Usernames are unique (the framework's user table enforces it). */
  predicate UsernamesUnique(users: map<Id, User>)
  {
    forall a, b {:trigger UsernameOf(users, a), UsernameOf(users, b)} ::
      a in users && b in users && a != b ==> UsernameOf(users, a) != UsernameOf(users, b)
  }

  /** The username of the user stored under `k`. */
  function UsernameOf(users: map<Id, User>, k: Id): string
    requires k in users
  {
    users[k].username
  }

  /** Removing a user keeps the remaining usernames unique. */
  lemma RemovingUserKeepsUsernamesUnique(users: map<Id, User>, id: Id)
    requires UsernamesUnique(users)
    ensures UsernamesUnique(users - {id})
  {
    var users' := users - {id};
    forall a, b | a in users' && b in users' && a != b
      ensures UsernameOf(users', a) != UsernameOf(users', b)
    {
      assert UsernameOf(users', a) == UsernameOf(users, a);
      assert UsernameOf(users', b) == UsernameOf(users, b);
    }
  }
}
