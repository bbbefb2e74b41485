/** Login, registration and the admin's user management (elearning/accounts/views.py). */
module AccountsViews {
  import opened Wrappers
  import opened Tables
  import opened Routes
  import opened AccountsModels
  import opened PaymentsModels
  import opened Store

  // ----- login -----

  datatype LoginError = InvalidCredentials | AccountSuspended

  datatype LoginOutcome =
    | AlreadyLoggedIn             // redirected home
    | LoginForm(error: Option<LoginError>)
    | LoggedIn(to: Route)

  /** The dashboard a user lands on after logging in. */
  function DashboardOf(u: User): (r: Route)
    ensures u.IsAdmin() ==> r == AdminDashboard
    ensures u.IsTutor() ==> r == TutorDashboard
    ensures !u.IsAdmin() && !u.IsTutor() ==> r == StudentDashboard
  {
    if u.IsAdmin() then AdminDashboard
    else if u.IsTutor() then TutorDashboard
    else StudentDashboard
  }

  /** `login_view`. `authenticated` is what the credential check returned for a POST (`None`
      when the credentials are wrong). A suspended user is never logged in. */
  function LoginView(alreadyLoggedIn: bool, isPost: bool, authenticated: Option<User>): (o: LoginOutcome)
    ensures alreadyLoggedIn ==> o == AlreadyLoggedIn
    ensures o.LoggedIn? <==> !alreadyLoggedIn && isPost && authenticated.Some? && !authenticated.value.isSuspended
    ensures o.LoggedIn? ==> o.to == DashboardOf(authenticated.value)
    ensures !alreadyLoggedIn && isPost && authenticated.Some? && authenticated.value.isSuspended ==>
      o == LoginForm(Some(AccountSuspended))
    ensures !alreadyLoggedIn && isPost && authenticated.None? ==> o == LoginForm(Some(InvalidCredentials))
    ensures !alreadyLoggedIn && !isPost ==> o == LoginForm(None)
  {
    if alreadyLoggedIn then AlreadyLoggedIn
    else if !isPost then LoginForm(None)
    else match authenticated
      case None => LoginForm(Some(InvalidCredentials))
      case Some(u) => if u.isSuspended then LoginForm(Some(AccountSuspended)) else LoggedIn(DashboardOf(u))
  }

  // ----- registration and tutor creation -----

  datatype AccountError = InvalidRole | PasswordMismatch | UsernameTaken | EmailTaken

  predicate UsernameInUse(users: map<Id, User>, username: string)
  {
    exists k :: k in users && users[k].username == username
  }

  predicate EmailInUse(users: map<Id, User>, email: string)
  {
    exists k :: k in users && users[k].email == email
  }

  /** The two lookups shared by registration and tutor creation: username first, then email. */
  function AccountCheck(users: map<Id, User>, username: string, email: string): (r: Option<AccountError>)
    ensures r.None? <==> !UsernameInUse(users, username) && !EmailInUse(users, email)
    ensures r == Some(UsernameTaken) <==> UsernameInUse(users, username)
    ensures r == Some(EmailTaken) <==> !UsernameInUse(users, username) && EmailInUse(users, email)
  {
    if UsernameInUse(users, username) then Some(UsernameTaken)
    else if EmailInUse(users, email) then Some(EmailTaken)
    else None
  }

  datatype RegistrationForm = RegistrationForm(
    username: string, email: string, password: string, passwordConfirm: string, role: Option<string>)

  /** The role text of the form; a form without one asks for a student account. */
  function RequestedRole(f: RegistrationForm): string
  {
    if f.role.Some? then f.role.value else RoleName(Student)
  }

  /** The only roles one may register for. */
  predicate SelfServiceRole(text: string)
  {
    text == RoleName(Student) || text == RoleName(Tutor)
  }

  /** `register_view`'s validation chain: role, then password confirmation, then username, then
      email; the first failure is the one reported. */
  function RegistrationError(users: map<Id, User>, f: RegistrationForm): (r: Option<AccountError>)
    ensures r == Some(InvalidRole) <==> !SelfServiceRole(RequestedRole(f))
    ensures r == Some(PasswordMismatch) <==> SelfServiceRole(RequestedRole(f)) && f.password != f.passwordConfirm
    ensures r.Some? && r.value in {UsernameTaken, EmailTaken} ==>
      SelfServiceRole(RequestedRole(f)) && f.password == f.passwordConfirm
    ensures r.None? <==>
      SelfServiceRole(RequestedRole(f)) && f.password == f.passwordConfirm
      && !UsernameInUse(users, f.username) && !EmailInUse(users, f.email)
  {
    if !SelfServiceRole(RequestedRole(f)) then Some(InvalidRole)
    else if f.password != f.passwordConfirm then Some(PasswordMismatch)
    else AccountCheck(users, f.username, f.email)
  }

  /** A registration that passes the checks asks for a student or tutor account, never an admin. */
  lemma RegistrationRoleIsNotAdmin(users: map<Id, User>, f: RegistrationForm)
    requires RegistrationError(users, f).None?
    ensures ParseRole(RequestedRole(f)).Some?
    ensures ParseRole(RequestedRole(f)).value in {Student, Tutor}
  {
  }

  /** Adding a user whose username nobody holds keeps usernames unique. */
  lemma AddingCheckedUserKeepsUsernamesUnique(users: map<Id, User>, id: Id, u: User)
    requires UsernamesUnique(users) && id !in users
    requires !UsernameInUse(users, u.username)
    ensures UsernamesUnique(users[id := u])
  {
    var users' := users[id := u];
    forall a, b | a in users' && b in users' && a != b
      ensures UsernameOf(users', a) != UsernameOf(users', b)
    {
      if a != id && b != id {
        assert UsernameOf(users', a) == UsernameOf(users, a);
        assert UsernameOf(users', b) == UsernameOf(users, b);
      }
    }
  }

  /** `create_user` fails after the view's own checks passed: the username is empty (the manager
      raises), or its normalised form is taken (the insert clashes with the unique username). The
      view's checks compare the submitted text, the store holds the normalised one. */
  predicate CreateFails(users: map<Id, User>, username: string, normalizeUsername: string -> string)
  {
    username == "" || UsernameInUse(users, normalizeUsername(username))
  }

  datatype AccountOutcome =
    | SignedIn              // already logged in: redirected home
    | Rejected(error: AccountError)
    | CreateFailed          // `create_user` raised: a server error
    | Created(id: Id)

  /** `register_view` on a POST: the validation chain, then `create_user`. On success exactly one
      user is added, with the requested role and the normalised username and email; on any
      failure nothing changes. */
  method Register(db: Database, alreadyLoggedIn: bool, f: RegistrationForm,
                  normalizeUsername: string -> string, normalizeEmail: string -> string) returns (outcome: AccountOutcome)
    requires db.Valid()
    modifies db`accounts
    ensures db.Valid()
    ensures alreadyLoggedIn ==> outcome == SignedIn
    ensures !alreadyLoggedIn && RegistrationError(old(db.accounts.users), f).Some? ==>
      outcome == Rejected(RegistrationError(old(db.accounts.users), f).value)
    ensures outcome == CreateFailed <==>
      !alreadyLoggedIn && RegistrationError(old(db.accounts.users), f).None?
      && CreateFails(old(db.accounts.users), f.username, normalizeUsername)
    ensures outcome.Created? <==>
      !alreadyLoggedIn && RegistrationError(old(db.accounts.users), f).None?
      && !CreateFails(old(db.accounts.users), f.username, normalizeUsername)
    ensures !outcome.Created? ==> db.accounts == old(db.accounts)
    ensures outcome.Created? ==>
      && outcome.id == old(db.accounts.nextUserId) && outcome.id !in old(db.accounts.users)
      && db.accounts == old(db.accounts).(
           users := old(db.accounts.users)[outcome.id :=
             CreateUser(f.username, f.email, ParseRole(RequestedRole(f)).value, normalizeUsername, normalizeEmail).value],
           nextUserId := outcome.id + 1)
  {
    if alreadyLoggedIn {
      return SignedIn;
    }
    var error := RegistrationError(db.accounts.users, f);
    if error.Some? {
      return Rejected(error.value);
    }
    var created := CreateUser(f.username, f.email, ParseRole(RequestedRole(f)).value, normalizeUsername, normalizeEmail);
    if created.None? || UsernameInUse(db.accounts.users, created.value.username) {
      return CreateFailed;
    }
    var id := db.accounts.nextUserId;
    AddingCheckedUserKeepsUsernamesUnique(db.accounts.users, id, created.value);
    db.accounts := db.accounts.(users := db.accounts.users[id := created.value], nextUserId := id + 1);
    outcome := Created(id);
  }

  /** `admin_create_tutor` on a POST: the same username and email checks, then `create_user`;
      the new account is always a tutor. */
  method AdminCreateTutor(db: Database, username: string, email: string,
                          normalizeUsername: string -> string, normalizeEmail: string -> string) returns (outcome: AccountOutcome)
    requires db.Valid()
    modifies db`accounts
    ensures db.Valid()
    ensures AccountCheck(old(db.accounts.users), username, email).Some? ==>
      outcome == Rejected(AccountCheck(old(db.accounts.users), username, email).value)
    ensures outcome == CreateFailed <==>
      AccountCheck(old(db.accounts.users), username, email).None? && CreateFails(old(db.accounts.users), username, normalizeUsername)
    ensures outcome.Created? <==>
      AccountCheck(old(db.accounts.users), username, email).None? && !CreateFails(old(db.accounts.users), username, normalizeUsername)
    ensures !outcome.Created? ==> db.accounts == old(db.accounts)
    ensures outcome.Created? ==>
      && outcome.id == old(db.accounts.nextUserId) && outcome.id !in old(db.accounts.users)
      && db.accounts == old(db.accounts).(
           users := old(db.accounts.users)[outcome.id := CreateUser(username, email, Tutor, normalizeUsername, normalizeEmail).value],
           nextUserId := outcome.id + 1)
  {
    var error := AccountCheck(db.accounts.users, username, email);
    if error.Some? {
      return Rejected(error.value);
    }
    var created := CreateUser(username, email, Tutor, normalizeUsername, normalizeEmail);
    if created.None? || UsernameInUse(db.accounts.users, created.value.username) {
      return CreateFailed;
    }
    var id := db.accounts.nextUserId;
    AddingCheckedUserKeepsUsernamesUnique(db.accounts.users, id, created.value);
    db.accounts := db.accounts.(users := db.accounts.users[id := created.value], nextUserId := id + 1);
    outcome := Created(id);
  }

  // ----- user deletion -----

  datatype DeleteOutcome = UserNotFound | SelfDeletionRefused | Deleted

  /** `admin_delete_user`: an unknown id is a 404 (checked first); an admin cannot delete their
      own account; any other user is removed. */
  method AdminDeleteUser(db: Database, actor: Id, target: Id) returns (outcome: DeleteOutcome)
    requires db.Valid()
    modifies db`accounts
    ensures db.Valid()
    ensures outcome == UserNotFound <==> target !in old(db.accounts.users)
    ensures outcome == SelfDeletionRefused <==> target in old(db.accounts.users) && target == actor
    ensures outcome == Deleted <==> target in old(db.accounts.users) && target != actor
    ensures outcome == Deleted ==> db.accounts == old(db.accounts).(users := old(db.accounts.users) - {target})
    ensures outcome != Deleted ==> db.accounts == old(db.accounts)
  {
    if target !in db.accounts.users {
      return UserNotFound;
    }
    if target == actor {
      return SelfDeletionRefused;
    }
    RemovingUserKeepsUsernamesUnique(db.accounts.users, target);
    db.accounts := db.accounts.(users := db.accounts.users - {target});
    outcome := Deleted;
  }

  // ----- revenue -----

  /** A purchase's contribution to the revenue figure: its amount once completed. */
  function CompletedAmount(k: Id, p: Purchase): int
  {
    if p.status == Completed then p.amount else 0
  }

  /** `admin_dashboard`'s total revenue: the sum of the amounts of the completed purchases. */
  function Revenue(purchases: map<Id, Purchase>, next: Id): int
  {
    SumBelow(purchases, next, CompletedAmount)
  }

  /** With no completed purchase the revenue is 0; with non-negative amounts it is never negative. */
  lemma RevenueBounds(purchases: map<Id, Purchase>, next: Id)
    ensures (forall k :: k in purchases ==> purchases[k].status != Completed) ==> Revenue(purchases, next) == 0
    ensures (forall k :: k in purchases ==> purchases[k].amount >= 0) ==> Revenue(purchases, next) >= 0
  {
    if forall k :: k in purchases ==> purchases[k].status != Completed {
      SumBelowZero(purchases, next, CompletedAmount);
    }
    if forall k :: k in purchases ==> purchases[k].amount >= 0 {
      SumBelowNonneg(purchases, next, CompletedAmount);
    }
  }

  /** Marking a purchase completed adds its amount to the revenue, unless it was already
      completed, in which case the revenue is unchanged. */
  lemma RevenueOnCompletion(purchases: map<Id, Purchase>, next: Id, k: Id)
    requires k in purchases && k < next
    ensures Revenue(purchases[k := purchases[k].(status := Completed)], next)
         == Revenue(purchases, next) + (if purchases[k].status == Completed then 0 else purchases[k].amount)
  {
    SumBelowUpdate(purchases, next, k, purchases[k].(status := Completed), CompletedAmount);
  }

  /** A new pending purchase does not change the revenue. */
  lemma RevenueIgnoresPendingPurchase(purchases: map<Id, Purchase>, next: Id, p: Purchase)
    requires KeysBelow(purchases, next) && p.status == Pending
    ensures Revenue(purchases[next := p], next + 1) == Revenue(purchases, next)
  {
    SumBelowFrame(purchases, purchases[next := p], next, CompletedAmount);
  }
}
