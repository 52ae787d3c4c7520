/** The SQL-backed auth repository: accounts are rows of the `users` table,
    the identifier is the e-mail column. `open` says whether the repository's
    connection is (or can be) opened; `insertOk` says whether the `INSERT`
    the operation may issue succeeds. */
module AuthRepository {
  import opened Options
  import opened Store

  datatype Repository = Repository(open: bool, users: seq<User>)

  /** What a successful lookup or sign-up hands back. */
  datatype AuthUser = AuthUser(identifier: string, role: string)

  /** The identifier reserved for the seeded administrator. */
  const AdminIdentifier := "admin"

  predicate HasIdentifier(users: seq<User>, identifier: string) {
    exists i :: 0 <= i < |users| && users[i].email == identifier
  }

  /** `users` with one more row, numbered after the last. */
  function AddUser(users: seq<User>, identifier: string, password: string, role: string): (r: seq<User>)
    ensures UserIds(users) ==> UserIds(r)
    ensures |r| == |users| + 1 && r[..|users|] == users
    ensures r[|users|] == User(|users| + 1, identifier, password, role)
  {
    users + [User(|users| + 1, identifier, password, role)]
  }

  /** `findUser`: the role of the first account whose e-mail and password
      both match exactly. */
  function FindUser(repo: Repository, identifier: string, password: string): (r: Option<AuthUser>)
    ensures r.Some? ==>
              repo.open && r.value.identifier == identifier
              && exists i :: (0 <= i < |repo.users| && repo.users[i].email == identifier
                              && repo.users[i].password == password && repo.users[i].role == r.value.role)
    ensures r.None? <==>
              !repo.open
              || forall i :: 0 <= i < |repo.users| ==> repo.users[i].email != identifier || repo.users[i].password != password
  {
    if !repo.open then None
    else match FirstIndex(repo.users, (u: User) => u.email == identifier && u.password == password)
      case None => None
      case Some(i) => Some(AuthUser(identifier, repo.users[i].role))
  }

  /** `createUser`: refuses when closed, for the reserved identifier and for
      an identifier already present; otherwise inserts a row with role
      "user". */
  function CreateUser(repo: Repository, identifier: string, password: string, insertOk: bool)
    : (r: (Option<AuthUser>, Repository))
    ensures r.0.Some? <==>
              repo.open && identifier != AdminIdentifier && !HasIdentifier(repo.users, identifier) && insertOk
    ensures r.0.Some? ==>
              r.0.value == AuthUser(identifier, "user")
              && r.1 == repo.(users := AddUser(repo.users, identifier, password, "user"))
    ensures r.0.None? ==> r.1 == repo
  {
    if !repo.open || identifier == AdminIdentifier then (None, repo)
    else match FirstIndex(repo.users, (u: User) => u.email == identifier)
      case Some(_) => (None, repo)
      case None =>
        if insertOk then (Some(AuthUser(identifier, "user")), repo.(users := AddUser(repo.users, identifier, password, "user")))
        else (None, repo)
  }

  /** `ensureAdminUser`: true when the identifier is present already or was
      inserted with role "admin". */
  function EnsureAdminUser(repo: Repository, identifier: string, password: string, insertOk: bool)
    : (r: (bool, Repository))
    ensures r.0 <==> repo.open && (HasIdentifier(repo.users, identifier) || insertOk)
    ensures r.1 != repo <==> repo.open && !HasIdentifier(repo.users, identifier) && insertOk
    ensures r.1 != repo ==> r.1 == repo.(users := AddUser(repo.users, identifier, password, "admin"))
  {
    if !repo.open then (false, repo)
    else match FirstIndex(repo.users, (u: User) => u.email == identifier)
      case Some(_) => (true, repo)
      case None =>
        if insertOk then (true, repo.(users := AddUser(repo.users, identifier, password, "admin")))
        else (false, repo)
  }

  /** An account just created can log in with the same credentials, and it
      logs in as "user". */
  lemma SignUpThenLogIn(repo: Repository, identifier: string, password: string)
    requires CreateUser(repo, identifier, password, true).0.Some?
    ensures FindUser(CreateUser(repo, identifier, password, true).1, identifier, password)
            == Some(AuthUser(identifier, "user"))
  {
    var users' := CreateUser(repo, identifier, password, true).1.users;
    var n := |repo.users|;
    var p := (u: User) => u.email == identifier && u.password == password;
    assert users'[n] == User(n + 1, identifier, password, "user");
    assert forall i :: 0 <= i < n ==> users'[i] == repo.users[i] && users'[i].email != identifier;
    var hit := FirstIndex(users', p);
    assert hit.Some?;
    assert hit.value == n;
  }

  /** Sign-up never creates a second account for an identifier, so every
      identifier names at most one account. */
  predicate UniqueIdentifiers(users: seq<User>) {
    forall i, j :: 0 <= i < j < |users| ==> users[i].email != users[j].email
  }

  lemma CreateUserKeepsIdentifiersUnique(repo: Repository, identifier: string, password: string, insertOk: bool)
    requires UniqueIdentifiers(repo.users)
    ensures UniqueIdentifiers(CreateUser(repo, identifier, password, insertOk).1.users)
  {
  }

  lemma EnsureAdminKeepsIdentifiersUnique(repo: Repository, identifier: string, password: string, insertOk: bool)
    requires UniqueIdentifiers(repo.users)
    ensures UniqueIdentifiers(EnsureAdminUser(repo, identifier, password, insertOk).1.users)
    ensures EnsureAdminUser(repo, identifier, password, insertOk).0 ==>
            HasIdentifier(EnsureAdminUser(repo, identifier, password, insertOk).1.users, identifier)
  {
    var r := EnsureAdminUser(repo, identifier, password, insertOk);
    if r.0 && !HasIdentifier(repo.users, identifier) {
      assert r.1.users[|repo.users|].email == identifier;
    }
  }
}
