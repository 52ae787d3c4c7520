/** The authentication decision ladder: two input checks, then a wired
    repository, then sign-up or log-in against it. The repository is
    threaded as a value because sign-up may add an account to it. */
module Auth {
  import opened Options
  import opened Text
  import opened AuthRepository

  datatype AuthResult = AuthResult(success: bool, message: string, role: string)

  /** The blank check: empty, or only C-locale white space. */
  predicate IsEmpty(value: string) {
    forall i :: 0 <= i < |value| ==> IsCSpace(value[i])
  }

  /** What the service calls empty, `QString::trimmed` empties too; a lone
      no-break space is blank to Qt but not empty to the service. */
  lemma EmptyIsQtBlank(value: string)
    ensures IsEmpty(value) ==> IsQtBlank(value) && Trim(value) == []
    ensures var nbsp := "\U{00A0}"; IsQtBlank(nbsp) && Trim(nbsp) == [] && !IsEmpty(nbsp)
  {
  }

  const FieldsRequired := "Please fill in all required fields."
  const PasswordsMismatch := "Passwords do not match."
  const BackendUnavailable := "Auth backend unavailable."
  const CreateFailed := "Unable to create account."
  const AccountCreated := "Account created."
  const InvalidCredentials := "Invalid credentials."

  function Failure(message: string): AuthResult {
    AuthResult(false, message, "")
  }

  /** `authenticate`; `repo` is None when no repository is wired, and the
      second component is the repository afterwards. The `role` argument is
      accepted and ignored. */
  function Authenticate(mode: string, role: string, identifier: string, password: string,
                        confirmPassword: string, repo: Option<Repository>, insertOk: bool)
    : (r: (AuthResult, Option<Repository>))
    ensures IsEmpty(identifier) || IsEmpty(password) ==> r == (Failure(FieldsRequired), repo)
    ensures !IsEmpty(identifier) && !IsEmpty(password) && mode == "signup" && password != confirmPassword
            ==> r == (Failure(PasswordsMismatch), repo)
    ensures r.1.Some? <==> repo.Some?
    ensures !r.0.success ==> r.0.role == ""
    ensures r.0.success ==> repo.Some? && !IsEmpty(identifier) && !IsEmpty(password)
  {
    if IsEmpty(identifier) || IsEmpty(password) then (Failure(FieldsRequired), repo)
    else if mode == "signup" && password != confirmPassword then (Failure(PasswordsMismatch), repo)
    else if repo.None? then (Failure(BackendUnavailable), repo)
    else if mode == "signup" then
      var (created, repo') := CreateUser(repo.value, identifier, password, insertOk);
      if created.None? then (Failure(CreateFailed), Some(repo'))
      else (AuthResult(true, AccountCreated, created.value.role), Some(repo'))
    else
      match FindUser(repo.value, identifier, password)
      case None => (Failure(InvalidCredentials), repo)
      case Some(user) => (AuthResult(true, "Authenticated as " + user.role, user.role), repo)
  }

  /** The fields that pass both input checks. */
  predicate InputsValid(mode: string, identifier: string, password: string, confirmPassword: string) {
    !IsEmpty(identifier) && !IsEmpty(password) && (mode == "signup" ==> password == confirmPassword)
  }

  /** Without a repository, valid inputs fail with "Auth backend unavailable."
      and invalid ones with their own message first. */
  lemma NoRepository(mode: string, role: string, identifier: string, password: string,
                     confirmPassword: string, insertOk: bool)
    ensures var r := Authenticate(mode, role, identifier, password, confirmPassword, None, insertOk);
            !r.0.success && r.1 == None
            && (r.0.message == BackendUnavailable <==> InputsValid(mode, identifier, password, confirmPassword))
  {
  }

  /** Sign-up with valid inputs is exactly the repository's `createUser`. */
  lemma SignUpDelegates(role: string, identifier: string, password: string, repo: Repository, insertOk: bool)
    requires InputsValid("signup", identifier, password, password)
    ensures var r := Authenticate("signup", role, identifier, password, password, Some(repo), insertOk);
            var c := CreateUser(repo, identifier, password, insertOk);
            r.1 == Some(c.1)
            && (c.0.None? ==> r.0 == Failure(CreateFailed))
            && (c.0.Some? ==> r.0 == AuthResult(true, AccountCreated, c.0.value.role))
  {
  }

  /** Any mode other than "signup" is a log-in through `findUser`, which never
      changes the repository. */
  lemma LogInDelegates(mode: string, role: string, identifier: string, password: string,
                       confirmPassword: string, repo: Repository, insertOk: bool)
    requires mode != "signup" && !IsEmpty(identifier) && !IsEmpty(password)
    ensures var r := Authenticate(mode, role, identifier, password, confirmPassword, Some(repo), insertOk);
            var f := FindUser(repo, identifier, password);
            r.1 == Some(repo)
            && (f.None? ==> r.0 == Failure(InvalidCredentials))
            && (f.Some? ==> r.0 == AuthResult(true, "Authenticated as " + f.value.role, f.value.role))
  {
  }

  /** The `role` argument never affects the outcome. */
  lemma RoleIgnored(mode: string, role1: string, role2: string, identifier: string, password: string,
                    confirmPassword: string, repo: Option<Repository>, insertOk: bool)
    ensures Authenticate(mode, role1, identifier, password, confirmPassword, repo, insertOk)
         == Authenticate(mode, role2, identifier, password, confirmPassword, repo, insertOk)
  {
  }

  /** Signing up as "admin" never succeeds, so the seeded administrator
      cannot be shadowed. */
  lemma AdminSignUpRefused(role: string, password: string, confirmPassword: string,
                           repo: Option<Repository>, insertOk: bool)
    ensures var r := Authenticate("signup", role, AdminIdentifier, password, confirmPassword, repo, insertOk);
            !r.0.success && r.1 == repo
  {
  }

  /** Log-in succeeds exactly when the repository is wired and open and holds
      an account with that identifier and password. */
  lemma LogInSucceedsIff(mode: string, role: string, identifier: string, password: string,
                         confirmPassword: string, repo: Option<Repository>, insertOk: bool)
    requires mode != "signup"
    ensures Authenticate(mode, role, identifier, password, confirmPassword, repo, insertOk).0.success
            <==> !IsEmpty(identifier) && !IsEmpty(password) && repo.Some? && repo.value.open
                 && exists i :: (0 <= i < |repo.value.users| && repo.value.users[i].email == identifier
                                 && repo.value.users[i].password == password)
  {
  }

  /** A successful sign-up is followed by a successful log-in with the same
      credentials, as "user". */
  lemma SignUpThenAuthenticate(identifier: string, password: string, repo: Repository)
    requires Authenticate("signup", "", identifier, password, password, Some(repo), true).0.success
    ensures var repo' := Authenticate("signup", "", identifier, password, password, Some(repo), true).1;
            Authenticate("login", "", identifier, password, "", repo', true).0
            == AuthResult(true, "Authenticated as user", "user")
  {
    SignUpThenLogIn(repo, identifier, password);
  }
}
