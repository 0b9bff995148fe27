/**
 * LoginActivity: an existing session skips the screen; otherwise the login
 * button runs its ordered checks and, on success, starts a session.
 */
module Login {
  import opened Wrappers
  import JavaText
  import PasswordUtil
  import Session
  import opened UserStore
  import Register

  datatype LoginScreen = GoToMain | ShowLoginForm

  datatype LoginResult =
    | FillAllFields
    | UserNotFound
    | InvalidCredentials
    | HashFailed(error: PasswordUtil.HexError)   // the RuntimeException hashPassword rethrows
    | LoggedInAs(userId: int, username: string)

  /** onCreate: with a session present the activity goes straight to the main screen. */
  method OnCreate(session: Session.SessionManager) returns (screen: LoginScreen)
    ensures screen == GoToMain <==> Session.LoggedIn(session.prefs)
  {
    if session.IsLoggedIn() {
      return GoToMain;
    }
    return ShowLoginForm;
  }

  /**
   * The handler's decision: empty fields, then an unknown name, then a hash
   * that differs from the stored one. The username is trimmed and looked up
   * exactly; the password is hashed as typed with the stored salt.
   */
  function LoginVerdict(digest: PasswordUtil.Digest, rows: seq<UserRow>, usernameInput: string, password: string)
    : LoginResult
  {
    var u := JavaText.Trim(usernameInput);
    if u == "" || password == "" then FillAllFields
    else match Find(rows, u)
      case None => UserNotFound
      case Some(row) => CheckPassword(digest, row, password)
  }

  /** The last check, on the row found: the password hashed with its salt against its stored hash. */
  function CheckPassword(digest: PasswordUtil.Digest, row: UserRow, password: string): (r: LoginResult)
    ensures r != FillAllFields && r != UserNotFound
    ensures r.HashFailed? <==> |row.salt| % 2 == 1
  {
    match PasswordUtil.HashHex(digest, password, row.salt)
    case Failure(e) => HashFailed(e)
    case Success(h) => if h != row.passwordHash then InvalidCredentials else LoggedInAs(UserId(row), row.username)
  }

  /** With every stored salt well formed, hashing never fails, so login gives no HashFailed. */
  lemma LoginNeverHashFails(digest: PasswordUtil.Digest, rows: seq<UserRow>, usernameInput: string, password: string)
    requires SaltsWellFormed(rows)
    ensures !LoginVerdict(digest, rows, usernameInput, password).HashFailed?
  {
    var u := JavaText.Trim(usernameInput);
    FoundSaltWellFormed(rows, u);
    if u != "" && password != "" && Find(rows, u).Some? {
      assert !CheckPassword(digest, Find(rows, u).value, password).HashFailed?;
    }
  }

  /**
   * The two refusals before hashing, each with the condition that selects it:
   * blank fields, then a name no row has.
   */
  lemma LoginRefusalsIff(digest: PasswordUtil.Digest, rows: seq<UserRow>, usernameInput: string, password: string)
    ensures var v := LoginVerdict(digest, rows, usernameInput, password);
      var u := JavaText.Trim(usernameInput);
      var blank := (forall i :: 0 <= i < |usernameInput| ==> JavaText.IsTrimmed(usernameInput[i])) || password == "";
      && (v == FillAllFields <==> blank)
      && (v == UserNotFound <==> !blank && forall i :: 0 <= i < |rows| ==> rows[i].username != u)
  {
    JavaText.TrimEmptyIff(usernameInput);
  }

  /**
   * Once a row is found, the password alone decides: a wrong password and an
   * unknown name are told apart, and success logs in as the stored row.
   */
  lemma LoginCredentialsIff(digest: PasswordUtil.Digest, rows: seq<UserRow>, usernameInput: string, password: string)
    requires SaltsWellFormed(rows)
    ensures var v := LoginVerdict(digest, rows, usernameInput, password);
      var u := JavaText.Trim(usernameInput);
      var found := Find(rows, u);
      var filled := u != "" && password != "";
      && (v == InvalidCredentials <==>
            filled && found.Some? && PasswordUtil.HashHex(digest, password, found.value.salt) != Success(found.value.passwordHash))
      && (v.LoggedInAs? <==>
            filled && found.Some? && PasswordUtil.HashHex(digest, password, found.value.salt) == Success(found.value.passwordHash))
      && (v.LoggedInAs? ==> v.username == u && v.userId == UserId(found.value))
  {
    LoginNeverHashFails(digest, rows, usernameInput, password);
  }

  /** Logging in right after registering with the same name and password succeeds, as the new user. */
  lemma RegisterThenLogin(rows: seq<UserRow>, rowId: int, usernameInput: string, password: string,
                          random: seq<PasswordUtil.JByte>, now: int, digest: PasswordUtil.Digest,
                          loginInput: string)
    requires Register.RegisterVerdict(rows, usernameInput, password, password) == Register.RegisteredSuccessfully
    requires JavaText.Trim(loginInput) == JavaText.Trim(usernameInput)
    ensures LoginVerdict(digest, rows + [Register.NewUser(rowId, usernameInput, password, random, now, digest)],
                         loginInput, password)
            == LoggedInAs(JavaText.ToInt32(rowId), JavaText.Trim(usernameInput))
  {
    var row := Register.NewUser(rowId, usernameInput, password, random, now, digest);
    FindAppended(rows, row);
    PasswordUtil.HashOfGeneratedSalt(digest, password, random);
  }

  /** With the same salt, a password whose digest differs from the registered one is refused. */
  lemma RegisterThenWrongPassword(rows: seq<UserRow>, rowId: int, usernameInput: string, password: string,
                                  random: seq<PasswordUtil.JByte>, now: int, digest: PasswordUtil.Digest,
                                  other: string)
    requires Register.RegisterVerdict(rows, usernameInput, password, password) == Register.RegisteredSuccessfully
    requires other != ""
    requires digest(random + PasswordUtil.Utf8(other)) != digest(random + PasswordUtil.Utf8(password))
    ensures LoginVerdict(digest, rows + [Register.NewUser(rowId, usernameInput, password, random, now, digest)],
                         usernameInput, other)
            == InvalidCredentials
  {
    var row := Register.NewUser(rowId, usernameInput, password, random, now, digest);
    FindAppended(rows, row);
    PasswordUtil.HashOfGeneratedSalt(digest, other, random);
    var d1 := digest(random + PasswordUtil.Utf8(other));
    var d2 := digest(random + PasswordUtil.Utf8(password));
    PasswordUtil.DecodeOfHex(d1);
    PasswordUtil.DecodeOfHex(d2);
  }

  /** The login click handler. The user table is only read. */
  method Login(users: UserTable, session: Session.SessionManager, digest: PasswordUtil.Digest,
               usernameInput: string, password: string)
    returns (r: LoginResult)
    requires session.Valid()
    modifies session
    ensures session.Valid()
    ensures r == LoginVerdict(digest, users.rows, usernameInput, password)
    ensures r.LoggedInAs? ==> session.prefs == Session.AfterLogin(old(session.prefs), r.userId, r.username)
    ensures !r.LoggedInAs? ==> session.prefs == old(session.prefs)
  {
    var u := JavaText.Trim(usernameInput);
    if u == "" || password == "" {
      return FillAllFields;
    }
    var user := Find(users.rows, u);
    if user.None? {
      return UserNotFound;
    }
    var hash := PasswordUtil.HashPassword(digest, password, user.value.salt);
    if hash.Failure? {
      return HashFailed(hash.error);
    }
    if hash.value != user.value.passwordHash {
      return InvalidCredentials;
    }
    session.Login(UserId(user.value), user.value.username);
    return LoggedInAs(UserId(user.value), user.value.username);
  }
}
