/**
 * RegisterActivity's register button: three ordered checks with an early
 * return each, then a new user row with a fresh salt, then a session for it.
 */
module Register {
  import opened Wrappers
  import JavaText
  import PasswordUtil
  import Session
  import opened UserStore

  datatype RegisterMessage = FillAllFields | PasswordsNoMatch | UsernameTaken | RegisteredSuccessfully

  /**
   * The handler's decision. The username is trimmed; the password and its
   * confirmation are taken as typed.
   */
  function RegisterVerdict(rows: seq<UserRow>, usernameInput: string, password: string, confirm: string): RegisterMessage {
    var u := JavaText.Trim(usernameInput);
    if u == "" || password == "" || confirm == "" then FillAllFields
    else if password != confirm then PasswordsNoMatch
    else if Find(rows, u).Some? then UsernameTaken
    else RegisteredSuccessfully
  }

  /**
   * The row a successful registration inserts: the trimmed name, the salt made
   * from the random bytes, and the hash of the untrimmed password under that salt.
   */
  function NewUser(rowId: int, usernameInput: string, password: string, random: seq<PasswordUtil.JByte>,
                   now: int, digest: PasswordUtil.Digest): UserRow
  {
    UserRow(rowId, JavaText.Trim(usernameInput),
            PasswordUtil.HexOf(digest(random + PasswordUtil.Utf8(password))),
            PasswordUtil.HexOf(random), now)
  }

  /**
   * Each message is chosen exactly when its check is the first to fail: an
   * all-blank username or an empty password or confirmation, then a mismatch,
   * then a taken name.
   */
  lemma RegisterVerdictIff(rows: seq<UserRow>, usernameInput: string, password: string, confirm: string)
    ensures var v := RegisterVerdict(rows, usernameInput, password, confirm);
      var blank := (forall i :: 0 <= i < |usernameInput| ==> JavaText.IsTrimmed(usernameInput[i]))
                   || password == "" || confirm == "";
      && (v == FillAllFields <==> blank)
      && (v == PasswordsNoMatch <==> !blank && password != confirm)
      && (v == UsernameTaken <==> !blank && password == confirm && Find(rows, JavaText.Trim(usernameInput)).Some?)
      && (v == RegisteredSuccessfully <==>
            !blank && password == confirm && Find(rows, JavaText.Trim(usernameInput)).None?)
  {
    JavaText.TrimEmptyIff(usernameInput);
  }

  /** Registering a name a second time is refused once the first registration went through. */
  lemma RegisterTwiceTaken(rows: seq<UserRow>, rowId: int, usernameInput: string, password: string,
                           random: seq<PasswordUtil.JByte>, now: int, digest: PasswordUtil.Digest,
                           usernameInput2: string, password2: string)
    requires RegisterVerdict(rows, usernameInput, password, password) == RegisteredSuccessfully
    requires JavaText.Trim(usernameInput2) == JavaText.Trim(usernameInput) && password2 != ""
    ensures RegisterVerdict(rows + [NewUser(rowId, usernameInput, password, random, now, digest)],
                            usernameInput2, password2, password2) == UsernameTaken
  {
    FindAppended(rows, NewUser(rowId, usernameInput, password, random, now, digest));
  }

  /**
   * The register click handler, with the table and the session store it
   * writes. random is what SecureRandom puts in the 16-byte salt, now the
   * clock reading for createdAt.
   */
  method Register(users: UserTable, session: Session.SessionManager, digest: PasswordUtil.Digest,
                  random: seq<PasswordUtil.JByte>, now: int,
                  usernameInput: string, password: string, confirm: string)
    returns (msg: RegisterMessage)
    requires users.Valid() && session.Valid()
    requires |random| == PasswordUtil.SaltBytes
    modifies users, session
    ensures users.Valid() && session.Valid()
    ensures msg == RegisterVerdict(old(users.rows), usernameInput, password, confirm)
    ensures msg != RegisteredSuccessfully ==>
      && users.rows == old(users.rows) && users.lastRowId == old(users.lastRowId)
      && session.prefs == old(session.prefs)
    ensures msg == RegisteredSuccessfully ==>
      && users.lastRowId == old(users.lastRowId) + 1
      && users.rows == old(users.rows) + [NewUser(users.lastRowId, usernameInput, password, random, now, digest)]
      && session.prefs == Session.AfterLogin(old(session.prefs), JavaText.ToInt32(users.lastRowId),
                                             JavaText.Trim(usernameInput))
  {
    var u := JavaText.Trim(usernameInput);
    if u == "" || password == "" || confirm == "" {
      return FillAllFields;
    }
    if password != confirm {
      return PasswordsNoMatch;
    }
    if Find(users.rows, u).Some? {
      return UsernameTaken;
    }
    var salt := PasswordUtil.GenerateSaltHex(random);
    var hash := PasswordUtil.HashPassword(digest, password, salt);
    PasswordUtil.HashOfGeneratedSalt(digest, password, random);
    var inserted := users.Insert(u, hash.value, salt, now);
    var newId := JavaText.ToInt32(inserted.value);
    session.Login(newId, u);
    return RegisteredSuccessfully;
  }
}
