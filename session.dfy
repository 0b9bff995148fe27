/**
 * SessionManager: the logged-in user, kept in the "session" key-value store
 * under two keys. The store is a map from key to a typed value.
 */
module Session {

  datatype PrefValue = IntPref(intValue: int) | StringPref(strValue: string)

  type Prefs = map<string, PrefValue>

  const UserIdKey: string := "userId"
  const UsernameKey: string := "username"

  /**
   * What every write of this class leaves behind: each key holds a value of
   * the type it is read with, and the two keys are written and cleared together.
   */
  predicate WellFormed(p: Prefs) {
    && (UserIdKey in p ==> p[UserIdKey].IntPref?)
    && (UsernameKey in p ==> p[UsernameKey].StringPref?)
    && (UserIdKey in p <==> UsernameKey in p)
  }

  /** isLoggedIn: the "userId" key is present. */
  predicate LoggedIn(p: Prefs) {
    UserIdKey in p
  }

  /** getUserId: the stored id, or the default -1. */
  function UserIdOf(p: Prefs): int
    requires WellFormed(p)
  {
    if UserIdKey in p then p[UserIdKey].intValue else -1
  }

  /** getUsername: the stored name, or the default "". */
  function UsernameOf(p: Prefs): string
    requires WellFormed(p)
  {
    if UsernameKey in p then p[UsernameKey].strValue else ""
  }

  /** login: puts both keys in one edit. */
  function AfterLogin(p: Prefs, userId: int, username: string): Prefs {
    p[UserIdKey := IntPref(userId)][UsernameKey := StringPref(username)]
  }

  /** logout: clears the whole store. */
  function AfterLogout(p: Prefs): Prefs {
    map[]
  }

  /** After login(id, name) the user is logged in as exactly (id, name). */
  lemma LoginThenRead(p: Prefs, userId: int, username: string)
    requires WellFormed(p)
    ensures WellFormed(AfterLogin(p, userId, username))
    ensures LoggedIn(AfterLogin(p, userId, username))
    ensures UserIdOf(AfterLogin(p, userId, username)) == userId
    ensures UsernameOf(AfterLogin(p, userId, username)) == username
  {
  }

  /** A second login replaces the first one's id and name: nothing of the earlier session is visible. */
  lemma LoginOverwrites(p: Prefs, id1: int, name1: string, id2: int, name2: string)
    requires WellFormed(p)
    ensures AfterLogin(AfterLogin(p, id1, name1), id2, name2) == AfterLogin(p, id2, name2)
  {
  }

  /** After logout the store reads as "nobody": not logged in, id -1, name "". */
  lemma LogoutThenRead(p: Prefs)
    ensures WellFormed(AfterLogout(p))
    ensures !LoggedIn(AfterLogout(p))
    ensures UserIdOf(AfterLogout(p)) == -1 && UsernameOf(AfterLogout(p)) == ""
  {
  }

  /** logout is idempotent. */
  lemma LogoutIdempotent(p: Prefs)
    ensures AfterLogout(AfterLogout(p)) == AfterLogout(p)
  {
  }

  /** Key presence alone decides isLoggedIn: a stored id equal to the default -1 still counts as logged in. */
  lemma LoggedInIsKeyPresence(p: Prefs, username: string)
    requires WellFormed(p)
    ensures LoggedIn(AfterLogin(p, -1, username)) && UserIdOf(AfterLogin(p, -1, username)) == -1
  {
  }

  class SessionManager {
    var prefs: Prefs

    ghost predicate Valid()
      reads this
    {
      WellFormed(prefs)
    }

    /** Opens the store with whatever an earlier run of the application left in it. */
    constructor (stored: Prefs)
      requires WellFormed(stored)
      ensures Valid() && prefs == stored
    {
      prefs := stored;
    }

    function IsLoggedIn(): bool
      reads this
    {
      LoggedIn(prefs)
    }

    function GetUserId(): int
      reads this
      requires Valid()
    {
      UserIdOf(prefs)
    }

    function GetUsername(): string
      reads this
      requires Valid()
    {
      UsernameOf(prefs)
    }

    method Login(userId: int, username: string)
      requires Valid()
      modifies this
      ensures Valid()
      ensures prefs == AfterLogin(old(prefs), userId, username)
      ensures IsLoggedIn() && GetUserId() == userId && GetUsername() == username
    {
      prefs := prefs[UserIdKey := IntPref(userId)];
      prefs := prefs[UsernameKey := StringPref(username)];
    }

    method Logout()
      modifies this
      ensures Valid()
      ensures prefs == AfterLogout(old(prefs))
      ensures !IsLoggedIn() && GetUserId() == -1 && GetUsername() == ""
    {
      prefs := map[];
    }
  }
}
