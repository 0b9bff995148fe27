/**
 * The "users" table, in memory: rows with a unique username, looked up by
 * exact, case-sensitive equality, and inserted with ABORT on a clash.
 */
module UserStore {
  import opened Wrappers
  import JavaText
  import PasswordUtil

  datatype UserRow = UserRow(rowId: int, username: string, passwordHash: string, salt: string, createdAt: int)

  /** UserEntity.id as Room reads it back: the int column value of the row id. */
  function UserId(row: UserRow): int {
    JavaText.ToInt32(row.rowId)
  }

  /** The unique index on username. */
  predicate UniqueNames(rows: seq<UserRow>) {
    forall i, j :: 0 <= i < j < |rows| ==> rows[i].username != rows[j].username
  }

  /** Every stored salt is a 16-byte salt in hex, as generateSaltHex makes it. */
  predicate SaltsWellFormed(rows: seq<UserRow>) {
    forall i :: 0 <= i < |rows| ==>
      |rows[i].salt| == 2 * PasswordUtil.SaltBytes && PasswordUtil.IsLowerHex(rows[i].salt)
  }

  /** findByUsername: the row whose username equals u exactly, if any. */
  function Find(rows: seq<UserRow>, u: string): (r: Option<UserRow>)
    ensures r.Some? ==> r.value in rows && r.value.username == u
    ensures r.None? <==> forall i :: 0 <= i < |rows| ==> rows[i].username != u
  {
    if rows == [] then None
    else if rows[0].username == u then Some(rows[0])
    else Find(rows[1..], u)
  }

  /** Appending a row with a fresh username makes exactly that row the one found for it. */
  lemma {:induction false} FindAppended(rows: seq<UserRow>, row: UserRow)
    requires Find(rows, row.username).None?
    ensures Find(rows + [row], row.username) == Some(row)
  {
    if rows != [] {
      assert (rows + [row])[1..] == rows[1..] + [row];
      FindAppended(rows[1..], row);
    }
  }

  /** Appending a row does not change what is found for any other username. */
  lemma {:induction false} FindAppendedOther(rows: seq<UserRow>, row: UserRow, u: string)
    requires row.username != u
    ensures Find(rows + [row], u) == Find(rows, u)
  {
    if rows != [] {
      assert (rows + [row])[1..] == rows[1..] + [row];
      FindAppendedOther(rows[1..], row, u);
    }
  }

  /** A row found in a table whose salts are all well formed has a well-formed salt. */
  lemma {:induction false} FoundSaltWellFormed(rows: seq<UserRow>, u: string)
    requires SaltsWellFormed(rows)
    ensures Find(rows, u).Some? ==>
      |Find(rows, u).value.salt| == 2 * PasswordUtil.SaltBytes && PasswordUtil.IsLowerHex(Find(rows, u).value.salt)
  {
    if rows != [] && rows[0].username != u {
      assert SaltsWellFormed(rows[1..]) by {
        forall i | 0 <= i < |rows[1..]| ensures |rows[1..][i].salt| == 2 * PasswordUtil.SaltBytes {
          assert rows[1..][i] == rows[i + 1];
        }
      }
      FoundSaltWellFormed(rows[1..], u);
    }
  }

  /** The lookup is case-sensitive: a row "alice" is not found as "ALICE". */
  lemma FindIsCaseSensitive(row: UserRow)
    requires row.username == "alice"
    ensures Find([row], "alice") == Some(row)
    ensures Find([row], "ALICE") == None
  {
  }

  datatype DbError = UniqueConstraintFailed

  class UserTable {
    var rows: seq<UserRow>
    /** The largest row id handed out so far (AUTOINCREMENT never reuses one). */
    var lastRowId: int

    ghost predicate Valid()
      reads this
    {
      && UniqueNames(rows)
      && SaltsWellFormed(rows)
      && (forall i :: 0 <= i < |rows| ==> rows[i].rowId <= lastRowId)
    }

    constructor ()
      ensures Valid() && rows == [] && lastRowId == 0
    {
      rows := [];
      lastRowId := 0;
    }

    /**
     * insert with OnConflictStrategy.ABORT: a row whose username is already
     * present fails the unique index and nothing is written; otherwise the
     * row gets the next row id, which is returned.
     */
    method Insert(username: string, passwordHash: string, salt: string, createdAt: int)
      returns (r: Result<int, DbError>)
      requires Valid()
      requires |salt| == 2 * PasswordUtil.SaltBytes && PasswordUtil.IsLowerHex(salt)
      modifies this
      ensures Valid()
      ensures r.Failure? <==> Find(old(rows), username).Some?
      ensures r.Failure? ==> rows == old(rows) && lastRowId == old(lastRowId)
      ensures r.Success? ==>
        && r.value == old(lastRowId) + 1
        && lastRowId == r.value
        && rows == old(rows) + [UserRow(r.value, username, passwordHash, salt, createdAt)]
    {
      if Find(rows, username).Some? {
        return Failure(UniqueConstraintFailed);
      }
      lastRowId := lastRowId + 1;
      rows := rows + [UserRow(lastRowId, username, passwordHash, salt, createdAt)];
      return Success(lastRowId);
    }
  }
}
