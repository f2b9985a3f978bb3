/**
 * The `users` table (fastapi/models.py:13-29): the record stored for each
 * account, the column bounds MySQL enforces, and the table's invariants.
 */
module Models {
  import opened Wrappers
  import Schemas


  const EmailColumnLength := 255
  const UsernameColumnLength := 100
  const HashedPasswordColumnLength := 255
  const FullNameColumnLength := 200
  /** The largest value of the signed 32-bit INT id column. */
  const MaxId := 0x7fff_ffff

  /** The value the is_active column takes when an insert gives none. */
  const IsActiveDefault := true

  /** One row of the `users` table. The password column is NOT NULL, so it is a plain string. */
  datatype User = User(
    id: int,
    email: string,
    username: string,
    hashedPassword: string,
    fullName: Option<string>,
    isActive: bool,
    createdAt: Schemas.Timestamp,
    updatedAt: Option<Schemas.Timestamp>)

  /**
   * Every value of a row fits its column: the id fits the INT column, and
   * every string fits its VARCHAR column, which MySQL in strict mode
   * enforces on insert.
   */
  predicate FitsColumns(u: User) {
    && u.id <= MaxId
    && |u.email| <= EmailColumnLength
    && |u.username| <= UsernameColumnLength
    && |u.hashedPassword| <= HashedPasswordColumnLength
    && (u.fullName.None? || |u.fullName.value| <= FullNameColumnLength)
  }

  predicate UniqueEmails(rows: seq<User>) {
    forall i, j :: 0 <= i < j < |rows| ==> rows[i].email != rows[j].email
  }

  predicate UniqueUsernames(rows: seq<User>) {
    forall i, j :: 0 <= i < j < |rows| ==> rows[i].username != rows[j].username
  }

  /**
   * The invariants of the table: unique email, unique username, every row
   * within its columns, a stored password of at least 8 characters (so never
   * empty) and a username of 3 to 50, as the only writer, registration,
   * admits, and ids that are positive and below the next value the
   * auto-increment counter hands out (so ids are distinct as well).
   */
  predicate TableValid(rows: seq<User>, nextId: int) {
    && 1 <= nextId
    && UniqueEmails(rows)
    && UniqueUsernames(rows)
    && (forall i, j :: 0 <= i < j < |rows| ==> rows[i].id < rows[j].id)
    && (forall i :: 0 <= i < |rows| ==>
          && 1 <= rows[i].id < nextId
          && FitsColumns(rows[i])
          && Schemas.PasswordValid(rows[i].hashedPassword)
          && Schemas.UsernameValid(rows[i].username))
  }

  /**
   * The row an insert creates from the values it is given: is_active takes
   * its default when none is given, created_at is the server clock's `now`,
   * and updated_at stays empty until the first update.
   */
  function NewUser(id: int, email: string, username: string, fullName: Option<string>,
                   hashedPassword: string, isActive: Option<bool>, now: Schemas.Timestamp): (u: User)
    ensures isActive.None? ==> u.isActive
    ensures isActive.Some? ==> u.isActive == isActive.value
    ensures u.createdAt == now && u.updatedAt.None?
    ensures (u.id, u.email, u.username, u.fullName, u.hashedPassword) == (id, email, username, fullName, hashedPassword)
  {
    User(id, email, username, hashedPassword, fullName,
         if isActive.Some? then isActive.value else IsActiveDefault, now, None)
  }

  /** Ids in a valid table are distinct, and all differ from the next id. */
  lemma IdsDistinct(rows: seq<User>, nextId: int, i: int, j: int)
    requires TableValid(rows, nextId)
    requires 0 <= i < |rows| && 0 <= j < |rows| && i != j
    ensures rows[i].id != rows[j].id && rows[i].id != nextId
  {
  }
}
