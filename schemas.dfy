/**
 * The request and response bodies of the user routes and the field
 * constraints their schemas declare (fastapi/schemas/user.py).
 * Email addresses are opaque strings: their format check is not modelled.
 */
module Schemas {
  import opened Wrappers

  /** A value of the database clock; its representation is not modelled. */
  type Timestamp = nat

  const UsernameMinLength := 3
  const UsernameMaxLength := 50
  const FullNameMaxLength := 200
  const PasswordMinLength := 8

  /** The fields whose constraints a request body can violate. */
  datatype Field = Username | FullName | Password | NewPassword

  predicate UsernameValid(username: string) {
    UsernameMinLength <= |username| <= UsernameMaxLength
  }

  /** An absent full name is always acceptable. */
  predicate FullNameValid(fullName: Option<string>) {
    fullName.None? || |fullName.value| <= FullNameMaxLength
  }

  predicate PasswordValid(password: string) {
    |password| >= PasswordMinLength
  }

  /** The constraints common to every body derived from UserBase. */
  predicate UserBaseValid(username: string, fullName: Option<string>) {
    UsernameValid(username) && FullNameValid(fullName)
  }

  /**
   * The body of a registration request. The confirmPassword field is read by
   * the registration route (fastapi/main.py:130) but is not declared by the
   * UserCreate schema (fastapi/schemas/user.py:15-17); it is modelled as the
   * route reads it, and no constraint is attached to it.
   */
  datatype UserCreate = UserCreate(
    email: string,
    username: string,
    fullName: Option<string>,
    password: string,
    confirmPassword: string)

  predicate UserCreateValid(req: UserCreate) {
    UserBaseValid(req.username, req.fullName) && PasswordValid(req.password)
  }

  /**
   * The body of a login request. The UserLogin schema declares an `email`
   * field (fastapi/schemas/user.py:33) while the login route reads
   * `username` (fastapi/main.py:168) and compares it with both columns; it is
   * modelled as the one identifier the route reads. Neither field carries a
   * length constraint, so a login body needs no validity predicate.
   */
  datatype UserLogin = UserLogin(identifier: string, password: string)

  /** The public view of a stored user returned by registration; it has no password. */
  datatype UserResponse = UserResponse(
    id: int,
    email: string,
    username: string,
    fullName: Option<string>,
    isActive: bool,
    createdAt: Timestamp,
    updatedAt: Option<Timestamp>)

  /** A profile update: both fields may be left out. */
  datatype UserUpdate = UserUpdate(username: Option<string>, fullName: Option<string>)

  predicate UserUpdateValid(update: UserUpdate) {
    (update.username.None? || UsernameValid(update.username.value)) && FullNameValid(update.fullName)
  }

  /** A password change: only the new password is constrained. */
  datatype PasswordChange = PasswordChange(currentPassword: string, newPassword: string)

  predicate PasswordChangeValid(change: PasswordChange) {
    PasswordValid(change.newPassword)
  }

  /**
   * The fields of a registration body that fail their constraints, in
   * declaration order; the body is accepted exactly when there are none.
   */
  function CreateViolations(req: UserCreate): (errs: seq<Field>)
    ensures errs == [] <==> UserCreateValid(req)
    ensures Username in errs <==> !UsernameValid(req.username)
    ensures FullName in errs <==> !FullNameValid(req.fullName)
    ensures Password in errs <==> !PasswordValid(req.password)
    ensures NewPassword !in errs
  {
    (if UsernameValid(req.username) then [] else [Username])
    + (if FullNameValid(req.fullName) then [] else [FullName])
    + (if PasswordValid(req.password) then [] else [Password])
  }

  /** The fields of a profile update that fail their constraints. */
  function UpdateViolations(update: UserUpdate): (errs: seq<Field>)
    ensures errs == [] <==> UserUpdateValid(update)
    ensures Username in errs <==> update.username.Some? && !UsernameValid(update.username.value)
    ensures FullName in errs <==> !FullNameValid(update.fullName)
    ensures Password !in errs && NewPassword !in errs
  {
    (if update.username.None? || UsernameValid(update.username.value) then [] else [Username])
    + (if FullNameValid(update.fullName) then [] else [FullName])
  }

  /** The fields of a password change that fail their constraints. */
  function PasswordChangeViolations(change: PasswordChange): (errs: seq<Field>)
    ensures errs == [] <==> PasswordChangeValid(change)
    ensures errs != [] ==> errs == [NewPassword]
  {
    if PasswordValid(change.newPassword) then [] else [NewPassword]
  }

  /** Whether a password change is valid never depends on the current password. */
  lemma CurrentPasswordUnconstrained(change: PasswordChange, current: string)
    ensures PasswordChangeValid(change.(currentPassword := current)) == PasswordChangeValid(change)
  {
  }
}
