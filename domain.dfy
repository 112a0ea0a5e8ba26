/**
 * The User entity, its public projection, the records the repository
 * accepts, and the error signal the use cases raise.
 */
module Domain {
  import opened Wrappers

  /** created_at / updated_at: assigned by the store, opaque to the model. */
  type Timestamp = int

  /** One row of the `users` table. `password` holds the stored (hashed) credential. */
  datatype User = User(
    id: int,
    name: string,
    email: string,
    password: string,
    createdAt: Timestamp,
    updatedAt: Timestamp)

  /** UserResponseDTO: what callers see of a user. It has no password field at all. */
  datatype UserResponse = UserResponse(
    id: int,
    name: string,
    email: string,
    createdAt: Timestamp,
    updatedAt: Timestamp)

  /**
   * Strips the password: `const { password, ...userResponse } = user`.
   * Putting the row's own password back gives back the row, so only the
   * password is dropped.
   */
  function ToResponse(u: User): (r: UserResponse)
    ensures WithPassword(r, u.password) == u
  {
    UserResponse(u.id, u.name, u.email, u.createdAt, u.updatedAt)
  }

  /** A response with a password added back in. */
  function WithPassword(r: UserResponse, password: string): User
  {
    User(r.id, r.name, r.email, password, r.createdAt, r.updatedAt)
  }

  /** The password never reaches a response: two rows that differ only in it look the same. */
  lemma ResponseOmitsPassword(u: User, v: User)
    requires u.(password := v.password) == v
    ensures ToResponse(u) == ToResponse(v)
  {
  }

  /** CreateUserDTO / CreateUserData: all three fields are required. */
  datatype CreateUserData = CreateUserData(name: string, email: string, password: string)

  /** UpdateUserDTO / UpdateUserData: every field is optional. */
  datatype UpdateUserData = UpdateUserData(
    name: Option<string>,
    email: Option<string>,
    password: Option<string>)

  /**
   * JavaScript truthiness of an optional string field: a field counts as
   * supplied only when it is present and not the empty string.
   */
  predicate Supplied(field: Option<string>)
    ensures field == None ==> !Supplied(field)
    ensures field == Some("") ==> !Supplied(field)
    ensures field.Some? && |field.value| > 0 ==> Supplied(field)
  {
    field.Some? && field.value != ""
  }

  /** An update body in which no field is supplied. */
  predicate NoneSupplied(data: UpdateUserData)
  {
    !Supplied(data.name) && !Supplied(data.email) && !Supplied(data.password)
  }

  /**
   * The error signal. `AppError` is the program's own operational error
   * (message and HTTP status code); `UnexpectedError` is anything else that
   * can be thrown: a failing SQL statement or a JavaScript runtime error.
   */
  datatype Error =
    | AppError(message: string, statusCode: int)
    | UnexpectedError(message: string)

  const UserNotFound: Error := AppError("User not found", 404)
  const EmailInUse: Error := AppError("Email already in use", 409)

  /** Some row of the table carries this email address. */
  ghost predicate EmailTaken(rows: map<int, User>, email: string)
  {
    exists k :: k in rows && rows[k].email == email
  }

  /** No two rows share an email address. */
  ghost predicate EmailsUnique(rows: map<int, User>)
  {
    forall j, k :: j in rows && k in rows && rows[j].email == rows[k].email ==> j == k
  }
}
