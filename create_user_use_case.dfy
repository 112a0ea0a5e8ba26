/** CreateUserUseCase: reject a taken email, hash the password, insert, strip the password. */
module CreateUserUseCase {
  import opened Wrappers
  import opened Domain
  import opened UserRepository
  import GetUserByIdUseCase

  /**
   * `hash` stands for bcrypt.hash(_, 10); `now` is the time the store
   * stamps on the new row.
   */
  method Execute(repository: UserTable, data: CreateUserData, hash: string -> string, now: Timestamp)
    returns (r: Result<UserResponse, Error>)
    requires repository.Valid()
    modifies repository
    ensures repository.Valid()
    // A taken email is a conflict, and then nothing is inserted.
    ensures r.Failure? <==> EmailTaken(old(repository.rows), data.email)
    ensures r.Failure? ==> r.error == EmailInUse
    ensures r.Failure? ==> repository.rows == old(repository.rows) && repository.nextId == old(repository.nextId)
    // Otherwise exactly one row is added, under an id that was free, holding the hashed password.
    ensures r.Success? ==>
      var id := old(repository.nextId);
      && id !in old(repository.rows)
      && repository.rows == old(repository.rows)[id := User(id, data.name, data.email, hash(data.password), now, now)]
      && r.value == ToResponse(repository.rows[id])
    // Fetching the new id afterwards gives back the same response.
    ensures r.Success? ==> GetUserByIdUseCase.Execute(repository.rows, r.value.id) == Success(r.value)
    ensures EmailsUnique(old(repository.rows)) ==> EmailsUnique(repository.rows)
  {
    var existingUser := FindByEmail(repository.rows, data.email);
    if existingUser.Some? {
      return Failure(EmailInUse);
    }
    var hashedPassword := hash(data.password);
    var user := repository.Create(CreateUserData(data.name, data.email, hashedPassword), now);
    r := Success(ToResponse(user));
  }
}
