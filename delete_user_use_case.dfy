/** DeleteUserUseCase: 404 for an absent id, otherwise remove the row. */
module DeleteUserUseCase {
  import opened Wrappers
  import opened Domain
  import opened UserRepository
  import GetUserByIdUseCase

  method Execute(repository: UserTable, id: int) returns (r: Outcome<Error>)
    requires repository.Valid()
    modifies repository
    ensures repository.Valid()
    ensures repository.nextId == old(repository.nextId)
    ensures r.Fail? <==> id !in old(repository.rows)
    ensures r.Fail? ==> r.error == UserNotFound && repository.rows == old(repository.rows)
    // The row is gone, every other row is untouched, and a later lookup is a 404.
    ensures r.Pass? ==> repository.rows == old(repository.rows) - {id}
    ensures r.Pass? ==> GetUserByIdUseCase.Execute(repository.rows, id) == Failure(UserNotFound)
    ensures EmailsUnique(old(repository.rows)) ==> EmailsUnique(repository.rows)
  {
    var user := FindById(repository.rows, id);
    if user.None? {
      return Fail(UserNotFound);
    }
    repository.Delete(id);
    r := Pass;
  }
}
