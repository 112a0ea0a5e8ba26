/** GetUserByIdUseCase: 404 for an absent id, otherwise the row without its password. */
module GetUserByIdUseCase {
  import opened Wrappers
  import opened Domain
  import opened UserRepository

  function Execute(rows: map<int, User>, id: int): (r: Result<UserResponse, Error>)
    ensures r.Failure? <==> id !in rows
    ensures r.Failure? ==> r.error == UserNotFound
    ensures r.Success? ==> r.value == ToResponse(rows[id])
    ensures IdsMatch(rows) && r.Success? ==> r.value.id == id
  {
    var user := FindById(rows, id);
    if user.None? then Failure(UserNotFound) else Success(ToResponse(user.value))
  }
}
