/**
 * The request sequence POST, GET, PUT, DELETE, GET against one table,
 * checked from the use cases' contracts alone.
 */
module Scenario {
  import opened Wrappers
  import opened Domain
  import opened UserRepository
  import CreateUserUseCase
  import GetUserByIdUseCase
  import UpdateUserUseCase
  import DeleteUserUseCase
  import ErrorHandler

  method EndToEnd(hash: string -> string)
    requires UpdateUserUseCase.NonEmptyDigests(hash)
  {
    var table := new UserTable();

    // POST {name: "A", email: "a@x.com", password: "secret1"}
    var created := CreateUserUseCase.Execute(table, CreateUserData("A", "a@x.com", "secret1"), hash, 100);
    assert created.Success?;
    var id := created.value.id;
    assert id == 1 && created.value.name == "A" && created.value.email == "a@x.com";
    assert table.rows[id].password == hash("secret1");

    // A second POST with the same email is a conflict, whatever the name and password.
    var again := CreateUserUseCase.Execute(table, CreateUserData("Other", "a@x.com", "another1"), hash, 101);
    assert again == Failure(EmailInUse) && ErrorHandler.Handle(again.error).statusCode == 409;

    // GET /:id returns the same data.
    assert GetUserByIdUseCase.Execute(table.rows, id) == Success(created.value);

    // PUT {name: "B"} changes the name only.
    var updated := UpdateUserUseCase.Execute(table, id, UpdateUserData(Some("B"), None, None), hash, 200);
    assert updated.Success?;
    assert updated.value.name == "B" && updated.value.email == "a@x.com";
    assert table.rows[id].password == hash("secret1");

    // DELETE /:id, then GET /:id is a 404.
    var deleted := DeleteUserUseCase.Execute(table, id);
    assert deleted.Pass?;
    var gone := GetUserByIdUseCase.Execute(table.rows, id);
    assert gone == Failure(UserNotFound) && ErrorHandler.Handle(gone.error).statusCode == 404;
  }
}
