/**
 * UpdateUserUseCase: 404 for an absent id, 409 when the email changes to
 * one another row holds, hash a supplied password, then partial-update.
 */
module UpdateUserUseCase {
  import opened Wrappers
  import opened Domain
  import opened UserRepository
  import GetUserByIdUseCase

  /** bcrypt output is never the empty string, so a hashed password stays truthy for the builder. */
  ghost predicate NonEmptyDigests(hash: string -> string)
  {
    forall p :: hash(p) != ""
  }

  /** The update body asks to move the user to a different email address. */
  predicate ChangesEmail(data: UpdateUserData, current: User)
  {
    Supplied(data.email) && data.email.value != current.email
  }

  /** A partial update that does not move the row onto another row's email keeps emails unique. */
  lemma PatchKeepsEmailsUnique(rows: map<int, User>, id: int, data: UpdateUserData, now: Timestamp)
    requires EmailsUnique(rows)
    requires id in rows
    requires ChangesEmail(data, rows[id]) ==> !EmailTaken(rows, data.email.value)
    ensures EmailsUnique(rows[id := Patched(rows[id], data, now)])
  {
  }

  /**
   * `hash` stands for bcrypt.hash(_, 10); `now` is the time the store
   * stamps on the updated row.
   */
  method Execute(repository: UserTable, id: int, data: UpdateUserData, hash: string -> string, now: Timestamp)
    returns (r: Result<UserResponse, Error>)
    requires repository.Valid()
    requires NonEmptyDigests(hash)
    modifies repository
    ensures repository.Valid()
    ensures repository.nextId == old(repository.nextId)
    // There are three ways to fail, and every failure leaves the table as it was.
    ensures r.Failure? ==> r.error == UserNotFound || r.error == EmailInUse || r.error == SqlSyntaxError
    ensures r.Failure? ==> repository.rows == old(repository.rows)
    ensures r == Failure(UserNotFound) <==> id !in old(repository.rows)
    ensures r == Failure(EmailInUse) <==>
      && id in old(repository.rows)
      && ChangesEmail(data, old(repository.rows)[id])
      && EmailTaken(old(repository.rows), data.email.value)
    // An update that supplies nothing reaches the store as an empty SET list and fails there.
    ensures r == Failure(SqlSyntaxError) <==>
      && id in old(repository.rows)
      && !(ChangesEmail(data, old(repository.rows)[id]) && EmailTaken(old(repository.rows), data.email.value))
      && NoneSupplied(data)
    // On success only row `id` changes, and only in the supplied fields.
    ensures r.Success? ==> id in old(repository.rows) && Written(old(repository.rows), repository.rows, id, data, hash, now, r.value)
    ensures r.Success? ==> GetUserByIdUseCase.Execute(repository.rows, id) == Success(r.value)
    ensures EmailsUnique(old(repository.rows)) ==> EmailsUnique(repository.rows)
  {
    var user := FindById(repository.rows, id);
    if user.None? {
      return Failure(UserNotFound);
    }
    if Supplied(data.email) && data.email.value != user.value.email {
      var emailTaken := FindByEmail(repository.rows, data.email.value);
      if emailTaken.Some? {
        return Failure(EmailInUse);
      }
    }
    r := HashAndUpdate(repository, id, data, hash, now);
  }

  /**
   * The partial update as the use case states it: only row `id` changes,
   * each supplied field takes its new value (the password hashed), every
   * other field keeps its old one, updated_at moves to `now` only when a
   * value changed, and the response is the new row.
   */
  ghost predicate Written(before: map<int, User>, after: map<int, User>, id: int, data: UpdateUserData,
                          hash: string -> string, now: Timestamp, response: UserResponse)
    requires id in before
  {
    && after.Keys == before.Keys
    && (forall k :: k in before && k != id ==> after[k] == before[k])
    && var was, row := before[id], after[id];
    && row.id == id
    && row.name == (if Supplied(data.name) then data.name.value else was.name)
    && row.email == (if Supplied(data.email) then data.email.value else was.email)
    && row.password == (if Supplied(data.password) then hash(data.password.value) else was.password)
    && row.createdAt == was.createdAt
    && row.updatedAt == (if row.(updatedAt := was.updatedAt) == was then was.updatedAt else now)
    && response == ToResponse(row)
  }

  /** Lines 22-28: hash a supplied password in the body, send it to `update`, strip the result. */
  method HashAndUpdate(repository: UserTable, id: int, data: UpdateUserData, hash: string -> string, now: Timestamp)
    returns (r: Result<UserResponse, Error>)
    requires repository.Valid()
    requires NonEmptyDigests(hash)
    requires id in repository.rows
    requires ChangesEmail(data, repository.rows[id]) ==> !EmailTaken(repository.rows, data.email.value)
    modifies repository
    ensures repository.Valid()
    ensures repository.nextId == old(repository.nextId)
    ensures r.Failure? <==> NoneSupplied(data)
    ensures r.Failure? ==> r == Failure(SqlSyntaxError) && repository.rows == old(repository.rows)
    ensures r.Success? ==> Written(old(repository.rows), repository.rows, id, data, hash, now, r.value)
    ensures EmailsUnique(old(repository.rows)) ==> EmailsUnique(repository.rows)
  {
    var body := data;
    if Supplied(data.password) {
      body := body.(password := Some(hash(data.password.value)));
    }
    assert Supplied(body.password) <==> Supplied(data.password);
    ghost var before := repository.rows;
    if EmailsUnique(before) {
      PatchKeepsEmailsUnique(before, id, body, now);
    }
    var updatedUser := repository.Update(id, body, now);
    match updatedUser {
      case Failure(e) =>
        r := Failure(e);
      case Success(None) =>
        // Destructuring a null row throws a TypeError; the row was checked to exist just before.
        r := Failure(UnexpectedError("Cannot destructure null"));
      case Success(Some(u)) =>
        r := Success(ToResponse(u));
    }
  }
}
