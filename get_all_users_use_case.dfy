/** GetAllUsersUseCase: every row of findAll, in its order, without the password. */
module GetAllUsersUseCase {
  import opened Domain
  import opened UserRepository

  function Execute(rows: map<int, User>): (users: seq<UserResponse>)
    ensures |users| == |rows|
    ensures var all := FindAll(rows);
      |users| == |all| && forall i :: 0 <= i < |users| ==> users[i] == ToResponse(all[i])
    ensures forall k :: k in rows ==> ToResponse(rows[k]) in users
    ensures forall i, j :: 0 <= i < j < |users| ==> users[i].createdAt >= users[j].createdAt
    ensures rows == map[] ==> users == []
  {
    StripPasswords(FindAll(rows))
  }

  /**
   * `users.map(({ password, ...user }) => user)`: every listed user comes
   * out, stripped, and a newest-first listing stays newest first.
   */
  function StripPasswords(all: seq<User>): (users: seq<UserResponse>)
    ensures |users| == |all|
    ensures forall i :: 0 <= i < |all| ==> users[i] == ToResponse(all[i])
    ensures forall u :: u in all ==> ToResponse(u) in users
    ensures (forall i, j :: 0 <= i < j < |all| ==> all[i].createdAt >= all[j].createdAt) ==>
      forall i, j :: 0 <= i < j < |users| ==> users[i].createdAt >= users[j].createdAt
  {
    var users := seq(|all|, i requires 0 <= i < |all| => ToResponse(all[i]));
    assert forall u :: u in all ==> ToResponse(u) in users by {
      forall u | u in all ensures ToResponse(u) in users {
        var i :| 0 <= i < |all| && all[i] == u;
        assert users[i] == ToResponse(u);
      }
    }
    users
  }
}
