/**
 * MysqlUserRepository over an in-memory `users` table. The table is a map
 * from id to row plus the auto-increment counter; the read-only queries are
 * functions of the map, the statements that write are methods of UserTable.
 */
module UserRepository {
  import opened Wrappers
  import opened Domain

  /** Every row is stored under its own id. */
  ghost predicate IdsMatch(rows: map<int, User>)
  {
    forall k :: k in rows ==> rows[k].id == k
  }

  // ---------------------------------------------------------------------
  // SELECT * FROM users WHERE id = ?

  function FindById(rows: map<int, User>, id: int): (r: Option<User>)
    ensures r.None? <==> id !in rows
    ensures r.Some? ==> id in rows && r.value == rows[id]
    ensures IdsMatch(rows) && r.Some? ==> r.value.id == id
  {
    if id in rows then Some(rows[id]) else None
  }

  // ---------------------------------------------------------------------
  // SELECT * FROM users ORDER BY created_at DESC

  /**
   * The order of `ORDER BY created_at DESC`: row u (key j) may come before
   * row v (key k). MySQL leaves the order of equal timestamps open; the
   * model lists the larger id first.
   */
  predicate Before(u: User, j: int, v: User, k: int)
  {
    u.createdAt > v.createdAt || (u.createdAt == v.createdAt && j >= k)
  }

  /** Key k is listed before every key of the table. */
  predicate IsNewest(rows: map<int, User>, k: int)
  {
    k in rows && forall j :: j in rows ==> Before(rows[k], k, rows[j], j)
  }

  /** A table that is not empty has a key. */
  lemma HasKey(rows: map<int, User>)
    requires rows != map[]
    ensures exists k :: k in rows
  {
    if forall k :: k !in rows {
      assert false;
    }
  }

  lemma {:induction false} NewestExists(rows: map<int, User>)
    requires rows != map[]
    ensures exists k :: IsNewest(rows, k)
    decreases |rows|
  {
    HasKey(rows);
    var j :| j in rows;
    var rest := rows - {j};
    assert rest.Keys == rows.Keys - {j};
    if rows.Keys == {j} {
      assert IsNewest(rows, j);
    } else {
      assert rest.Keys != {};
      NewestExists(rest);
      var k :| IsNewest(rest, k);
      if Before(rows[k], k, rows[j], j) {
        forall i | i in rows ensures Before(rows[k], k, rows[i], i) {
          if i != j {
            assert i in rest;
          }
        }
        assert IsNewest(rows, k);
      } else {
        forall i | i in rows ensures Before(rows[j], j, rows[i], i) {
          if i != j {
            assert i in rest && Before(rest[k], k, rest[i], i);
          }
        }
        assert IsNewest(rows, j);
      }
    }
  }

  /** The key of the row that `ORDER BY created_at DESC` lists first. */
  function Newest(rows: map<int, User>): (k: int)
    requires rows != map[]
    ensures IsNewest(rows, k)
  {
    NewestExists(rows);
    var k :| IsNewest(rows, k);
    k
  }

  /** The keys of the table in listing order. */
  function ListingKeys(rows: map<int, User>): (ks: seq<int>)
    ensures |ks| == |rows|
    ensures forall i :: 0 <= i < |ks| ==> ks[i] in rows
    ensures forall k :: k in rows ==> k in ks
    ensures forall i, j :: 0 <= i < j < |ks| ==> ks[i] != ks[j]
    ensures forall i, j :: 0 <= i < j < |ks| ==> Before(rows[ks[i]], ks[i], rows[ks[j]], ks[j])
    decreases |rows|
  {
    if rows == map[] then []
    else
      var k := Newest(rows);
      assert (rows - {k}).Keys == rows.Keys - {k};
      var tail := ListingKeys(rows - {k});
      ListingKeysConsCovers(rows, k, tail);
      ListingKeysConsOrdered(rows, k, tail);
      [k] + tail
  }

  /** The step of ListingKeys, part one: the newest key followed by a listing of the other rows covers the table. */
  lemma ListingKeysConsCovers(rows: map<int, User>, k: int, tail: seq<int>)
    requires k in rows
    requires |tail| == |rows - {k}|
    requires forall i :: 0 <= i < |tail| ==> tail[i] in rows - {k}
    requires forall j :: j in rows - {k} ==> j in tail
    ensures var ks := [k] + tail;
      && |ks| == |rows|
      && (forall i :: 0 <= i < |ks| ==> ks[i] in rows && (i > 0 ==> ks[i] != k))
      && (forall k' :: k' in rows ==> k' in ks)
  {
    var rest := rows - {k};
    assert rest.Keys == rows.Keys - {k};
    var ks := [k] + tail;
    assert forall i :: 1 <= i < |ks| ==> ks[i] == tail[i - 1];
    forall k' | k' in rows ensures k' in ks {
      if k' != k {
        assert k' in rest;
      }
    }
  }

  /** The step of ListingKeys, part two: the newest key followed by the other rows' listing is in listing order. */
  lemma ListingKeysConsOrdered(rows: map<int, User>, k: int, tail: seq<int>)
    requires IsNewest(rows, k)
    requires forall i :: 0 <= i < |tail| ==> tail[i] in rows - {k}
    requires forall i, j :: 0 <= i < j < |tail| ==> tail[i] != tail[j]
    requires forall i, j :: 0 <= i < j < |tail| ==>
      Before((rows - {k})[tail[i]], tail[i], (rows - {k})[tail[j]], tail[j])
    ensures var ks := [k] + tail;
      && (forall i, j :: 0 <= i < j < |ks| ==> ks[i] != ks[j])
      && (forall i, j :: 0 <= i < j < |ks| ==> Before(rows[ks[i]], ks[i], rows[ks[j]], ks[j]))
  {
    var rest := rows - {k};
    var ks := [k] + tail;
    assert forall i :: 1 <= i < |ks| ==> ks[i] == tail[i - 1];
    assert forall i :: 0 <= i < |tail| ==> tail[i] in rows && tail[i] != k && rest[tail[i]] == rows[tail[i]];
  }

  /** findAll: every row, newest first. */
  function FindAll(rows: map<int, User>): (users: seq<User>)
    ensures |users| == |rows|
    ensures var ks := ListingKeys(rows);
      forall i :: 0 <= i < |users| ==> ks[i] in rows && users[i] == rows[ks[i]]
    ensures IdsMatch(rows) ==> forall i :: 0 <= i < |users| ==> users[i].id in rows && rows[users[i].id] == users[i]
    ensures forall k :: k in rows ==> rows[k] in users
    ensures forall i, j :: 0 <= i < j < |users| ==> users[i].createdAt >= users[j].createdAt
    ensures rows == map[] ==> users == []
  {
    var users := RowsAt(rows, ListingKeys(rows));
    ListedRows(rows, ListingKeys(rows), users);
    users
  }

  /** The rows under a sequence of keys, in that order. */
  function RowsAt(rows: map<int, User>, ks: seq<int>): (users: seq<User>)
    requires forall i :: 0 <= i < |ks| ==> ks[i] in rows
    ensures |users| == |ks|
    ensures forall i :: 0 <= i < |ks| ==> users[i] == rows[ks[i]]
  {
    seq(|ks|, i requires 0 <= i < |ks| => rows[ks[i]])
  }

  /** Looking up a listing of the keys lists every row, newest first. */
  lemma ListedRows(rows: map<int, User>, ks: seq<int>, users: seq<User>)
    requires forall i :: 0 <= i < |ks| ==> ks[i] in rows
    requires forall k :: k in rows ==> k in ks
    requires forall i, j :: 0 <= i < j < |ks| ==> Before(rows[ks[i]], ks[i], rows[ks[j]], ks[j])
    requires |ks| == |rows|
    requires |users| == |ks| && forall i :: 0 <= i < |ks| ==> users[i] == rows[ks[i]]
    ensures |users| == |rows|
    ensures IdsMatch(rows) ==> forall i :: 0 <= i < |users| ==> users[i].id in rows && rows[users[i].id] == users[i]
    ensures forall k :: k in rows ==> rows[k] in users
    ensures forall i, j :: 0 <= i < j < |users| ==> users[i].createdAt >= users[j].createdAt
    ensures rows == map[] ==> users == []
  {
    assert rows == map[] ==> users == [] by {
      if rows == map[] {
        assert |users| == 0;
      }
    }
    forall k | k in rows ensures rows[k] in users {
      var i :| 0 <= i < |ks| && ks[i] == k;
      assert users[i] == rows[k];
    }
    forall i, j | 0 <= i < j < |users| ensures users[i].createdAt >= users[j].createdAt {
      assert Before(rows[ks[i]], ks[i], rows[ks[j]], ks[j]);
    }
  }

  // ---------------------------------------------------------------------
  // SELECT * FROM users WHERE email = ?

  /** The first user of a listing with this email. */
  function FirstWithEmail(users: seq<User>, email: string): (r: Option<User>)
    ensures r.None? <==> forall i :: 0 <= i < |users| ==> users[i].email != email
    ensures r.Some? ==> r.value in users && r.value.email == email
  {
    if users == [] then None
    else if users[0].email == email then Some(users[0])
    else
      var r := FirstWithEmail(users[1..], email);
      assert forall i :: 1 <= i < |users| ==> users[i] == users[1..][i - 1];
      r
  }

  /**
   * findByEmail: a row with this email, or None when there is none. The
   * statement has no ORDER BY, so which of several matching rows comes back
   * is open; the model takes the first in listing order.
   */
  function FindByEmail(rows: map<int, User>, email: string): (r: Option<User>)
    ensures r.None? <==> !EmailTaken(rows, email)
    ensures r.Some? ==> r.value in rows.Values && r.value.email == email
  {
    var r := FirstWithEmail(FindAll(rows), email);
    NoMatchMeansFree(rows, email);
    MatchIsRow(rows, email);
    r
  }

  /** When no listed user has the email, no row has it. */
  lemma NoMatchMeansFree(rows: map<int, User>, email: string)
    ensures FirstWithEmail(FindAll(rows), email).None? ==> !EmailTaken(rows, email)
  {
    var users := FindAll(rows);
    if FirstWithEmail(users, email).None? {
      forall k | k in rows ensures rows[k].email != email {
        var i :| 0 <= i < |users| && users[i] == rows[k];
      }
    }
  }

  /** A listed user with the email is a row with the email. */
  lemma MatchIsRow(rows: map<int, User>, email: string)
    ensures var r := FirstWithEmail(FindAll(rows), email);
      r.Some? ==> r.value in rows.Values && r.value.email == email && EmailTaken(rows, email)
  {
    var users := FindAll(rows);
    var r := FirstWithEmail(users, email);
    if r.Some? {
      var i :| 0 <= i < |users| && users[i] == r.value;
      var ks := ListingKeys(rows);
      assert ks[i] in rows && rows[ks[i]] == r.value;
    }
  }

  // ---------------------------------------------------------------------
  // UPDATE users SET <fields> WHERE id = ?

  /** A column an UPDATE may assign. */
  datatype Column = NameColumn | EmailColumn | PasswordColumn

  /** A bound statement parameter: `string | number`. */
  datatype SqlValue = Text(text: string) | Number(number: int)

  /** The position of a column in the builder's fixed order name, email, password. */
  function Rank(c: Column): nat
  {
    match c
    case NameColumn => 0
    case EmailColumn => 1
    case PasswordColumn => 2
  }

  /** The update body's field for a column. */
  function FieldOf(data: UpdateUserData, c: Column): Option<string>
  {
    match c
    case NameColumn => data.name
    case EmailColumn => data.email
    case PasswordColumn => data.password
  }

  /** A row's value in a column. */
  function Get(u: User, c: Column): string
  {
    match c
    case NameColumn => u.name
    case EmailColumn => u.email
    case PasswordColumn => u.password
  }

  /** The assignment `c = s` applied to one row. */
  function Assign(u: User, c: Column, s: string): User
  {
    match c
    case NameColumn => u.(name := s)
    case EmailColumn => u.(email := s)
    case PasswordColumn => u.(password := s)
  }

  /**
   * What the builder promises: a field per supplied (truthy) column, in the
   * fixed order, values lined up with fields by position, and the id as the
   * one extra, final value for `WHERE id = ?`.
   */
  predicate IsUpdateStatement(id: int, data: UpdateUserData, fields: seq<Column>, values: seq<SqlValue>)
  {
    && (forall c :: c in fields <==> Supplied(FieldOf(data, c)))
    && (forall i, j :: 0 <= i < j < |fields| ==> Rank(fields[i]) < Rank(fields[j]))
    && |values| == |fields| + 1
    && (forall i :: 0 <= i < |fields| ==> values[i] == Text(FieldOf(data, fields[i]).value))
    && values[|fields|] == Number(id)
  }

  /** The builder's state once the columns ranked below `n` have been considered. */
  ghost predicate BuiltBelow(data: UpdateUserData, fields: seq<Column>, values: seq<SqlValue>, n: nat)
  {
    && (forall c :: c in fields <==> Rank(c) < n && Supplied(FieldOf(data, c)))
    && (forall i, j :: 0 <= i < j < |fields| ==> Rank(fields[i]) < Rank(fields[j]))
    && (forall i :: 0 <= i < |fields| ==> Rank(fields[i]) < n)
    && |values| == |fields|
    && (forall i :: 0 <= i < |fields| ==> values[i] == Text(FieldOf(data, fields[i]).value))
  }

  /** Considering column `c` next extends the builder's state by that column. */
  lemma BuildStep(data: UpdateUserData, fields: seq<Column>, values: seq<SqlValue>, c: Column)
    requires BuiltBelow(data, fields, values, Rank(c))
    ensures Supplied(FieldOf(data, c)) ==>
      BuiltBelow(data, fields + [c], values + [Text(FieldOf(data, c).value)], Rank(c) + 1)
    ensures !Supplied(FieldOf(data, c)) ==> BuiltBelow(data, fields, values, Rank(c) + 1)
  {
    forall d | Rank(d) == Rank(c) ensures d == c {
      match d
      case NameColumn =>
      case EmailColumn =>
      case PasswordColumn =>
    }
    if Supplied(FieldOf(data, c)) {
      var fs, vs := fields + [c], values + [Text(FieldOf(data, c).value)];
      forall i | 0 <= i < |fs| ensures vs[i] == Text(FieldOf(data, fs[i]).value) {
        if i < |fields| {
          assert fs[i] == fields[i] && vs[i] == values[i];
        }
      }
    }
  }

  /** The dynamic field/value builder of `update`. */
  method BuildUpdate(id: int, data: UpdateUserData) returns (fields: seq<Column>, values: seq<SqlValue>)
    ensures IsUpdateStatement(id, data, fields, values)
    ensures fields == [] <==> NoneSupplied(data)
  {
    fields, values := [], [];
    BuildStep(data, fields, values, NameColumn);
    if Supplied(data.name) {
      fields, values := fields + [NameColumn], values + [Text(data.name.value)];
    }
    BuildStep(data, fields, values, EmailColumn);
    if Supplied(data.email) {
      fields, values := fields + [EmailColumn], values + [Text(data.email.value)];
    }
    BuildStep(data, fields, values, PasswordColumn);
    if Supplied(data.password) {
      fields, values := fields + [PasswordColumn], values + [Text(data.password.value)];
    }
    BuiltIsUpdate(id, data, fields, values);
    values := values + [Number(id)];
  }

  /** Once every column is considered, appending the id gives the UPDATE statement. */
  lemma BuiltIsUpdate(id: int, data: UpdateUserData, fields: seq<Column>, values: seq<SqlValue>)
    requires BuiltBelow(data, fields, values, Rank(PasswordColumn) + 1)
    ensures IsUpdateStatement(id, data, fields, values + [Number(id)])
    ensures fields == [] <==> NoneSupplied(data)
  {
    forall c ensures Rank(c) < 3 {
      match c
      case NameColumn =>
      case EmailColumn =>
      case PasswordColumn =>
    }
    if fields != [] {
      assert fields[0] in fields;
      assert Supplied(FieldOf(data, fields[0]));
    }
    if fields == [] {
      assert !Supplied(FieldOf(data, NameColumn)) && !Supplied(FieldOf(data, EmailColumn));
      assert !Supplied(FieldOf(data, PasswordColumn));
    }
  }

  /** The store executing `SET f1 = v1, f2 = v2, ...` on one row, left to right. */
  function ApplySet(u: User, fields: seq<Column>, values: seq<SqlValue>): User
    requires |values| >= |fields|
    requires forall i :: 0 <= i < |fields| ==> values[i].Text?
    decreases |fields|
  {
    if fields == [] then u
    else ApplySet(Assign(u, fields[0], values[0].text), fields[1..], values[1..])
  }

  /** With distinct fields, each assigned column ends up with its own value and nothing else moves. */
  lemma {:induction false} ApplySetColumns(u: User, fields: seq<Column>, values: seq<SqlValue>)
    requires |values| >= |fields|
    requires forall i :: 0 <= i < |fields| ==> values[i].Text?
    requires forall i, j :: 0 <= i < j < |fields| ==> fields[i] != fields[j]
    ensures forall i :: 0 <= i < |fields| ==> Get(ApplySet(u, fields, values), fields[i]) == values[i].text
    ensures forall c :: c !in fields ==> Get(ApplySet(u, fields, values), c) == Get(u, c)
    ensures var v := ApplySet(u, fields, values);
      v.id == u.id && v.createdAt == u.createdAt && v.updatedAt == u.updatedAt
    decreases |fields|
  {
    if fields != [] {
      var u' := Assign(u, fields[0], values[0].text);
      var fs, vs := fields[1..], values[1..];
      assert forall i :: 1 <= i < |fields| ==> fields[i] == fs[i - 1] && values[i] == vs[i - 1];
      ApplySetColumns(u', fs, vs);
      assert fields[0] !in fs by {
        assert forall i :: 0 <= i < |fs| ==> fs[i] == fields[i + 1] != fields[0];
      }
      forall c | c !in fields ensures Get(ApplySet(u, fields, values), c) == Get(u, c) {
        assert c != fields[0] && c !in fs;
      }
    }
  }

  /**
   * `ON UPDATE CURRENT_TIMESTAMP`: updated_at becomes `now` when the
   * statement actually changes a column value, and is kept otherwise.
   */
  function Stamped(before: User, after: User, now: Timestamp): User
  {
    if after == before then after else after.(updatedAt := now)
  }

  /**
   * The row a partial update leaves behind, as the data model describes
   * it: each supplied field takes its new value, every other column keeps
   * its old one, and updated_at is refreshed when something changed.
   */
  function Patched(u: User, data: UpdateUserData, now: Timestamp): User
  {
    Stamped(u, Merged(u, data), now)
  }

  /** The row with each supplied field of the body written over it, updated_at untouched. */
  function Merged(u: User, data: UpdateUserData): User
  {
    User(
      u.id,
      if Supplied(data.name) then data.name.value else u.name,
      if Supplied(data.email) then data.email.value else u.email,
      if Supplied(data.password) then data.password.value else u.password,
      u.createdAt,
      u.updatedAt)
  }

  /** Re-sending a row's current name changes nothing, so updated_at keeps its old value. */
  lemma SameNameKeepsRow(u: User, now: Timestamp)
    ensures Patched(u, UpdateUserData(Some(u.name), None, None), now) == u
  {
  }

  /** A supplied name that differs from the current one moves updated_at to `now`. */
  lemma NewNameStampsRow(u: User, name: string, now: Timestamp)
    requires name != "" && name != u.name
    ensures Patched(u, UpdateUserData(Some(name), None, None), now).updatedAt == now
  {
  }

  /** Executing the built statement on a row gives exactly the partial update. */
  lemma UpdateStatementPatches(u: User, id: int, data: UpdateUserData, fields: seq<Column>, values: seq<SqlValue>, now: Timestamp)
    requires IsUpdateStatement(id, data, fields, values)
    ensures Stamped(u, ApplySet(u, fields, values), now) == Patched(u, data, now)
  {
    ApplySetColumns(u, fields, values);
    var v, m := ApplySet(u, fields, values), Merged(u, data);
    forall c ensures Get(v, c) == Get(m, c) {
      if c in fields {
        var i :| 0 <= i < |fields| && fields[i] == c;
      }
    }
    assert v.name == Get(v, NameColumn) == Get(m, NameColumn);
    assert v.email == Get(v, EmailColumn) == Get(m, EmailColumn);
    assert v.password == Get(v, PasswordColumn) == Get(m, PasswordColumn);
    assert v == m;
  }

  /** The error the store raises for `UPDATE users SET  WHERE id = ?` (an empty SET list). */
  const SqlSyntaxError: Error := UnexpectedError("ER_PARSE_ERROR")

  // ---------------------------------------------------------------------
  // The table and the statements that write to it.

  class UserTable {
    /** The rows of `users`, by id. */
    var rows: map<int, User>
    /** The next AUTO_INCREMENT value. */
    var nextId: int

    /** Rows sit under their own ids, and every id is below the counter, so the counter is fresh. */
    ghost predicate Valid()
      reads this
    {
      && nextId >= 1
      && IdsMatch(rows)
      && forall k :: k in rows ==> 1 <= k < nextId
    }

    /** An empty table whose first id will be 1. */
    constructor ()
      ensures Valid()
      ensures rows == map[] && nextId == 1
    {
      rows := map[];
      nextId := 1;
    }

    /** create: INSERT the row, then read it back by the generated id. */
    method Create(data: CreateUserData, now: Timestamp) returns (user: User)
      requires Valid()
      modifies this
      ensures Valid()
      ensures old(nextId) !in old(rows)
      ensures user == User(old(nextId), data.name, data.email, data.password, now, now)
      ensures rows == old(rows)[user.id := user]
      ensures nextId > old(nextId)
    {
      var insertId := nextId;
      rows := rows[insertId := User(insertId, data.name, data.email, data.password, now, now)];
      nextId := nextId + 1;
      user := FindById(rows, insertId).value;
    }

    /**
     * update: build the SET list, execute it against the row with this id,
     * then read the row back (None when no row has that id). With nothing
     * supplied the statement is malformed and the store rejects it.
     */
    method Update(id: int, data: UpdateUserData, now: Timestamp) returns (r: Result<Option<User>, Error>)
      requires Valid()
      modifies this
      ensures Valid()
      ensures nextId == old(nextId)
      ensures r.Failure? <==> NoneSupplied(data)
      ensures r.Failure? ==> r.error == SqlSyntaxError && rows == old(rows)
      ensures r.Success? ==> rows == if id in old(rows) then old(rows)[id := Patched(old(rows)[id], data, now)] else old(rows)
      ensures r.Success? ==> r.value == FindById(rows, id)
    {
      var fields, values := BuildUpdate(id, data);
      if fields == [] {
        return Failure(SqlSyntaxError);
      }
      var target := values[|fields|].number;
      if target in rows {
        UpdateStatementPatches(rows[target], id, data, fields, values, now);
        rows := rows[target := Stamped(rows[target], ApplySet(rows[target], fields, values), now)];
      }
      r := Success(FindById(rows, id));
    }

    /** delete: remove the row with this id; an absent id changes nothing and is no error. */
    method Delete(id: int)
      requires Valid()
      modifies this
      ensures Valid()
      ensures nextId == old(nextId)
      ensures rows == old(rows) - {id}
      ensures id !in old(rows) ==> rows == old(rows)
    {
      rows := rows - {id};
    }
  }
}
