/**
 * `modele/userDB.js`: the partial update of a user, account creation,
 * deletion, the existence test and the credential check behind login.
 * `getHash` and `compareHash` come from a utility module that is not part
 * of this model; they are parameters.
 */
module UserDB {
  import opened Wrappers
  import opened Tables
  import opened SqlUpdate
  import opened EventDB

  const UserColumns: set<string> := {"firstName", "name", "birthDate", "password", "photoPath"}

  /** The five updatable columns take any value. */
  predicate UserAccepts(column: string, v: Value) {
    column in UserColumns
  }

  function UserAssign(row: UserRow, column: string, v: Value): UserRow {
    if column == "firstName" then row.(firstName := v)
    else if column == "name" then row.(name := v)
    else if column == "birthDate" then row.(birthDate := v)
    else if column == "password" then row.(password := v)
    else if column == "photoPath" then row.(photoPath := v)
    else row
  }

  function UserKey(row: UserRow): int {
    row.userId
  }

  /** Every table but `users` is as it was. */
  predicate OnlyUsersChange(db: Db, r: Db) {
    r == db.(users := r.users)
  }

  /** The value pushed for the password: its hash, computed only when a password is given. */
  function Hashed(password: Option<Value>, hash: Value -> Value): Option<Value> {
    if password.Some? then Some(hash(password.value)) else None
  }

  /** The builder's arguments in the order it tests them. */
  function UserFields(firstName: Option<Value>, name: Option<Value>, birthDate: Option<Value>,
                      password: Option<Value>, photoPath: Option<Value>, hash: Value -> Value): seq<Field> {
    [Field("firstName", firstName), Field("name", name), Field("birthDate", birthDate),
     Field("password", Hashed(password, hash)), Field("photoPath", photoPath)]
  }

  /** `modifyUser`'s query: the built SET list and `WHERE userId = ...` with the id written into the text. */
  function ModifyUserQuery(userId: Option<int>, firstName: Option<Value>, name: Option<Value>, birthDate: Option<Value>,
                           password: Option<Value>, photoPath: Option<Value>, hash: Value -> Value): (q: UpdateQuery)
    ensures q.table == "users" && q.where == Some(Where("userId", userId))
    ensures Numbered(q.clause)
  {
    UpdateQuery("users", SetClauseOf(UserFields(firstName, name, birthDate, password, photoPath, hash)), Some(Where("userId", userId)))
  }

  /**
   * One ` col = $k ` fragment per defined argument, in the order firstName,
   * name, birthDate, password, photoPath, each numbered by its position in
   * `params`; the parameter for the password is its hash.
   */
  lemma ModifyUserLayout(q: UpdateQuery, userId: Option<int>, firstName: Option<Value>, name: Option<Value>,
                         birthDate: Option<Value>, password: Option<Value>, photoPath: Option<Value>, hash: Value -> Value)
    requires q == ModifyUserQuery(userId, firstName, name, birthDate, password, photoPath, hash)
    ensures |q.clause.params| == N(firstName) + N(name) + N(birthDate) + N(password) + N(photoPath)
    ensures firstName.Some? ==> Slot(q.clause, 0, "firstName", firstName.value)
    ensures name.Some? ==> Slot(q.clause, N(firstName), "name", name.value)
    ensures birthDate.Some? ==> Slot(q.clause, N(firstName) + N(name), "birthDate", birthDate.value)
    ensures password.Some? ==> Slot(q.clause, N(firstName) + N(name) + N(birthDate), "password", hash(password.value))
    ensures photoPath.Some? ==> Slot(q.clause, N(firstName) + N(name) + N(birthDate) + N(password), "photoPath", photoPath.value)
  {
    var h := Hashed(password, hash);
    assert N(h) == N(password);
    assert password.Some? ==> h == Some(hash(password.value));
    FiveFieldLayout(UserFields(firstName, name, birthDate, password, photoPath, hash),
                    "firstName", firstName, "name", name, "birthDate", birthDate, "password", h, "photoPath", photoPath);
  }

  /** An undefined argument contributes no fragment. */
  lemma ModifyUserOmits(q: UpdateQuery, userId: Option<int>, firstName: Option<Value>, name: Option<Value>,
                        birthDate: Option<Value>, password: Option<Value>, photoPath: Option<Value>, hash: Value -> Value)
    requires q == ModifyUserQuery(userId, firstName, name, birthDate, password, photoPath, hash)
    ensures firstName.None? ==> Absent(q.clause, "firstName")
    ensures name.None? ==> Absent(q.clause, "name")
    ensures birthDate.None? ==> Absent(q.clause, "birthDate")
    ensures password.None? ==> Absent(q.clause, "password")
    ensures photoPath.None? ==> Absent(q.clause, "photoPath")
  {
    assert |"password"| == 8 && |"photoPath"| == 9;
    assert "firstName"[0] == 'f' && "name"[0] == 'n' && "birthDate"[0] == 'b' && "password"[0] == 'p';
    var fs := UserFields(firstName, name, birthDate, password, photoPath, hash);
    assert fs[0] == Field("firstName", firstName) && fs[1] == Field("name", name);
    assert fs[2] == Field("birthDate", birthDate) && fs[3] == Field("password", Hashed(password, hash));
    assert fs[4] == Field("photoPath", photoPath);
    FiveDistinct(fs);
    FiveFieldAbsent(fs);
  }

  /** The row with every defined argument written, the password as its hash. */
  function UserPatch(row: UserRow, firstName: Option<Value>, name: Option<Value>, birthDate: Option<Value>,
                     password: Option<Value>, photoPath: Option<Value>, hash: Value -> Value): UserRow {
    row.(firstName := firstName.GetOr(row.firstName), name := name.GetOr(row.name), birthDate := birthDate.GetOr(row.birthDate),
         password := if password.Some? then hash(password.value) else row.password,
         photoPath := photoPath.GetOr(row.photoPath))
  }

  lemma UserFieldsShape(firstName: Option<Value>, name: Option<Value>, birthDate: Option<Value>,
                        password: Option<Value>, photoPath: Option<Value>, hash: Value -> Value)
    ensures var fs := UserFields(firstName, name, birthDate, password, photoPath, hash);
            (exists i :: 0 <= i < |fs| && fs[i].value.Some?) <==>
              firstName.Some? || name.Some? || birthDate.Some? || password.Some? || photoPath.Some?
    ensures var fs := UserFields(firstName, name, birthDate, password, photoPath, hash);
            forall i :: 0 <= i < |fs| && fs[i].value.Some? ==> UserAccepts(fs[i].column, fs[i].value.value)
  {
    var fs := UserFields(firstName, name, birthDate, password, photoPath, hash);
    assert fs[0].value == firstName && fs[1].value == name && fs[2].value == birthDate;
    assert fs[3].value == Hashed(password, hash) && fs[4].value == photoPath;
  }

  lemma UserFieldsApply(row: UserRow, firstName: Option<Value>, name: Option<Value>, birthDate: Option<Value>,
                        password: Option<Value>, photoPath: Option<Value>, hash: Value -> Value)
    ensures ApplyFields(row, UserFields(firstName, name, birthDate, password, photoPath, hash), UserAssign)
            == UserPatch(row, firstName, name, birthDate, password, photoPath, hash)
  {
    ApplyFive(row, Field("firstName", firstName), Field("name", name), Field("birthDate", birthDate),
              Field("password", Hashed(password, hash)), Field("photoPath", photoPath), UserAssign);
    assert "firstName"[0] == 'f' && "name"[0] == 'n' && "birthDate"[0] == 'b' && "password"[0] == 'p' && "photoPath"[0] == 'p';
    assert |"password"| == 8 && |"photoPath"| == 9;
    var r1 := Step(row, Field("firstName", firstName), UserAssign);
    assert r1 == if firstName.Some? then row.(firstName := firstName.value) else row;
    var r2 := Step(r1, Field("name", name), UserAssign);
    assert r2 == if name.Some? then r1.(name := name.value) else r1;
    var r3 := Step(r2, Field("birthDate", birthDate), UserAssign);
    assert r3 == if birthDate.Some? then r2.(birthDate := birthDate.value) else r2;
    var r4 := Step(r3, Field("password", Hashed(password, hash)), UserAssign);
    assert r4 == if Hashed(password, hash).Some? then r3.(password := hash(password.value)) else r3;
    var r5 := Step(r4, Field("photoPath", photoPath), UserAssign);
    assert r5 == if photoPath.Some? then r4.(photoPath := photoPath.value) else r4;
  }

  /**
   * `modifyUser`: the user with that id gets every defined argument, the
   * password stored as its hash. It fails with no defined argument and when
   * the id is `undefined`.
   */
  function ModifyUser(db: Db, userId: Option<int>, firstName: Option<Value>, name: Option<Value>, birthDate: Option<Value>,
                      password: Option<Value>, photoPath: Option<Value>, hash: Value -> Value): (r: Result<Db>)
    ensures r.Ok? <==> (firstName.Some? || name.Some? || birthDate.Some? || password.Some? || photoPath.Some?) && userId.Some?
    ensures r.Ok? ==> OnlyUsersChange(db, r.value) && |r.value.users| == |db.users|
    ensures r.Ok? ==> forall i :: 0 <= i < |db.users| ==>
              r.value.users[i] ==
                if db.users[i].userId == userId.value then UserPatch(db.users[i], firstName, name, birthDate, password, photoPath, hash)
                else db.users[i]
  {
    match UserUpdate(db.users, userId, firstName, name, birthDate, password, photoPath, hash)
    case Err(e) => Err(e)
    case Ok(rows) => Ok(db.(users := rows))
  }

  /** `modifyUser`'s query run on the user rows. */
  function UserUpdate(rows: seq<UserRow>, userId: Option<int>, firstName: Option<Value>, name: Option<Value>, birthDate: Option<Value>,
                      password: Option<Value>, photoPath: Option<Value>, hash: Value -> Value): (r: Result<seq<UserRow>>)
    ensures r.Ok? <==> (firstName.Some? || name.Some? || birthDate.Some? || password.Some? || photoPath.Some?) && userId.Some?
    ensures r.Ok? ==> userId.Some? && |r.value| == |rows| && forall i :: 0 <= i < |rows| ==>
              r.value[i] == if rows[i].userId == userId.value then UserPatch(rows[i], firstName, name, birthDate, password, photoPath, hash)
                            else rows[i]
  {
    UserUpdateOk(rows, userId, firstName, name, birthDate, password, photoPath, hash);
    UserUpdateRows(rows, userId, firstName, name, birthDate, password, photoPath, hash);
    ExecUpdate(rows, ModifyUserQuery(userId, firstName, name, birthDate, password, photoPath, hash), UserKey, UserAccepts, UserAssign)
  }

  /** When `modifyUser`'s query succeeds. */
  lemma UserUpdateOk(rows: seq<UserRow>, userId: Option<int>, firstName: Option<Value>, name: Option<Value>, birthDate: Option<Value>,
                     password: Option<Value>, photoPath: Option<Value>, hash: Value -> Value)
    ensures var q := ModifyUserQuery(userId, firstName, name, birthDate, password, photoPath, hash);
            ExecUpdate(rows, q, UserKey, UserAccepts, UserAssign).Ok? <==>
              (firstName.Some? || name.Some? || birthDate.Some? || password.Some? || photoPath.Some?) && userId.Some?
  {
    UserFieldsShape(firstName, name, birthDate, password, photoPath, hash);
    ExecBuilt(rows, "users", UserFields(firstName, name, birthDate, password, photoPath, hash), Some(Where("userId", userId)),
              UserKey, UserAccepts, UserAssign);
  }

  /** What `modifyUser`'s query does to each row when it succeeds. */
  lemma UserUpdateRows(rows: seq<UserRow>, userId: Option<int>, firstName: Option<Value>, name: Option<Value>, birthDate: Option<Value>,
                       password: Option<Value>, photoPath: Option<Value>, hash: Value -> Value)
    ensures var res := ExecUpdate(rows, ModifyUserQuery(userId, firstName, name, birthDate, password, photoPath, hash),
                                  UserKey, UserAccepts, UserAssign);
            res.Ok? ==> userId.Some? && |res.value| == |rows| && forall i :: 0 <= i < |rows| ==>
              res.value[i] == if rows[i].userId == userId.value
                              then UserPatch(rows[i], firstName, name, birthDate, password, photoPath, hash)
                              else rows[i]
  {
    var fs := UserFields(firstName, name, birthDate, password, photoPath, hash);
    ExecBuilt(rows, "users", fs, Some(Where("userId", userId)), UserKey, UserAccepts, UserAssign);
    forall i | 0 <= i < |rows|
      ensures ApplyFields(rows[i], fs, UserAssign) == UserPatch(rows[i], firstName, name, birthDate, password, photoPath, hash)
    {
      UserFieldsApply(rows[i], firstName, name, birthDate, password, photoPath, hash);
    }
  }

  /**
   * `addUser`: one new user under a fresh key, never an administrator, with
   * the hash of the password and the text of the e-mail. An e-mail whose
   * text is already in use makes the insertion fail on the unique
   * constraint, after the row has drawn its key; the handler accounts for
   * that key. A unique index never finds two NULLs equal, so any number of
   * accounts may have no e-mail.
   */
  function AddUser(db: Db, firstName: Value, lastName: Value, birthDate: Value, email: Value, password: Value,
                   photoPath: Value, toDate: Value -> Value, hash: Value -> Value): (r: Result<Db>)
    ensures r.Err? <==> exists i :: 0 <= i < |db.users| && TextEquals(db.users[i].email, email)
    ensures email.Null? ==> r.Ok?
    ensures r.Ok? ==> OnlyUsersChange(db.(nextId := r.value.nextId), r.value) && r.value.nextId == db.nextId + 1
    ensures r.Ok? ==> |r.value.users| == |db.users| + 1 && r.value.users[..|db.users|] == db.users
    ensures r.Ok? ==>
              var u := r.value.users[|db.users|];
              && u.userId == db.nextId && !u.isAdmin && u.password == hash(password) && u.email == TextCell(email)
              && u.firstName == firstName && u.name == lastName && u.birthDate == toDate(birthDate) && u.photoPath == photoPath
  {
    if FirstMatch(db.users, (u: UserRow) => TextEquals(u.email, email)).Some? then Err("duplicate key value violates unique constraint")
    else
      var u := UserRow(db.nextId, firstName, lastName, toDate(birthDate), false, TextCell(email), hash(password), photoPath);
      assert (db.users + [u])[..|db.users|] == db.users;
      Ok(db.(users := db.users + [u], nextId := db.nextId + 1))
  }

  /**
   * `deleteUser`: the addresses of the events the user created, then the
   * user row. The events themselves are not deleted here.
   */
  function DeleteUser(db: Db, userId: int): (r: Db)
    ensures r == db.(addresses := r.addresses, users := r.users)
    ensures forall a :: a in r.addresses <==> a in db.addresses && a.addressId !in OwnedPlaces(db.events, userId)
    ensures forall u :: u in r.users <==> u in db.users && u.userId != userId
  {
    var places := OwnedPlaces(db.events, userId);
    var dropAddress := (a: AddressRow) => a.addressId in places;
    var dropUser := (u: UserRow) => u.userId == userId;
    DeleteSpec(db.addresses, dropAddress);
    DeleteSpec(db.users, dropUser);
    db.(addresses := Delete(db.addresses, dropAddress), users := Delete(db.users, dropUser))
  }

  /** `userExist`: a count of the rows with that id, compared with zero. */
  function UserExist(db: Db, userId: int): (r: bool)
    ensures r <==> exists i :: 0 <= i < |db.users| && db.users[i].userId == userId
  {
    FirstMatch(db.users, (u: UserRow) => u.userId == userId).Some?
  }

  /** What `getUser` returns: the account's type and its row. */
  datatype Account = Account(userType: string, value: UserRow)

  /** Row `i` is the first that `WHERE email = $1` finds for the parameter `email`. */
  predicate FirstWithEmail(users: seq<UserRow>, email: Value, i: int) {
    && 0 <= i < |users| && TextEquals(users[i].email, email)
    && forall j :: 0 <= j < i ==> !TextEquals(users[j].email, email)
  }

  /** Only one row can be the first with a given e-mail. */
  lemma FirstWithEmailUnique(users: seq<UserRow>, email: Value, i: int, k: int)
    requires FirstWithEmail(users, email, i) && FirstWithEmail(users, email, k)
    ensures i == k
  {
  }

  /**
   * The first user with that e-mail whose stored hash matches the password.
   * With no such row `result[0]` is undefined and reading it throws; a
   * mismatch throws "Not connected". A NULL e-mail finds no row, so it
   * always throws.
   */
  function Authenticate(db: Db, email: Value, password: Value, compareHash: (Value, Value) -> bool): (r: Result<UserRow>)
    ensures r.Ok? <==> exists i :: FirstWithEmail(db.users, email, i) && compareHash(password, db.users[i].password)
    ensures r.Ok? ==> r.value in db.users && TextEquals(r.value.email, email) && compareHash(password, r.value.password)
    ensures email.Null? ==> r.Err?
  {
    match FirstMatch(db.users, (u: UserRow) => TextEquals(u.email, email))
    case None =>
      assert forall k :: !FirstWithEmail(db.users, email, k);
      Err("Cannot read properties of undefined (reading 'password')")
    case Some(i) =>
      assert FirstWithEmail(db.users, email, i);
      if compareHash(password, db.users[i].password) then Ok(db.users[i])
      else
        assert forall k | FirstWithEmail(db.users, email, k) :: k == i by {
          forall k | FirstWithEmail(db.users, email, k) ensures k == i {
            FirstWithEmailUnique(db.users, email, i, k);
          }
        }
        Err("Not connected")
  }

  /**
   * `getUser` as written: `userType` reads `isadmin` off the array of rows,
   * which has no such property, so every account is a "user".
   */
  function GetUserAsWritten(db: Db, email: Value, password: Value, compareHash: (Value, Value) -> bool): (r: Result<Account>)
    ensures r.Ok? <==> Authenticate(db, email, password, compareHash).Ok?
    ensures r.Ok? ==> r.value.userType == "user"
    ensures r.Ok? ==> r.value.value == Authenticate(db, email, password, compareHash).value
  {
    match Authenticate(db, email, password, compareHash)
    case Err(e) => Err(e)
    case Ok(row) =>
      // `result.isadmin` reads the rows array, which has no such property
      Ok(Account("user", row))
  }

  /** `getUser` reading `isadmin` off the first row: administrators get "admin". */
  function GetUser(db: Db, email: Value, password: Value, compareHash: (Value, Value) -> bool): (r: Result<Account>)
    ensures r.Ok? <==> Authenticate(db, email, password, compareHash).Ok?
    ensures r.Ok? ==> r.value.value == Authenticate(db, email, password, compareHash).value
    ensures r.Ok? ==> (r.value.userType == "admin" <==> r.value.value.isAdmin)
    ensures r.Ok? ==> r.value.userType == "admin" || r.value.userType == "user"
  {
    match Authenticate(db, email, password, compareHash)
    case Err(e) => Err(e)
    case Ok(row) => Ok(Account(if row.isAdmin then "admin" else "user", row))
  }

  /**
   * An account just created logs in with its password, as a "user",
   * provided the hash check accepts it, exactly when it was given an
   * e-mail: without one no WHERE clause finds it.
   */
  lemma AddThenAuthenticate(db: Db, firstName: Value, lastName: Value, birthDate: Value, email: Value, password: Value,
                            photoPath: Value, toDate: Value -> Value, hash: Value -> Value, compareHash: (Value, Value) -> bool)
    requires AddUser(db, firstName, lastName, birthDate, email, password, photoPath, toDate, hash).Ok?
    requires compareHash(password, hash(password))
    ensures var d := AddUser(db, firstName, lastName, birthDate, email, password, photoPath, toDate, hash).value;
            && (GetUser(d, email, password, compareHash).Ok? <==> !email.Null?)
            && (!email.Null? ==> GetUser(d, email, password, compareHash).value.value == d.users[|db.users|])
            && (!email.Null? ==> GetUser(d, email, password, compareHash).value.userType == "user")
  {
    var d := AddUser(db, firstName, lastName, birthDate, email, password, photoPath, toDate, hash).value;
    var n := |db.users|;
    if !email.Null? {
      CellFound(email);
      assert TextEquals(d.users[n].email, email);
      forall j | 0 <= j < n ensures !TextEquals(d.users[j].email, email) {
        assert d.users[j] == db.users[j];
      }
      assert FirstWithEmail(d.users, email, n);
    }
  }
}
