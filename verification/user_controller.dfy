/**
 * `controleur/userController.js`: login, account creation, deletion and
 * modification. `jwt.sign` is the parameter `sign`; the signing key and the
 * one-day expiry are its business.
 */
module UserController {
  import opened Wrappers
  import opened Tables
  import opened Http
  import EventDB
  import UserDB

  // ---------------------------------------------------------------------
  // login
  // ---------------------------------------------------------------------

  /** The token payload for an account: its type, and the row's public fields with the e-mail the request gave. */
  function PayloadOf(account: UserDB.Account, email: Value): Payload {
    var u := account.value;
    Payload(account.userType, UserValue(Some(u.userId), u.firstName, u.name, u.birthDate, email, u.photoPath))
  }

  /** The login handler over a given `getUser`. */
  function LoginWith(db: Db, email: Option<Value>, password: Option<Value>, sign: Payload -> string,
                     getUser: (Value, Value) -> Result<UserDB.Account>): Response
  {
    if email.None? || password.None? then Response(db, Status(400))
    else
      match getUser(email.value, password.value)
      case Err(_) => Response(db, Status(500))
      case Ok(account) => Response(db, Token(sign(PayloadOf(account, email.value))))
  }

  /**
   * `login` as written: 400 without an e-mail or a password, 500 when the
   * credentials do not check out, otherwise a token whose status is always
   * "user".
   */
  function LoginAsWritten(db: Db, email: Option<Value>, password: Option<Value>,
                          compareHash: (Value, Value) -> bool, sign: Payload -> string): (r: Response)
    ensures r.db == db
    ensures r.reply == Status(400) <==> email.None? || password.None?
    ensures r.reply.Token? <==>
              email.Some? && password.Some? && UserDB.Authenticate(db, email.value, password.value, compareHash).Ok?
    ensures !r.reply.Token? && r.reply != Status(400) ==> r.reply == Status(500)
    ensures r.reply.Token? ==>
              var u := UserDB.Authenticate(db, email.value, password.value, compareHash).value;
              r.reply.token == sign(Payload("user", UserValue(Some(u.userId), u.firstName, u.name, u.birthDate, email.value, u.photoPath)))
  {
    LoginWith(db, email, password, sign, (e, p) => UserDB.GetUserAsWritten(db, e, p, compareHash))
  }

  /** `login` over the `getUser` that reads the first row's `isadmin`: administrators get an "admin" token. */
  function Login(db: Db, email: Option<Value>, password: Option<Value>,
                 compareHash: (Value, Value) -> bool, sign: Payload -> string): (r: Response)
    ensures r.db == db
    ensures r.reply == Status(400) <==> email.None? || password.None?
    ensures r.reply.Token? <==>
              email.Some? && password.Some? && UserDB.Authenticate(db, email.value, password.value, compareHash).Ok?
    ensures !r.reply.Token? && r.reply != Status(400) ==> r.reply == Status(500)
    ensures r.reply.Token? ==>
              var u := UserDB.Authenticate(db, email.value, password.value, compareHash).value;
              r.reply.token == sign(Payload(if u.isAdmin then "admin" else "user",
                                            UserValue(Some(u.userId), u.firstName, u.name, u.birthDate, email.value, u.photoPath)))
  {
    LoginWith(db, email, password, sign, (e, p) => UserDB.GetUser(db, e, p, compareHash))
  }

  // ---------------------------------------------------------------------
  // addUser
  // ---------------------------------------------------------------------

  /**
   * `addUser`: the insertion committed with 201, or rolled back with 500 (a
   * taken e-mail). A rollback does not return the key the row drew from
   * the sequence, so the next account skips it.
   */
  function AddUser(db: Db, firstName: Value, lastName: Value, birthDate: Value, email: Value, password: Value,
                   photoPath: Value, toDate: Value -> Value, hash: Value -> Value): (r: Response)
    ensures r.reply == Status(201) || r.reply == Status(500)
    ensures r.reply == Status(500) <==> exists i :: 0 <= i < |db.users| && TextEquals(db.users[i].email, email)
    ensures r.reply == Status(500) ==> r.db == db.(nextId := db.nextId + 1)
    ensures r.reply == Status(201) ==>
              && |r.db.users| == |db.users| + 1 && r.db.users[..|db.users|] == db.users
              && r.db.users[|db.users|].userId == db.nextId
              && !r.db.users[|db.users|].isAdmin && r.db.users[|db.users|].password == hash(password)
              && r.db.users[|db.users|].email == TextCell(email)
  {
    match UserDB.AddUser(db, firstName, lastName, birthDate, email, password, photoPath, toDate, hash)
    case Err(_) => Response(db.(nextId := db.nextId + 1), Status(500))
    case Ok(d) => Response(d, Status(201))
  }

  /**
   * A sign-up with the e-mail of account `k`, then one with a new e-mail.
   * The first fails exactly when account `k` has an e-mail (a NULL one is
   * never a duplicate). When it fails, the transaction does not keep the
   * key sequence gap-free: the new account gets the key after the one the
   * failed sign-up drew.
   */
  lemma FailedSignUpSkipsKey(db: Db, k: nat, firstName: Value, lastName: Value, birthDate: Value, email: Value,
                             password: Value, photoPath: Value, toDate: Value -> Value, hash: Value -> Value)
    requires k < |db.users|
    requires forall i :: 0 <= i < |db.users| ==> !TextEquals(db.users[i].email, email)
    ensures var r1 := AddUser(db, firstName, lastName, birthDate, db.users[k].email, password, photoPath, toDate, hash);
            var r2 := AddUser(r1.db, firstName, lastName, birthDate, email, password, photoPath, toDate, hash);
            && (r1.reply == Status(500) <==> !db.users[k].email.Null?)
            && (r1.reply == Status(500) ==> r2.reply == Status(201) && r2.db.users[|db.users|].userId == db.nextId + 1)
  {
    var e := db.users[k].email;
    var r1 := AddUser(db, firstName, lastName, birthDate, e, password, photoPath, toDate, hash);
    if !e.Null? {
      assert TextEquals(db.users[k].email, e);
      assert r1.reply == Status(500);
      assert r1.db.users == db.users;
    }
  }

  /** Two sign-ups without an e-mail both succeed: a unique index never finds two NULLs equal. */
  lemma NullEmailSignsUpTwice(db: Db, firstName: Value, lastName: Value, birthDate: Value, password: Value,
                              photoPath: Value, toDate: Value -> Value, hash: Value -> Value)
    ensures var r1 := AddUser(db, firstName, lastName, birthDate, Null, password, photoPath, toDate, hash);
            var r2 := AddUser(r1.db, firstName, lastName, birthDate, Null, password, photoPath, toDate, hash);
            && r1.reply == Status(201) && r2.reply == Status(201)
            && r2.db.users[|db.users|].email == Null && r2.db.users[|db.users| + 1].email == Null
  {
  }

  /** A number as e-mail is taken by an account whose e-mail is that number's text. */
  lemma NumberEmailTaken(db: Db, k: nat, n: int, firstName: Value, lastName: Value, birthDate: Value, password: Value,
                         photoPath: Value, toDate: Value -> Value, hash: Value -> Value)
    requires k < |db.users| && db.users[k].email == Str(ShowInt(n))
    ensures AddUser(db, firstName, lastName, birthDate, Int(n), password, photoPath, toDate, hash).reply == Status(500)
  {
    assert TextEquals(db.users[k].email, Int(n));
  }

  /** Whether an account already uses the e-mail: `getUserByEmail`'s `WHERE email = $1` finds a row. */
  predicate EmailTaken(db: Db, email: Value) {
    FirstMatch(db.users, (u: UserRow) => TextEquals(u.email, email)).Some?
  }

  /**
   * `addUser` looking the e-mail up before inserting: a taken e-mail is
   * refused with 500 before any key is drawn, and otherwise the account is
   * created as before.
   */
  function AddUserChecked(db: Db, firstName: Value, lastName: Value, birthDate: Value, email: Value, password: Value,
                          photoPath: Value, toDate: Value -> Value, hash: Value -> Value): (r: Response)
    ensures r.reply == Status(500) <==> exists i :: 0 <= i < |db.users| && TextEquals(db.users[i].email, email)
    ensures r.reply == Status(500) ==> r.db == db
    ensures r.reply != Status(500) ==> r == AddUser(db, firstName, lastName, birthDate, email, password, photoPath, toDate, hash)
  {
    if EmailTaken(db, email) then Response(db, Status(500))
    else AddUser(db, firstName, lastName, birthDate, email, password, photoPath, toDate, hash)
  }

  /** A checked sign-up with an e-mail no account uses creates the account under the next key. */
  lemma CheckedFreshEmail(db: Db, firstName: Value, lastName: Value, birthDate: Value, email: Value,
                          password: Value, photoPath: Value, toDate: Value -> Value, hash: Value -> Value)
    requires forall i :: 0 <= i < |db.users| ==> !TextEquals(db.users[i].email, email)
    ensures var r := AddUserChecked(db, firstName, lastName, birthDate, email, password, photoPath, toDate, hash);
            r.reply == Status(201) && r.db.users[|db.users|].userId == db.nextId
  {
  }

  /**
   * With the e-mail looked up first, a sign-up with account `k`'s e-mail is
   * refused with the store untouched exactly when that e-mail is not NULL,
   * and then the next account gets the key it would have drawn.
   */
  lemma CheckedSignUpKeepsKeys(db: Db, k: nat, firstName: Value, lastName: Value, birthDate: Value, email: Value,
                               password: Value, photoPath: Value, toDate: Value -> Value, hash: Value -> Value)
    requires k < |db.users|
    requires forall i :: 0 <= i < |db.users| ==> !TextEquals(db.users[i].email, email)
    ensures var r1 := AddUserChecked(db, firstName, lastName, birthDate, db.users[k].email, password, photoPath, toDate, hash);
            var r2 := AddUserChecked(r1.db, firstName, lastName, birthDate, email, password, photoPath, toDate, hash);
            && (r1 == Response(db, Status(500)) <==> !db.users[k].email.Null?)
            && (r1 == Response(db, Status(500)) ==> r2.reply == Status(201) && r2.db.users[|db.users|].userId == db.nextId)
  {
    var e := db.users[k].email;
    var r1 := AddUserChecked(db, firstName, lastName, birthDate, e, password, photoPath, toDate, hash);
    if !e.Null? {
      assert r1 == Response(db, Status(500)) by {
        assert TextEquals(db.users[k].email, e);
      }
      CheckedFreshEmail(db, firstName, lastName, birthDate, email, password, photoPath, toDate, hash);
    } else {
      CheckedFreshEmail(db, firstName, lastName, birthDate, e, password, photoPath, toDate, hash);
    }
  }

  /**
   * A new account can log in at once with its password, and its token says
   * "user": accounts are created without administrator rights. An account
   * created without an e-mail cannot log in: no row matches a NULL e-mail,
   * and reading the missing row throws.
   */
  lemma SignUpThenLogin(db: Db, firstName: Value, lastName: Value, birthDate: Value, email: Value, password: Value,
                        photoPath: Value, toDate: Value -> Value, hash: Value -> Value,
                        compareHash: (Value, Value) -> bool, sign: Payload -> string)
    requires AddUser(db, firstName, lastName, birthDate, email, password, photoPath, toDate, hash).reply == Status(201)
    requires compareHash(password, hash(password))
    ensures var d := AddUser(db, firstName, lastName, birthDate, email, password, photoPath, toDate, hash).db;
            var u := d.users[|db.users|];
            && (!email.Null? ==>
                  Login(d, Some(email), Some(password), compareHash, sign).reply ==
                    Token(sign(Payload("user", UserValue(Some(u.userId), u.firstName, u.name, u.birthDate, email, u.photoPath)))))
            && (email.Null? ==> Login(d, Some(email), Some(password), compareHash, sign).reply == Status(500))
            && u.userId == db.nextId
  {
    UserDB.AddThenAuthenticate(db, firstName, lastName, birthDate, email, password, photoPath, toDate, hash, compareHash);
  }

  // ---------------------------------------------------------------------
  // deleteUser
  // ---------------------------------------------------------------------

  /**
   * `deleteUser` as written: `deleteUsersEvent` is not defined in the event
   * model module, so the first call after BEGIN throws, the handler rolls
   * back, and every request answers 404.
   */
  function DeleteUserAsWritten(db: Db, id: RawId): (r: Response)
    ensures r == Response(db, Status(404))
  {
    Response(db, Status(404))
  }

  /**
   * `deleteUser` with `deleteUsersEvent` defined: the user's events with
   * what refers to them, then the user, committed with 204. A non-numeric
   * id makes the first statement fail: rollback and 404.
   */
  function DeleteUser(db: Db, id: RawId): (r: Response)
    ensures r.reply == Status(204) || r.reply == Status(404)
    ensures r.reply == Status(404) <==> IsNaN(id)
    ensures r.reply == Status(404) ==> r.db == db
    ensures r.reply == Status(204) ==>
              && r.db.categories == db.categories && r.db.nextId == db.nextId
              && (forall u :: u in r.db.users <==> u in db.users && u.userId != id.n)
              && (forall ev :: ev in r.db.events <==> ev in db.events && ev.creatorId != id.n)
              && (forall a :: a in r.db.addresses <==> a in db.addresses && a.addressId !in EventDB.OwnedPlaces(db.events, id.n))
              && (forall m :: m in r.db.messages <==> m in db.messages && m.eventId !in EventDB.OwnedIds(db.events, id.n))
              && (forall x :: x in r.db.inscriptions <==> x in db.inscriptions && x.eventId !in EventDB.OwnedIds(db.events, id.n))
  {
    match id
    case NonNumeric(_) => Response(db, Status(404))
    case Numeric(n) =>
      var d1 := EventDB.DeleteUsersEvent(db, n);
      assert EventDB.OwnedPlaces(d1.events, n) == {} by {
        forall k | 0 <= k < |d1.events| ensures d1.events[k].creatorId != n {
          assert d1.events[k] in d1.events;
        }
      }
      Response(UserDB.DeleteUser(d1, n), Status(204))
  }

  /**
   * An existing user's account: as written its deletion answers 404 and
   * keeps the user, where the handler with `deleteUsersEvent` defined
   * removes the user with 204.
   */
  lemma DeleteUserThrows(db: Db, k: nat)
    requires k < |db.users|
    ensures DeleteUserAsWritten(db, Numeric(db.users[k].userId)).db.users[k] == db.users[k]
    ensures DeleteUserAsWritten(db, Numeric(db.users[k].userId)).reply == Status(404)
    ensures var r := DeleteUser(db, Numeric(db.users[k].userId));
            r.reply == Status(204) && db.users[k] !in r.db.users
  {
    assert db.users[k] in db.users;
  }

  // ---------------------------------------------------------------------
  // modifyUser
  // ---------------------------------------------------------------------

  /** The body of a user modification; `None` is a field left `undefined`. */
  datatype UserChanges = UserChanges(
    firstName: Option<Value>, name: Option<Value>, birthDate: Option<Value>, password: Option<Value>, photoPath: Option<Value>)

  /** `doUpdate`: one of the five fields is defined. */
  predicate AnyChange(c: UserChanges) {
    c.firstName.Some? || c.name.Some? || c.birthDate.Some? || c.password.Some? || c.photoPath.Some?
  }

  /** The key a path id stands for once written into the `WHERE` text: none when it is not a number. */
  function KeyOf(id: RawId): Option<int> {
    match id
    case Numeric(n) => Some(n)
    case NonNumeric(_) => None
  }

  /**
   * `modifyUser` as written. The path id is compared with
   * `req.session.id`, which the session does not have, so only
   * administrators pass. `pool.connect()` is not awaited, so the model call
   * receives a promise, its `client.query` throws, and the reply is 500:
   * the store never changes.
   */
  function ModifyUserAsWritten(db: Db, session: Session, id: RawId, c: UserChanges): (r: Response)
    ensures r.db == db
    ensures r.reply == Status(403) <==> session.authLevel != "admin"
    ensures r.reply == Status(400) <==> session.authLevel == "admin" && !AnyChange(c)
    ensures session.authLevel == "admin" && AnyChange(c) ==> r.reply == Status(500)
  {
    // `req.session.id` is undefined, which no path id equals
    if session.authLevel != "admin" then Response(db, Status(403))
    else if !AnyChange(c) then Response(db, Status(400))
    else Response(db, Status(500))
  }

  /**
   * `modifyUser` comparing the path id with `session.userid` and using the
   * connection it awaited: the user changes their own account, or an
   * administrator any account.
   */
  function ModifyUser(db: Db, session: Session, id: RawId, c: UserChanges, hash: Value -> Value): (r: Response)
    ensures r.reply == Status(403) <==> !(KeyOf(id).Some? && KeyOf(id) == session.UserId()) && session.authLevel != "admin"
    ensures r.reply != Status(403) ==> (r.reply == Status(400) <==> !AnyChange(c))
    ensures r.reply != Status(204) ==> r.db == db
    ensures r.reply == Status(204) <==>
              (KeyOf(id) == session.UserId() || session.authLevel == "admin") && AnyChange(c) && id.Numeric?
    ensures r.reply == Status(204) ==>
              && UserDB.OnlyUsersChange(db, r.db) && |r.db.users| == |db.users|
              && forall i :: 0 <= i < |db.users| ==>
                   r.db.users[i] == if db.users[i].userId == id.n
                                    then UserDB.UserPatch(db.users[i], c.firstName, c.name, c.birthDate, c.password, c.photoPath, hash)
                                    else db.users[i]
  {
    var reqId := session.UserId();
    if !(KeyOf(id).Some? && KeyOf(id) == reqId) && session.authLevel != "admin" then Response(db, Status(403))
    else if !AnyChange(c) then Response(db, Status(400))
    else
      match UserDB.ModifyUser(db, KeyOf(id), c.firstName, c.name, c.birthDate, c.password, c.photoPath, hash)
      case Err(_) => Response(db, Status(500))
      case Ok(d) => Response(d, Status(204))
  }

  /** A user may change their own password, and only its hash is stored. */
  lemma OwnPasswordChange(db: Db, session: Session, k: nat, password: Value, hash: Value -> Value)
    requires k < |db.users| && session.UserId() == Some(db.users[k].userId)
    ensures var r := ModifyUser(db, session, Numeric(db.users[k].userId), UserChanges(None, None, None, Some(password), None), hash);
            && r.reply == Status(204) && r.db.users[k].password == hash(password)
            && r.db.users[k].email == db.users[k].email
  {
  }
}
