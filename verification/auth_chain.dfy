/**
 * The chain a request to an administrator route goes through: `getUser`
 * and `login` issue a token, `identification` turns the token presented
 * as `Bearer <token>` back into a session, and `mustBeAdmin` decides.
 */
module AuthChain {
  import opened Wrappers
  import opened Tables
  import opened Http
  import UserDB
  import UserController
  import IdentificationJWT
  import Authorization

  /**
   * `jwt.verify` with the service's key decodes every token `jwt.sign`
   * issued with that key (within its day of validity), and a signed token,
   * three base64url parts joined by dots, holds no space.
   */
  ghost predicate Faithful(sign: Payload -> string, verify: string -> IdentificationJWT.Verdict) {
    forall p :: verify(sign(p)) == IdentificationJWT.Decoded(p.status, Some(p.value)) && ' ' !in sign(p)
  }

  /** The session a presented token yields, and the administrator gate's decision on it. */
  function Present(token: string, verify: string -> IdentificationJWT.Verdict): (r: (IdentificationJWT.Outcome, Authorization.Gate))
    ensures r.0 == IdentificationJWT.Identification(Some("Bearer " + token), verify)
    ensures r.1 == Authorization.Pass <==> r.0.Next? && r.0.session.authLevel == "admin"
    ensures r.0.Next? ==> r.1 == Authorization.MustBeAdmin(Some(r.0.session))
    ensures r.0.Reject? ==> r.1 == Authorization.Refuse(r.0.code)
  {
    var id := IdentificationJWT.Identification(Some("Bearer " + token), verify);
    match id
    case Next(session) => (id, Authorization.MustBeAdmin(Some(session)))
    case Reject(code) => (id, Authorization.Refuse(code))
  }

  /**
   * As written, no one reaches an administrator route: even an
   * administrator's login yields a "user" token, whose session the gate
   * refuses with 403. The session does carry the right user id.
   */
  lemma AdminLockedOut(db: Db, email: Value, password: Value, compareHash: (Value, Value) -> bool,
                       sign: Payload -> string, verify: string -> IdentificationJWT.Verdict)
    requires Faithful(sign, verify)
    requires UserDB.Authenticate(db, email, password, compareHash).Ok?
    ensures var login := UserController.LoginAsWritten(db, Some(email), Some(password), compareHash, sign);
            && login.reply.Token?
            && Present(login.reply.token, verify).0.Next?
            && Present(login.reply.token, verify).0.session.UserId() == Some(UserDB.Authenticate(db, email, password, compareHash).value.userId)
            && Present(login.reply.token, verify).1 == Authorization.Refuse(403)
  {
    var login := UserController.LoginAsWritten(db, Some(email), Some(password), compareHash, sign);
    var token := login.reply.token;
    assert ' ' !in token;
    IdentificationJWT.BearerHeader(token, verify);
  }

  /**
   * With `getUser` reading the first row's `isadmin`, the administrator
   * gate lets a logged-in user through exactly when the account is an
   * administrator.
   */
  lemma AdminAdmitted(db: Db, email: Value, password: Value, compareHash: (Value, Value) -> bool,
                      sign: Payload -> string, verify: string -> IdentificationJWT.Verdict)
    requires Faithful(sign, verify)
    requires UserDB.Authenticate(db, email, password, compareHash).Ok?
    ensures var login := UserController.Login(db, Some(email), Some(password), compareHash, sign);
            && login.reply.Token?
            && Present(login.reply.token, verify).0.Next?
            && Present(login.reply.token, verify).0.session.UserId() == Some(UserDB.Authenticate(db, email, password, compareHash).value.userId)
            && (Present(login.reply.token, verify).1 == Authorization.Pass <==>
                  UserDB.Authenticate(db, email, password, compareHash).value.isAdmin)
  {
    var login := UserController.Login(db, Some(email), Some(password), compareHash, sign);
    var token := login.reply.token;
    assert ' ' !in token;
    IdentificationJWT.BearerHeader(token, verify);
  }

  /**
   * A login token never passes the user gate as written, which throws on
   * any session; the gate that reads `req.session` and knows the "user"
   * status lets it through.
   */
  lemma UserGateClosed(db: Db, email: Value, password: Value, compareHash: (Value, Value) -> bool,
                       sign: Payload -> string, verify: string -> IdentificationJWT.Verdict)
    requires Faithful(sign, verify)
    requires UserDB.Authenticate(db, email, password, compareHash).Ok?
    ensures var login := UserController.LoginAsWritten(db, Some(email), Some(password), compareHash, sign);
            var id := IdentificationJWT.Identification(Some("Bearer " + login.reply.token), verify);
            && id.Next?
            && Authorization.MustBeUserAsWritten(Some(id.session)) == Authorization.Throws
            && Authorization.MustBeUser(Some(id.session)) == Authorization.Pass
  {
    var login := UserController.LoginAsWritten(db, Some(email), Some(password), compareHash, sign);
    var token := login.reply.token;
    assert ' ' !in token;
    IdentificationJWT.BearerHeader(token, verify);
  }
}
