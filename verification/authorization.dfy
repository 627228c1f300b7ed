/**
 * `middleware/Authorization.js`: the two gates placed after the
 * identification middleware. `req.session` is `None` when no session was
 * attached.
 */
module Authorization {
  import opened Wrappers
  import opened Http

  /**
   * What a gate does: call `next()`, send a status, or throw. Express
   * answers a throw from a middleware through its default error handler.
   */
  datatype Gate = Pass | Refuse(code: int) | Throws

  /** `mustBeAdmin`: exactly one of `next()` and 403. */
  function MustBeAdmin(session: Option<Session>): (r: Gate)
    ensures r == Pass <==> session.Some? && session.value.authLevel == "admin"
    ensures r != Pass ==> r == Refuse(403)
  {
    if session.Some? && session.value.authLevel == "admin" then Pass else Refuse(403)
  }

  /**
   * `mustBeUser` as written: after finding `req.session` defined it reads
   * `res.session.authLevel`. Nothing sets `res.session`, so that read
   * throws, and no request ever passes.
   */
  function MustBeUserAsWritten(session: Option<Session>): (r: Gate)
    ensures r != Pass
    ensures r == Refuse(403) <==> session.None?
    ensures r == Throws <==> session.Some?
  {
    if session.None? then Refuse(403) else Throws
  }

  /**
   * `mustBeUser` reading `req.session`, and admitting the two statuses a
   * login token can carry, "user" and "admin", where the source tests for
   * "client", a status no token carries.
   */
  function MustBeUser(session: Option<Session>): (r: Gate)
    ensures r == Pass <==> session.Some? && (session.value.authLevel == "user" || session.value.authLevel == "admin")
    ensures r != Pass ==> r == Refuse(403)
  {
    if session.Some? && (session.value.authLevel == "user" || session.value.authLevel == "admin") then Pass else Refuse(403)
  }

  /** Whoever passes the administrator gate passes the user gate. */
  lemma AdminIsUser(session: Option<Session>)
    requires MustBeAdmin(session) == Pass
    ensures MustBeUser(session) == Pass
  {
  }
}
