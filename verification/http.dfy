/**
 * What the Express handlers see and send: path parameters, the session the
 * identification middleware attaches, and the reply a handler sends.
 */
module Http {
  import opened Wrappers
  import opened Tables

  /** What a handler sent: a bare status, a JSON-encoded token, or nothing at all. */
  datatype Reply = Status(code: int) | Token(token: string) | Silent

  /** A handler's result: the store after COMMIT or ROLLBACK, and the reply. */
  datatype Response = Response(db: Db, reply: Reply)

  /** A path parameter (`req.params.id`): numeric text, or anything else. */
  datatype RawId = Numeric(n: int) | NonNumeric(text: string)

  /** `isNaN(x)` of a path parameter. */
  predicate IsNaN(id: RawId) {
    id.NonNumeric?
  }

  /**
   * The `value` object of a login token: the user's row fields. `userid`
   * is `None` when the decoded object carries no number there.
   */
  datatype UserValue = UserValue(
    userid: Option<int>, firstname: Value, name: Value, birthdate: Value, email: Value, photopath: Value)

  /** A token payload `{status, value}`. */
  datatype Payload = Payload(status: string, value: UserValue)

  /**
   * `req.session`: the decoded `value` object with `authLevel` added. It has
   * no `id` field, so reading `req.session.id` yields `undefined`.
   */
  datatype Session = Session(value: UserValue, authLevel: string) {
    function UserId(): Option<int> {
      value.userid
    }
  }
}
