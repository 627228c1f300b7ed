/**
 * `middleware/IdentificationJWT.js`: accepting the `Authorization` header,
 * extracting the token, and turning the outcome of `jwt.verify` into a
 * session or a status. `jwt.verify` with the service's key is the
 * parameter `verify`.
 */
module IdentificationJWT {
  import opened Wrappers
  import opened Http

  // ---------------------------------------------------------------------
  // The string operations the header test uses, with JavaScript's meaning.
  // ---------------------------------------------------------------------

  /** `sub` occurs in `s` starting at position `i`. */
  predicate OccursAt(s: string, sub: string, i: int) {
    0 <= i <= |s| - |sub| && s[i..i + |sub|] == sub
  }

  /** `s.includes(sub)`: `sub` occurs somewhere in `s`. */
  predicate Includes(s: string, sub: string) {
    exists i :: 0 <= i <= |s| - |sub| && OccursAt(s, sub, i)
  }

  /** The pieces joined back together with `sep` between consecutive ones. */
  function Join(parts: seq<string>, sep: char): string
    requires |parts| >= 1
  {
    if |parts| == 1 then parts[0] else parts[0] + [sep] + Join(parts[1..], sep)
  }

  /**
   * `s.split(sep)` for a one-character separator: the maximal runs between
   * separators, empty ones included, so there is always at least one piece.
   */
  function Split(s: string, sep: char): (r: seq<string>)
    ensures |r| >= 1
    ensures forall i :: 0 <= i < |r| ==> sep !in r[i]
    ensures Join(r, sep) == s
    decreases |s|
  {
    if |s| == 0 then [""]
    else if s[0] == sep then
      var rest := Split(s[1..], sep);
      assert ([""] + rest)[1..] == rest;
      assert s == [sep] + s[1..];
      [""] + rest
    else
      var rest := Split(s[1..], sep);
      var r := [[s[0]] + rest[0]] + rest[1..];
      assert r[1..] == rest[1..];
      assert s == [s[0]] + s[1..];
      assert forall i :: 1 <= i < |r| ==> r[i] == rest[i];
      r
  }

  /** Splitting undoes joining, when no piece contains the separator. */
  lemma {:induction false} SplitJoin(parts: seq<string>, sep: char)
    requires |parts| >= 1
    requires forall i :: 0 <= i < |parts| ==> sep !in parts[i]
    ensures Split(Join(parts, sep), sep) == parts
    decreases |parts|, |parts[0]|
  {
    if |parts[0]| == 0 {
      if |parts| == 1 {
      } else {
        var s := Join(parts, sep);
        assert s == [sep] + Join(parts[1..], sep);
        assert s[1..] == Join(parts[1..], sep);
        SplitJoin(parts[1..], sep);
        assert parts == [""] + parts[1..];
      }
    } else {
      var c := parts[0][0];
      var shorter := [parts[0][1..]] + parts[1..];
      assert c != sep by { assert parts[0][0] in parts[0]; }
      forall i | 0 <= i < |shorter| ensures sep !in shorter[i] {
        if i == 0 {
          assert forall x :: x in parts[0][1..] ==> x in parts[0];
        } else {
          assert shorter[i] == parts[i];
        }
      }
      assert shorter[1..] == parts[1..];
      var s := Join(parts, sep);
      assert s == [c] + Join(shorter, sep) by {
        assert parts[0] == [c] + parts[0][1..];
        if |parts| == 1 {
        } else {
          assert Join(shorter, sep) == parts[0][1..] + [sep] + Join(parts[1..], sep);
        }
      }
      assert s[1..] == Join(shorter, sep);
      SplitJoin(shorter, sep);
      var rest := Split(s[1..], sep);
      assert rest == shorter;
      assert Split(s, sep) == [[c] + rest[0]] + rest[1..];
      assert [c] + rest[0] == parts[0];
      assert parts == [parts[0]] + parts[1..];
    }
  }

  // ---------------------------------------------------------------------
  // The middleware.
  // ---------------------------------------------------------------------

  /** What `jwt.verify` does with a token: the decoded object, or the error it throws. */
  datatype Verdict =
    | Decoded(status: string, value: Option<UserValue>)
    | Expired   // a TokenExpiredError
    | Invalid   // any other JsonWebTokenError: a bad signature, a malformed or an empty token
    | Failed    // any other error

  /** Either `next()` runs with `req.session` set, or a status is sent and `next` is not called. */
  datatype Outcome = Next(session: Session) | Reject(code: int)

  /**
   * From a verification to the request's fate. A decoded object without a
   * `value` makes the assignment to `req.session.authLevel` throw a
   * TypeError, which is neither of the JWT errors. An expiry is tested
   * first: TokenExpiredError is itself a JsonWebTokenError.
   */
  function Admit(v: Verdict): (r: Outcome)
    ensures r.Next? <==> v.Decoded? && v.value.Some?
    ensures r.Next? ==> r.session.value == v.value.value && r.session.authLevel == v.status
    ensures r == Reject(401) <==> v.Expired?
    ensures r == Reject(400) <==> v.Invalid?
    ensures r == Reject(500) <==> v.Failed? || (v.Decoded? && v.value.None?)
  {
    match v
    case Decoded(status, value) =>
      if value.Some? then Next(Session(value.value, status)) else Reject(500)
    case Expired => Reject(401)
    case Invalid => Reject(400)
    case Failed => Reject(500)
  }

  /**
   * `identification`: a header that is missing or does not contain
   * "Bearer" is 401. The token is the second space-separated piece; when
   * there is none, `jwt.verify` receives `undefined` and refuses it with a
   * JsonWebTokenError, hence 400.
   */
  function Identification(header: Option<string>, verify: string -> Verdict): (r: Outcome)
    ensures header.None? ==> r == Reject(401)
    ensures header.Some? && !Includes(header.value, "Bearer") ==> r == Reject(401)
    ensures header.Some? && Includes(header.value, "Bearer") && |Split(header.value, ' ')| == 1 ==> r == Reject(400)
    ensures r.Next? ==>
              && header.Some? && Includes(header.value, "Bearer") && |Split(header.value, ' ')| > 1
              && r == Admit(verify(Split(header.value, ' ')[1]))
    ensures header.Some? && Includes(header.value, "Bearer") && |Split(header.value, ' ')| > 1 ==>
              r == Admit(verify(Split(header.value, ' ')[1]))
  {
    if header.None? || !Includes(header.value, "Bearer") then Reject(401)
    else
      var pieces := Split(header.value, ' ');
      if |pieces| < 2 then Reject(400) else Admit(verify(pieces[1]))
  }

  /**
   * Any single word that contains "Bearer", followed by one space and a
   * token without spaces, hands exactly that token to `jwt.verify`.
   */
  lemma WordThenToken(word: string, token: string, verify: string -> Verdict)
    requires ' ' !in word && ' ' !in token
    requires Includes(word, "Bearer")
    ensures Identification(Some(word + " " + token), verify) == Admit(verify(token))
  {
    var header := word + " " + token;
    assert Join([word, token], ' ') == header by {
      assert Join([word, token], ' ') == word + [' '] + Join([token], ' ');
    }
    SplitJoin([word, token], ' ');
    assert Includes(header, "Bearer") by {
      var i :| 0 <= i <= |word| - |"Bearer"| && OccursAt(word, "Bearer", i);
      assert |"Bearer"| == 6;
      assert header[i..i + 6] == word[i..i + 6];
      assert OccursAt(header, "Bearer", i);
    }
  }

  /** The credentials of section 2.1 of RFC 6750, `Bearer <token>`, are understood. */
  lemma BearerHeader(token: string, verify: string -> Verdict)
    requires ' ' !in token
    ensures Identification(Some("Bearer " + token), verify) == Admit(verify(token))
  {
    assert Includes("Bearer", "Bearer") by { assert OccursAt("Bearer", "Bearer", 0); }
    assert ' ' !in "Bearer";
    assert "Bearer" + " " + token == "Bearer " + token;
    WordThenToken("Bearer", token, verify);
  }

  /**
   * The test is looser than the scheme match of section 2.1 of RFC 6750: a
   * header whose scheme is "NotBearer" is treated just like a Bearer one.
   */
  lemma LooserThanScheme(token: string, verify: string -> Verdict)
    requires ' ' !in token
    ensures Identification(Some("NotBearer " + token), verify) == Identification(Some("Bearer " + token), verify)
  {
    assert Includes("NotBearer", "Bearer") by { assert OccursAt("NotBearer", "Bearer", 3); }
    assert ' ' !in "NotBearer";
    assert "NotBearer" + " " + token == "NotBearer " + token;
    WordThenToken("NotBearer", token, verify);
    BearerHeader(token, verify);
  }
}
