/**
 * The registration handlers of `controleur/inscriptionController.js`: the
 * join decision, removal by id, and the partial update of a registration.
 */
module InscriptionController {
  import opened Wrappers
  import opened Tables
  import opened SqlUpdate
  import opened Http
  import opened InscriptionDB

  /** The event exists and holds fewer registrations than its `nbMaxPlayer`. */
  predicate HasRoom(db: Db, eventId: int) {
    exists k :: 0 <= k < |db.events| && db.events[k].eventId == eventId
                && Count(db.inscriptions, EventIs(eventId)) < db.events[k].nbMaxPlayer
  }

  /** The (user, event) pair already has a registration row. */
  predicate Registered(db: Db, userId: int, eventId: int) {
    exists i :: 0 <= i < |db.inscriptions| && db.inscriptions[i].userId == userId && db.inscriptions[i].eventId == eventId
  }

  /** `req.body.userid` when defined, else `req.session.userid`. */
  function JoiningUser(bodyUser: Option<int>, session: Session): Option<int> {
    if bodyUser.Some? then bodyUser else session.UserId()
  }

  /**
   * The decision taken once both checks have run: a thrown check answers
   * 404 after ROLLBACK; a full event answers 418 before the duplicate test is
   * consulted; a duplicate answers 418; otherwise the row is inserted and
   * committed (a registration without a user is refused by the store: 404).
   */
  function Decide(db: Db, eventId: int, userId: Option<int>, notFull: bool, found: Result<bool>): Response {
    if found.Err? then Response(db, Status(404))
    else if !notFull then Response(db, Status(418))
    else if found.value then Response(db, Status(418))
    else if userId.None? then Response(db, Status(404))
    else Response(InscriptionDB.LinkUserEvent(db, userId.value, eventId), Status(201))
  }

  /**
   * `linkUserEvent` as written: the duplicate check calls
   * `inscriptionExist`, a name the data-access module does not export, so
   * the call throws whenever the capacity check returned.
   */
  function LinkUserEventAsWritten(db: Db, eventId: Option<int>, bodyUser: Option<int>, session: Session): (r: Response)
    ensures r == Response(db, Status(404))
  {
    var userId := JoiningUser(bodyUser, session);
    if eventId.None? then Response(db, Status(404))
    else
      match IsNotFull(db, eventId.value)
      case Err(_) => Response(db, Status(404))
      case Ok(notFull) => Decide(db, eventId.value, userId, notFull, Err("InscriptionController.inscriptionExist is not a function"))
  }

  /**
   * `linkUserEvent` with the duplicate check the data-access module offers,
   * `inscriptionExistByEventUser`. An `undefined` event id selects no event
   * row, so the capacity check throws.
   */
  function LinkUserEvent(db: Db, eventId: Option<int>, bodyUser: Option<int>, session: Session): (r: Response)
    ensures r.reply == Status(201) || r.reply == Status(418) || r.reply == Status(404)
    ensures r.reply != Status(201) ==> r.db == db
    ensures eventId.None? || !EventExists(db, eventId.value) ==> r.reply == Status(404)
    ensures UniqueEventIds(db.events) ==>
              (r.reply == Status(201) <==>
                 && eventId.Some? && HasRoom(db, eventId.value)
                 && JoiningUser(bodyUser, session).Some?
                 && !Registered(db, JoiningUser(bodyUser, session).value, eventId.value))
    ensures UniqueEventIds(db.events) && eventId.Some? && EventExists(db, eventId.value) && !HasRoom(db, eventId.value) ==>
              r.reply == Status(418)
    ensures r.reply == Status(201) ==>
              && eventId.Some? && JoiningUser(bodyUser, session).Some?
              && r.db.inscriptions == db.inscriptions + [InscriptionRow(db.nextId, JoiningUser(bodyUser, session).value, eventId.value)]
              && OnlyInscriptionsChange(db, r.db) && r.db.nextId == db.nextId + 1
    ensures r.reply == Status(201) && bodyUser.None? ==> r.db.inscriptions[|db.inscriptions|].userId == session.UserId().value
  {
    var userId := JoiningUser(bodyUser, session);
    if eventId.None? then Response(db, Status(404))
    else
      var e := eventId.value;
      match IsNotFull(db, e)
      case Err(_) => Response(db, Status(404))
      case Ok(notFull) =>
        var found := if userId.Some? then InscriptionExistByEventUser(db, userId.value, e) else false;
        var r := Decide(db, e, userId, notFull, Ok(found));
        assert r.reply == Status(201) ==> r.db.inscriptions == db.inscriptions + [InscriptionRow(db.nextId, userId.value, e)];
        r
  }

  /** A successful join keeps both invariants; a rejected one changes nothing. */
  lemma {:induction false} JoinPreservesInv(db: Db, eventId: Option<int>, bodyUser: Option<int>, session: Session)
    requires Inv(db)
    ensures Inv(LinkUserEvent(db, eventId, bodyUser, session).db)
  {
    var r := LinkUserEvent(db, eventId, bodyUser, session);
    if r.reply == Status(201) {
      var e := eventId.value;
      var u := JoiningUser(bodyUser, session).value;
      var row := InscriptionRow(db.nextId, u, e);
      CountAppendOne(db.inscriptions, row);
      forall k | 0 <= k < |r.db.events|
        ensures Count(r.db.inscriptions, EventIs(r.db.events[k].eventId)) <= r.db.events[k].nbMaxPlayer
      {
        if r.db.events[k].eventId == e {
          var k0 :| 0 <= k0 < |db.events| && db.events[k0].eventId == e
                    && Count(db.inscriptions, EventIs(e)) < db.events[k0].nbMaxPlayer;
          assert k0 == k;
        }
      }
      forall u', e'
        ensures Count(r.db.inscriptions, PairIs(u', e')) <= 1
      {
        if u' == u && e' == e {
          CountPositive(db.inscriptions, PairIs(u, e));
        }
      }
      forall id
        ensures Count(r.db.inscriptions, IdIs(id)) <= 1
      {
        if id == db.nextId {
          CountPositive(db.inscriptions, IdIs(id));
        }
      }
    }
  }

  /** `deleteUserFromEvent`: removes the registration with that id, 204 even when none had it. */
  function DeleteUserFromEvent(db: Db, inscriptionId: RawId): (r: Response)
    ensures inscriptionId.NonNumeric? ==> r == Response(db, Status(500))
    ensures inscriptionId.Numeric? ==> r.reply == Status(204)
    ensures inscriptionId.Numeric? ==>
              forall x :: x in r.db.inscriptions <==> x in db.inscriptions && x.inscriptionId != inscriptionId.n
    ensures inscriptionId.Numeric? && !InscriptionExistById(db, inscriptionId.n) ==> r.db == db
    ensures OnlyInscriptionsChange(db, r.db) && r.db.nextId == db.nextId
    ensures forall m :: Count(r.db.inscriptions, m) <= Count(db.inscriptions, m)
  {
    match inscriptionId
    case NonNumeric(_) => Response(db, Status(500))
    case Numeric(n) =>
      assert !InscriptionExistById(db, n) ==> forall x :: x in db.inscriptions ==> x.inscriptionId != n by {
        forall x | x in db.inscriptions && !InscriptionExistById(db, n) ensures x.inscriptionId != n {
          var i :| 0 <= i < |db.inscriptions| && db.inscriptions[i] == x;
        }
      }
      Response(DeleteInscription(db, n), Status(204))
  }

  /** Removing a registration keeps both invariants. */
  lemma RemovePreservesInv(db: Db, inscriptionId: RawId)
    requires Inv(db)
    ensures Inv(DeleteUserFromEvent(db, inscriptionId).db)
  {
    var r := DeleteUserFromEvent(db, inscriptionId);
    if inscriptionId.Numeric? {
      ShrinkPreserves(db, r.db);
    }
  }

  /** Join, then remove the new registration by its id: the relation is back where it was. */
  lemma {:induction false} JoinThenRemove(db: Db, eventId: Option<int>, bodyUser: Option<int>, session: Session)
    requires Inv(db)
    requires LinkUserEvent(db, eventId, bodyUser, session).reply == Status(201)
    ensures var joined := LinkUserEvent(db, eventId, bodyUser, session).db;
            var left := DeleteUserFromEvent(joined, Numeric(db.nextId)).db;
            && left.inscriptions == db.inscriptions
            && !InscriptionExistByEventUser(left, JoiningUser(bodyUser, session).value, eventId.value)
  {
    var joined := LinkUserEvent(db, eventId, bodyUser, session).db;
    var row := InscriptionRow(db.nextId, JoiningUser(bodyUser, session).value, eventId.value);
    var doomed := (x: InscriptionRow) => x.inscriptionId == db.nextId;
    DeleteAppend(db.inscriptions, [row], doomed);
    DeleteNothing(db.inscriptions, doomed);
    assert Delete([row], doomed) == [];
    var left := DeleteUserFromEvent(joined, Numeric(db.nextId)).db;
    assert left.inscriptions == Delete(joined.inscriptions, doomed);
  }

  /**
   * Two users join an empty event of capacity one: the first is accepted,
   * the second refused with 418, and the event ends with one registration.
   */
  lemma {:induction false} LastSeatGoesOnce(db: Db, k: nat, a: int, b: int, session: Session)
    requires Inv(db)
    requires k < |db.events| && db.events[k].nbMaxPlayer == 1
    requires Count(db.inscriptions, EventIs(db.events[k].eventId)) == 0
    requires a != b
    ensures var e := db.events[k].eventId;
            var first := LinkUserEvent(db, Some(e), Some(a), session);
            var second := LinkUserEvent(first.db, Some(e), Some(b), session);
            && first.reply == Status(201)
            && second.reply == Status(418)
            && Count(second.db.inscriptions, EventIs(e)) == 1
  {
    var e := db.events[k].eventId;
    CountPositive(db.inscriptions, PairIs(a, e));
    CountPositive(db.inscriptions, EventIs(e));
    if Registered(db, a, e) {
      var i :| 0 <= i < |db.inscriptions| && db.inscriptions[i].userId == a && db.inscriptions[i].eventId == e;
      assert Hits(EventIs(e), db.inscriptions[i]);
    }
    assert HasRoom(db, e);
    var first := LinkUserEvent(db, Some(e), Some(a), session);
    CountAppendOne(db.inscriptions, InscriptionRow(db.nextId, a, e));
    assert first.db.events == db.events;
    assert EventExists(first.db, e);
    assert !HasRoom(first.db, e) by {
      forall j | 0 <= j < |first.db.events| && first.db.events[j].eventId == e
        ensures Count(first.db.inscriptions, EventIs(e)) >= first.db.events[j].nbMaxPlayer
      {
        assert j == k;
      }
    }
  }

  /** One step of the registration state machine, as the handlers drive it. */
  datatype Request =
    | Join(eventId: Option<int>, bodyUser: Option<int>, session: Session)
    | Remove(inscriptionId: RawId)
    | Leave(user: int, event: int)
    | ClearEvent(event: int)

  function Step(db: Db, req: Request): Db {
    match req
    case Join(e, u, s) => LinkUserEvent(db, e, u, s).db
    case Remove(id) => DeleteUserFromEvent(db, id).db
    case Leave(u, e) => UnlinkUser(db, u, e)
    case ClearEvent(e) => DeleteAllFromEvent(db, e)
  }

  function Run(db: Db, reqs: seq<Request>): Db
    decreases |reqs|
  {
    if |reqs| == 0 then db else Run(Step(db, reqs[0]), reqs[1..])
  }

  /** After any sequence of joins and removals, no event is over capacity and no pair is doubled. */
  lemma {:induction false} RunPreservesInv(db: Db, reqs: seq<Request>)
    requires Inv(db)
    ensures Inv(Run(db, reqs))
    decreases |reqs|
  {
    if |reqs| > 0 {
      var next := Step(db, reqs[0]);
      match reqs[0] {
        case Join(e, u, s) => JoinPreservesInv(db, e, u, s);
        case Remove(id) => RemovePreservesInv(db, id);
        case Leave(u, e) => ShrinkPreserves(db, next);
        case ClearEvent(e) => ShrinkPreserves(db, next);
      }
      RunPreservesInv(next, reqs[1..]);
    }
  }

  // ---------------------------------------------------------------------
  // updateEventInscription
  // ---------------------------------------------------------------------

  /**
   * `updateEventInscription`: no response at all unless `eventId` or
   * `userId` is defined; otherwise the update runs outside any transaction
   * and answers 204, or 500 when the statement fails. The key is written
   * into the query text, so a non-numeric id makes the statement fail.
   */
  function UpdateEventInscription(db: Db, inscriptionId: RawId, eventId: Option<Value>, userId: Option<Value>): (r: Response)
    ensures eventId.None? && userId.None? ==> r == Response(db, Silent)
    ensures r.reply == Silent || r.reply == Status(204) || r.reply == Status(500)
    ensures r.reply != Status(204) ==> r.db == db
    ensures r.reply == Status(204) <==>
              && (eventId.Some? || userId.Some?)
              && inscriptionId.Numeric?
              && (eventId.Some? ==> IntOf(eventId.value).Some?)
              && (userId.Some? ==> IntOf(userId.value).Some?)
  {
    if eventId.None? && userId.None? then Response(db, Silent)
    else
      match inscriptionId
      case NonNumeric(_) => Response(db, Status(500))
      case Numeric(n) =>
        match InscriptionDB.UpdateEventInscription(db, n, eventId, userId)
        case Ok(d) => Response(d, Status(204))
        case Err(_) => Response(db, Status(500))
  }

  /** The count over a two-row relation, unfolded. */
  lemma CountPair(rows: seq<InscriptionRow>, m: Match)
    requires |rows| == 2
    ensures Count(rows, m) == (if Hits(m, rows[0]) then 1 else 0) + (if Hits(m, rows[1]) then 1 else 0)
  {
    assert rows[1..][0] == rows[1];
    assert rows[1..][1..] == [];
    assert Count(rows[1..], m) == (if Hits(m, rows[1]) then 1 else 0) + Count(rows[1..][1..], m);
  }

  /**
   * The store of the counterexample: event 1 (one seat) holds registration
   * 10 of user 1, event 2 (one seat) holds registration 11 of user 2.
   */
  function TwoFullEvents(): Db {
    var ev1 := EventRow(1, 1, 1, Null, Null, 1, Null, Int(0), 1, Null);
    var ev2 := EventRow(2, 2, 1, Null, Null, 2, Null, Int(0), 1, Null);
    Db([], [ev1, ev2], [], [], [], [InscriptionRow(10, 1, 1), InscriptionRow(11, 2, 2)], 12)
  }

  /**
   * Moving registration 11 to event 1 is accepted (204) and leaves event 1
   * with two registrations for one seat: the update never re-checks capacity.
   */
  lemma UpdateOverfills()
    ensures Inv(TwoFullEvents())
    ensures var r := UpdateEventInscription(TwoFullEvents(), Numeric(11), Some(Int(1)), None);
            && r.reply == Status(204)
            && !WithinCapacity(r.db)
  {
    TwoFullEventsInv();
    var db := TwoFullEvents();
    var r := UpdateEventInscription(db, Numeric(11), Some(Int(1)), None);
    var after := r.db.inscriptions;
    assert after[0] == InscriptionRow(10, 1, 1);
    assert after[1] == InscriptionRow(11, 2, 1);
    CountPair(after, EventIs(1));
    assert r.db.events[0].eventId == 1;
  }

  lemma TwoFullEventsInv()
    ensures Inv(TwoFullEvents())
  {
    var db := TwoFullEvents();
    var rows := db.inscriptions;
    forall m ensures Count(rows, m) == (if Hits(m, rows[0]) then 1 else 0) + (if Hits(m, rows[1]) then 1 else 0) {
      CountPair(rows, m);
    }
  }

  /**
   * The update with the join's guards: an absent registration answers 404;
   * moving to another event needs a free seat there (404 if that event does
   * not exist, 418 if it is full); a new (user, event) pair must not be
   * registered yet (418).
   */
  function UpdateEventInscriptionGuarded(db: Db, inscriptionId: RawId, eventId: Option<Value>, userId: Option<Value>): (r: Response)
    ensures eventId.None? && userId.None? ==> r == Response(db, Silent)
    ensures r.reply != Status(204) ==> r.db == db
    ensures r.reply == Status(204) ==> inscriptionId.Numeric? && InscriptionExistById(db, inscriptionId.n)
    ensures (&& inscriptionId.Numeric? && (eventId.Some? || userId.Some?)
             && (eventId.Some? ==> IntOf(eventId.value).Some?) && (userId.Some? ==> IntOf(userId.value).Some?)
             && !InscriptionExistById(db, inscriptionId.n)) ==> r.reply == Status(404)
    ensures r.reply == Status(204) ==> UpdateEventInscription(db, inscriptionId, eventId, userId) == r
  {
    if eventId.None? && userId.None? then Response(db, Silent)
    else if inscriptionId.NonNumeric? then Response(db, Status(500))
    else if (eventId.Some? && IntOf(eventId.value).None?) || (userId.Some? && IntOf(userId.value).None?) then Response(db, Status(500))
    else
      var n := inscriptionId.n;
      match FirstMatch(db.inscriptions, (x: InscriptionRow) => x.inscriptionId == n)
      case None => Response(db, Status(404))
      case Some(i) =>
        var prev := db.inscriptions[i];
        var p := Patched(prev, eventId, userId);
        var seat := if p.eventId == prev.eventId then Ok(true) else IsNotFull(db, p.eventId);
        if seat.Err? then Response(db, Status(404))
        else if !seat.value then Response(db, Status(418))
        else if (p.userId != prev.userId || p.eventId != prev.eventId) && InscriptionExistByEventUser(db, p.userId, p.eventId) then
          Response(db, Status(418))
        else
          match InscriptionDB.UpdateEventInscription(db, n, eventId, userId)
          case Ok(d) => Response(d, Status(204))
          case Err(_) => Response(db, Status(500))
  }

  /** Under the primary key, the update rewrites exactly one row. */
  lemma UpdateRewritesOne(db: Db, n: int, i: nat, eventId: Option<Value>, userId: Option<Value>)
    requires UniqueKeys(db.inscriptions)
    requires i < |db.inscriptions| && db.inscriptions[i].inscriptionId == n
    requires InscriptionDB.UpdateEventInscription(db, n, eventId, userId).Ok?
    ensures InscriptionDB.UpdateEventInscription(db, n, eventId, userId).value ==
              db.(inscriptions := db.inscriptions[i := Patched(db.inscriptions[i], eventId, userId)])
  {
    var d := InscriptionDB.UpdateEventInscription(db, n, eventId, userId).value;
    var rows := db.inscriptions;
    forall j | 0 <= j < |rows| && j != i
      ensures rows[j].inscriptionId != n
    {
      if rows[j].inscriptionId == n {
        if j < i { CountTwo(rows, IdIs(n), j, i); } else { CountTwo(rows, IdIs(n), i, j); }
      }
    }
    assert d.inscriptions == rows[i := Patched(rows[i], eventId, userId)];
  }

  /**
   * Overwriting the row at `i` with a row of the same key keeps the
   * invariant, provided a changed event had a free seat and a changed pair
   * was not registered yet.
   */
  lemma {:induction false} PatchPreservesInv(db: Db, i: nat, p: InscriptionRow)
    requires Inv(db)
    requires i < |db.inscriptions| && p.inscriptionId == db.inscriptions[i].inscriptionId
    requires p.eventId != db.inscriptions[i].eventId ==> HasRoom(db, p.eventId)
    requires (p.userId, p.eventId) != (db.inscriptions[i].userId, db.inscriptions[i].eventId) ==>
               !Registered(db, p.userId, p.eventId)
    ensures Inv(db.(inscriptions := db.inscriptions[i := p]))
  {
    var rows := db.inscriptions;
    var prev := rows[i];
    var after := rows[i := p];
    var r := db.(inscriptions := after);
    forall k | 0 <= k < |r.events|
      ensures Count(after, EventIs(r.events[k].eventId)) <= r.events[k].nbMaxPlayer
    {
      var e := r.events[k].eventId;
      CountUpdate(rows, i, p, EventIs(e));
      if e == p.eventId && p.eventId != prev.eventId {
        var k0 :| 0 <= k0 < |db.events| && db.events[k0].eventId == e
                  && Count(rows, EventIs(e)) < db.events[k0].nbMaxPlayer;
        assert k0 == k;
      }
    }
    forall u, e
      ensures Count(after, PairIs(u, e)) <= 1
    {
      CountUpdate(rows, i, p, PairIs(u, e));
      if u == p.userId && e == p.eventId && (p.userId, p.eventId) != (prev.userId, prev.eventId) {
        CountPositive(rows, PairIs(u, e));
      }
    }
    forall id
      ensures Count(after, IdIs(id)) <= 1
    {
      CountUpdate(rows, i, p, IdIs(id));
    }
    forall x | x in after
      ensures x.inscriptionId < r.nextId
    {
      var j :| 0 <= j < |after| && after[j] == x;
      if j != i { assert rows[j] in rows; } else { assert prev in rows; }
    }
  }

  /**
   * A 204 from the guarded update means: the registration with that id was
   * found at `i`, its patched version had a seat if it moved, it names a
   * pair not registered yet if the pair changed, and the update was applied.
   */
  lemma GuardedAdmits(db: Db, inscriptionId: RawId, eventId: Option<Value>, userId: Option<Value>)
    requires UniqueEventIds(db.events)
    requires UpdateEventInscriptionGuarded(db, inscriptionId, eventId, userId).reply == Status(204)
    ensures inscriptionId.Numeric? && (eventId.Some? ==> IntOf(eventId.value).Some?) && (userId.Some? ==> IntOf(userId.value).Some?)
    ensures var i := FirstMatch(db.inscriptions, (x: InscriptionRow) => x.inscriptionId == inscriptionId.n);
            && i.Some? && i.value < |db.inscriptions| && db.inscriptions[i.value].inscriptionId == inscriptionId.n
            && var prev := db.inscriptions[i.value];
               var p := Patched(prev, eventId, userId);
               && (p.eventId != prev.eventId ==> HasRoom(db, p.eventId))
               && ((p.userId, p.eventId) != (prev.userId, prev.eventId) ==> !Registered(db, p.userId, p.eventId))
    ensures InscriptionDB.UpdateEventInscription(db, inscriptionId.n, eventId, userId).Ok?
    ensures UpdateEventInscriptionGuarded(db, inscriptionId, eventId, userId).db
            == InscriptionDB.UpdateEventInscription(db, inscriptionId.n, eventId, userId).value
  {
    var n := inscriptionId.n;
    var i := FirstMatch(db.inscriptions, (x: InscriptionRow) => x.inscriptionId == n).value;
    var prev := db.inscriptions[i];
    var p := Patched(prev, eventId, userId);
    var seat := if p.eventId == prev.eventId then Ok(true) else IsNotFull(db, p.eventId);
    assert seat == Ok(true);
    var moved := p.userId != prev.userId || p.eventId != prev.eventId;
    assert !(moved && InscriptionExistByEventUser(db, p.userId, p.eventId));
    if p.eventId != prev.eventId {
      var k :| 0 <= k < |db.events| && db.events[k].eventId == p.eventId;
    }
  }

  /** The guarded update keeps both invariants. */
  lemma GuardedUpdatePreservesInv(db: Db, inscriptionId: RawId, eventId: Option<Value>, userId: Option<Value>)
    requires Inv(db)
    ensures Inv(UpdateEventInscriptionGuarded(db, inscriptionId, eventId, userId).db)
  {
    var r := UpdateEventInscriptionGuarded(db, inscriptionId, eventId, userId);
    if r.reply == Status(204) {
      GuardedAdmits(db, inscriptionId, eventId, userId);
      var n := inscriptionId.n;
      var i := FirstMatch(db.inscriptions, (x: InscriptionRow) => x.inscriptionId == n).value;
      UpdateRewritesOne(db, n, i, eventId, userId);
      PatchPreservesInv(db, i, Patched(db.inscriptions[i], eventId, userId));
    }
  }

}
