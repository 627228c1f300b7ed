/**
 * `controleur/eventController.js`: the handlers that create, delete,
 * modify and verify an event. Each runs its statements in one transaction:
 * a failure rolls back, so the store is the one the request started from.
 */
module EventController {
  import opened Wrappers
  import opened Tables
  import opened Http
  import InscriptionDB
  import AddressDB
  import MessageDB
  import EventDB

  /** Whether the requester may act on an event: its creator, or an administrator. */
  predicate MayManage(session: Session, reqId: Option<int>, owner: int) {
    reqId == Some(owner) || session.authLevel == "admin"
  }

  /** The session's user may act on the event with that id, whose creator `getEventOwner` reports. */
  predicate Manages(db: Db, session: Session, eventId: int) {
    match EventDB.GetEventOwner(db, eventId)
    case Ok(owner) => MayManage(session, session.UserId(), owner)
    case Err(_) => false
  }

  // ---------------------------------------------------------------------
  // insertEvent
  // ---------------------------------------------------------------------

  /**
   * The body of an event creation. A field is `None` when it is
   * `undefined`, which covers every field of a missing `gamecategory` or
   * `address` object: the handler treats both alike.
   */
  datatype NewEvent = NewEvent(
    creatorId: Option<Value>, gameCategoryId: Option<Value>, eventDate: Option<Value>,
    eventDescription: Option<Value>, nbMaxPlayer: Option<Value>,
    street: Option<Value>, number: Option<Value>, city: Option<Value>, postalCode: Option<Value>, country: Option<Value>)

  /** Every required field is truthy; `creatorid` is not required. */
  predicate Complete(b: NewEvent) {
    && Truthy(b.gameCategoryId) && Truthy(b.eventDate) && Truthy(b.eventDescription) && Truthy(b.nbMaxPlayer)
    && Truthy(b.street) && Truthy(b.number) && Truthy(b.city) && Truthy(b.postalCode) && Truthy(b.country)
  }

  /** `req.body.creatorid ?? req.session.userid`; an `undefined` result reaches the store as null. */
  function Creator(b: NewEvent, session: Session): Value {
    if !Nullish(b.creatorId) then b.creatorId.value
    else if session.UserId().Some? then Int(session.UserId().value)
    else Null
  }

  /**
   * `insertEvent`: 400 unless every required field is truthy; otherwise the
   * address, then the event placed at that address, committed together
   * with 201. On 500 both rows are rolled back, but the key the address
   * drew from the sequence stays drawn.
   */
  function InsertEvent(db: Db, body: NewEvent, session: Session, now: Value, toDate: Value -> Value): (r: Response)
    ensures r.reply == Status(400) || r.reply == Status(500) || r.reply == Status(201)
    ensures r.reply == Status(400) <==> !Complete(body)
    ensures r.reply == Status(201) <==>
              && Complete(body) && IntOf(Creator(body, session)).Some?
              && IntOf(body.gameCategoryId.value).Some? && IntOf(body.nbMaxPlayer.value).Some?
    ensures r.reply == Status(400) ==> r.db == db
    ensures r.reply == Status(500) ==> r.db == db.(nextId := db.nextId + 1)
    ensures r.reply == Status(201) ==>
              && r.db.users == db.users && r.db.categories == db.categories
              && r.db.messages == db.messages && r.db.inscriptions == db.inscriptions
              && r.db.nextId == db.nextId + 2
              && r.db.addresses == db.addresses + [AddressRow(db.nextId, body.street.value, body.number.value, body.city.value,
                                                              body.postalCode.value, body.country.value)]
              && |r.db.events| == |db.events| + 1 && r.db.events[..|db.events|] == db.events
    ensures r.reply == Status(201) ==>
              var ev := r.db.events[|db.events|];
              && ev.eventId == db.nextId + 1 && ev.place == db.nextId
              && ev.creatorId == IntOf(Creator(body, session)).value
              && ev.gameCategoryId == IntOf(body.gameCategoryId.value).value
              && ev.nbMaxPlayer == IntOf(body.nbMaxPlayer.value).value && ev.isVerified == Bool(false) && ev.adminMessage == Null
              && ev.eventDate == toDate(body.eventDate.value) && ev.eventDescription == body.eventDescription.value
    ensures r.reply == Status(201) && Nullish(body.creatorId) ==>
              session.UserId().Some? && r.db.events[|db.events|].creatorId == session.UserId().value
  {
    if !Complete(body) then Response(db, Status(400))
    else
      var ins := AddressDB.InsertAddress(db, body.street.value, body.number.value, body.city.value,
                                         body.postalCode.value, body.country.value);
      match EventDB.InsertEvent(ins.0, Creator(body, session), body.gameCategoryId.value, body.eventDate.value, ins.1,
                                body.eventDescription.value, body.nbMaxPlayer.value, now, toDate)
      case Err(_) => Response(db.(nextId := ins.0.nextId), Status(500))
      case Ok(d) => Response(d, Status(201))
  }

  /** A capacity of 0 is falsy, so an event for nobody is refused as a bad request. */
  lemma ZeroCapacityRefused(db: Db, body: NewEvent, session: Session, now: Value, toDate: Value -> Value)
    requires body.nbMaxPlayer == Some(Int(0))
    ensures InsertEvent(db, body, session, now, toDate) == Response(db, Status(400))
  {
  }

  /** A complete body with every field an integer, and the given capacity. */
  function SampleBody(capacity: int): NewEvent {
    NewEvent(Some(Int(1)), Some(Int(1)), Some(Str("2030-01-01")), Some(Str("game night")), Some(Int(capacity)),
             Some(Str("street")), Some(Int(1)), Some(Str("city")), Some(Int(1000)), Some(Str("country")))
  }

  /**
   * A capacity of -1 is truthy, so `insertEvent` creates an event that
   * already holds more registrations than it admits.
   */
  lemma NegativeCapacityAdmitted(session: Session, now: Value, toDate: Value -> Value)
    ensures var db := Db([], [], [], [], [], [], 0);
            var r := InsertEvent(db, SampleBody(-1), session, now, toDate);
            && InscriptionDB.Inv(db)
            && r.reply == Status(201) && !InscriptionDB.WithinCapacity(r.db)
  {
    var db := Db([], [], [], [], [], [], 0);
    var r := InsertEvent(db, SampleBody(-1), session, now, toDate);
    assert r.db.events[0].nbMaxPlayer == -1;
    assert InscriptionDB.Count(r.db.inscriptions, InscriptionDB.EventIs(r.db.events[0].eventId)) == 0;
  }

  /** The capacity is given and reads as an integer below one. */
  predicate LowCapacity(b: NewEvent) {
    b.nbMaxPlayer.Some? && IntOf(b.nbMaxPlayer.value).Some? && IntOf(b.nbMaxPlayer.value).value < 1
  }

  /**
   * `insertEvent` refusing, as a bad request, every capacity below one and
   * not only the falsy one.
   */
  function InsertEventGuarded(db: Db, body: NewEvent, session: Session, now: Value, toDate: Value -> Value): (r: Response)
    ensures r.reply == Status(400) <==> !Complete(body) || LowCapacity(body)
    ensures r.reply == Status(400) ==> r.db == db
    ensures r.reply != Status(400) ==> r == InsertEvent(db, body, session, now, toDate)
  {
    if LowCapacity(body) then Response(db, Status(400))
    else InsertEvent(db, body, session, now, toDate)
  }

  /**
   * The guarded creation keeps the registration invariant on a store whose
   * keys were all drawn and whose registrations name drawn event keys.
   */
  lemma InsertEventGuardedPreservesInv(db: Db, body: NewEvent, session: Session, now: Value, toDate: Value -> Value)
    requires InscriptionDB.Inv(db) && KeysDrawn(db)
    requires forall i :: 0 <= i < |db.inscriptions| ==> db.inscriptions[i].eventId < db.nextId
    ensures InscriptionDB.Inv(InsertEventGuarded(db, body, session, now, toDate).db)
  {
    var r := InsertEventGuarded(db, body, session, now, toDate);
    if r.reply == Status(201) {
      var ins := AddressDB.InsertAddress(db, body.street.value, body.number.value, body.city.value,
                                         body.postalCode.value, body.country.value);
      AddressDB.InsertAddressFresh(db, body.street.value, body.number.value, body.city.value,
                                   body.postalCode.value, body.country.value);
      EventDB.InsertEventPreservesInv(ins.0, Creator(body, session), body.gameCategoryId.value, body.eventDate.value, ins.1,
                                      body.eventDescription.value, body.nbMaxPlayer.value, now, toDate);
    }
  }

  // ---------------------------------------------------------------------
  // deleteEvent
  // ---------------------------------------------------------------------

  /**
   * The handler's cascade: the event's address (only when it has a
   * registration), its messages, its registrations, then `deleteEvent`,
   * which removes the address again through the event row.
   */
  function Cascade(db: Db, eventId: int): (r: Db)
    ensures r.users == db.users && r.categories == db.categories && r.nextId == db.nextId
    ensures forall a :: a in r.addresses <==> a in db.addresses && a.addressId !in EventDB.Places(db.events, eventId)
    ensures forall m :: m in r.messages <==> m in db.messages && m.eventId != eventId
    ensures forall x :: x in r.inscriptions <==> x in db.inscriptions && x.eventId != eventId
    ensures forall ev :: ev in r.events <==> ev in db.events && ev.eventId != eventId
  {
    var a := AddressDB.DeleteAddressWithEvent(db, eventId);
    var m := MessageDB.DeleteMessageWithEvent(a, eventId);
    var i := InscriptionDB.DeleteAllFromEvent(m, eventId);
    assert i.events == db.events;
    assert forall x :: x in a.addresses && x.addressId !in EventDB.Places(db.events, eventId) <==>
                       x in db.addresses && x.addressId !in EventDB.Places(db.events, eventId);
    EventDB.DeleteEvent(i, eventId)
  }

  /**
   * `deleteEvent` with both of its missing helpers defined: 400 for a
   * session without a numeric user id or a non-numeric event id, 404 for an
   * unknown event, then the cascade with 204 for the event's creator or an
   * administrator and 403 for anyone else.
   */
  function DeleteEvent(db: Db, session: Session, eventId: RawId): (r: Response)
    ensures r.reply == Status(400) <==> session.UserId().None? || IsNaN(eventId)
    ensures r.reply == Status(404) <==> session.UserId().Some? && eventId.Numeric? && !EventExists(db, eventId.n)
    ensures r.reply == Status(204) <==>
              && session.UserId().Some? && eventId.Numeric? && EventExists(db, eventId.n)
              && Manages(db, session, eventId.n)
    ensures r.reply == Status(403) <==>
              && session.UserId().Some? && eventId.Numeric? && EventExists(db, eventId.n)
              && !Manages(db, session, eventId.n)
    ensures r.reply != Status(204) ==> r.db == db
    ensures r.reply == Status(204) ==> r.db == Cascade(db, eventId.n)
  {
    var reqId := session.UserId();
    if reqId.None? || IsNaN(eventId) then Response(db, Status(400))
    else if !EventDB.EventExist(db, eventId).value then Response(db, Status(404))
    else
      match EventDB.GetEventOwner(db, eventId.n)
      case Err(_) => Response(db, Status(500))
      case Ok(owner) =>
        if MayManage(session, reqId, owner) then Response(Cascade(db, eventId.n), Status(204))
        else Response(db, Status(403))
  }

  /**
   * `deleteEvent` as written. A session without a numeric user id or a
   * non-numeric event id is 400. Otherwise the handler calls `eventExist`,
   * which the event model module does not define, outside its `try`: the
   * TypeError rejects the handler's promise, and the router hands it to
   * Express, whose error handler answers 500. The store never changes.
   */
  function DeleteEventAsWritten(db: Db, session: Session, eventId: RawId): (r: Response)
    ensures r.reply == Status(400) <==> session.UserId().None? || IsNaN(eventId)
    ensures r.reply != Status(400) ==> r.reply == Status(500)
    ensures r.db == db
  {
    if session.UserId().None? || IsNaN(eventId) then Response(db, Status(400))
    else Response(db, Status(500))
  }

  /**
   * `deleteEvent` once `eventExist` is defined. The message model module
   * defines no `deleteMessageWithEvent`, so the cascade throws after BEGIN:
   * the handler rolls back and answers 500 exactly where the complete
   * cascade answers 204, and otherwise as the complete handler does.
   */
  function DeleteEventGivenEventExist(db: Db, session: Session, eventId: RawId): (r: Response)
    ensures r.db == db
    ensures r.reply == Status(500) <==> DeleteEvent(db, session, eventId).reply == Status(204)
    ensures r.reply != Status(500) ==> r.reply == DeleteEvent(db, session, eventId).reply
  {
    var reqId := session.UserId();
    if reqId.None? || IsNaN(eventId) then Response(db, Status(400))
    else if !EventDB.EventExist(db, eventId).value then Response(db, Status(404))
    else
      match EventDB.GetEventOwner(db, eventId.n)
      case Err(_) => Response(db, Status(500))
      case Ok(owner) =>
        // the cascade's second call, `deleteMessageWithEvent`, throws
        if MayManage(session, reqId, owner) then Response(db, Status(500))
        else Response(db, Status(403))
  }

  /** Someone who neither created an event nor is an administrator deletes nothing. */
  lemma StrangerCannotDelete(db: Db, session: Session, k: nat)
    requires UniqueEventIds(db.events) && k < |db.events|
    requires session.UserId().Some? && session.UserId().value != db.events[k].creatorId
    requires session.authLevel != "admin"
    ensures DeleteEvent(db, session, Numeric(db.events[k].eventId)) == Response(db, Status(403))
  {
    assert EventExists(db, db.events[k].eventId);
  }

  /** The creator of an event deletes it, with its messages and registrations; no other event goes. */
  lemma CreatorDeletes(db: Db, session: Session, k: nat)
    requires UniqueEventIds(db.events) && k < |db.events|
    requires session.UserId() == Some(db.events[k].creatorId)
    ensures var r := DeleteEvent(db, session, Numeric(db.events[k].eventId));
            && r.reply == Status(204)
            && db.events[k] !in r.db.events
            && (forall ev :: ev in db.events && ev.eventId != db.events[k].eventId ==> ev in r.db.events)
            && (forall x :: x in r.db.inscriptions ==> x.eventId != db.events[k].eventId)
  {
    assert EventExists(db, db.events[k].eventId);
  }

  /**
   * The creator of an event asks to delete it: as written the request
   * fails with 500 and the store keeps the event, where the handler with
   * its helpers defined answers 204.
   */
  lemma DeleteEventThrows(db: Db, session: Session, k: nat)
    requires UniqueEventIds(db.events) && k < |db.events|
    requires session.UserId() == Some(db.events[k].creatorId)
    ensures DeleteEventAsWritten(db, session, Numeric(db.events[k].eventId)) == Response(db, Status(500))
    ensures DeleteEvent(db, session, Numeric(db.events[k].eventId)).reply == Status(204)
  {
    CreatorDeletes(db, session, k);
  }

  /**
   * With `eventExist` defined, the creator's deletion still fails with 500
   * and leaves the store as it was, because the cascade stops at
   * `deleteMessageWithEvent`.
   */
  lemma CascadeThrows(db: Db, session: Session, k: nat)
    requires UniqueEventIds(db.events) && k < |db.events|
    requires session.UserId() == Some(db.events[k].creatorId)
    ensures DeleteEventGivenEventExist(db, session, Numeric(db.events[k].eventId)) == Response(db, Status(500))
    ensures DeleteEvent(db, session, Numeric(db.events[k].eventId)).reply == Status(204)
  {
    CreatorDeletes(db, session, k);
  }

  // ---------------------------------------------------------------------
  // modifyEvent
  // ---------------------------------------------------------------------

  /** The body of an event modification; `None` is a field left `undefined`. */
  datatype EventChanges = EventChanges(
    gameCategoryId: Option<Value>, eventDate: Option<Value>, eventDescription: Option<Value>, nbMaxPlayer: Option<Value>,
    street: Option<Value>, number: Option<Value>, city: Option<Value>, postCode: Option<Value>, country: Option<Value>)

  /** `doUpdateEvent`: one of the four event fields is defined. */
  predicate TouchesEvent(c: EventChanges) {
    c.eventDate.Some? || c.eventDescription.Some? || c.nbMaxPlayer.Some? || c.gameCategoryId.Some?
  }

  /** `doUpdateAddress`: one of the five address fields is defined. */
  predicate TouchesAddress(c: EventChanges) {
    c.street.Some? || c.number.Some? || c.city.Some? || c.postCode.Some? || c.country.Some?
  }

  /**
   * `modifyEvent` as written. `eventExist` is not defined in the event
   * model module, so once a field is given the call at the head of the
   * `try` throws a TypeError: the handler answers 500, and the store never
   * changes.
   */
  function ModifyEventAsWritten(db: Db, session: Session, eventId: RawId, c: EventChanges): (r: Response)
    ensures r.reply == Status(400) <==> !TouchesEvent(c) && !TouchesAddress(c)
    ensures r.reply != Status(400) ==> r.reply == Status(500)
    ensures r.db == db
  {
    if !TouchesEvent(c) && !TouchesAddress(c) then Response(db, Status(400))
    else Response(db, Status(500))
  }

  /**
   * The creator changes their event's capacity: as written the request
   * fails with 500 and changes nothing, where the corrected handler commits
   * with 204.
   */
  lemma ModifyEventThrows(db: Db, session: Session, k: nat, capacity: int)
    requires UniqueEventIds(db.events) && k < |db.events|
    requires session.UserId() == Some(db.events[k].creatorId)
    ensures var c := EventChanges(None, None, None, Some(Int(capacity)), None, None, None, None, None);
            && ModifyEventAsWritten(db, session, Numeric(db.events[k].eventId), c) == Response(db, Status(500))
            && ModifyEvent(db, session, Numeric(db.events[k].eventId), c).reply == Status(204)
  {
    var id := db.events[k].eventId;
    assert EventExists(db, id);
    assert Manages(db, session, id);
  }

  /**
   * `modifyEvent` once `eventExist` is defined. The requester is
   * `req.session.id`, which the session does not have, so only
   * administrators pass the owner test. The model call passes the path
   * text in the `gameCategoryId` position, the category in the `eventDate`
   * position and the date in the `place` position. `getEvent` already
   * returns the rows, so destructuring `rows` from them leaves `result`
   * undefined and any address change throws and rolls back.
   */
  function ModifyEventGivenEventExist(db: Db, session: Session, eventId: RawId, c: EventChanges): (r: Response)
    ensures r.reply == Status(400) <==> !TouchesEvent(c) && !TouchesAddress(c)
    ensures r.reply != Status(204) ==> r.db == db
    ensures r.reply == Status(204) ==> session.authLevel == "admin" && !TouchesAddress(c)
    ensures r.reply == Status(204) ==>
              && eventId.Numeric? && |r.db.events| == |db.events|
              && forall i :: 0 <= i < |db.events| ==> r.db.events[i].gameCategoryId == eventId.n
    ensures (TouchesEvent(c) || TouchesAddress(c)) && eventId.Numeric? && EventExists(db, eventId.n) ==>
              (session.authLevel != "admin" ==> r.reply == Status(403)) &&
              (session.authLevel == "admin" && TouchesAddress(c) ==> r.reply == Status(500))
  {
    if !TouchesEvent(c) && !TouchesAddress(c) then Response(db, Status(400))
    else
      match EventDB.EventExist(db, eventId)
      case Err(_) => Response(db, Status(500))
      case Ok(found) =>
        if !found then Response(db, Status(404))
        else
          match EventDB.GetEventOwner(db, eventId.n)
          case Err(_) => Response(db, Status(500))
          case Ok(owner) =>
            // the requester `req.session.id` is undefined and matches no owner
            if !MayManage(session, None, owner) then Response(db, Status(403))
            else
              match ChangesAsWritten(db, eventId.n, c)
              case Err(_) => Response(db, Status(500))
              case Ok(d) => Response(d, Status(204))
  }

  /**
   * The statements `modifyEvent` runs once the requester passed: the
   * shifted model call, then the address update, which throws.
   */
  function ChangesAsWritten(db: Db, eventId: int, c: EventChanges): (r: Result<Db>)
    requires TouchesEvent(c) || TouchesAddress(c)
    ensures TouchesAddress(c) ==> r.Err?
    ensures r.Ok? ==>
              && EventDB.OnlyEventsChange(db, r.value) && |r.value.events| == |db.events|
              && forall i :: 0 <= i < |db.events| ==> r.value.events[i].gameCategoryId == eventId
  {
    ParseShow(eventId);
    var afterEvent :=
      if TouchesEvent(c) then EventDB.ModifyEvent(db, Some(Str(ShowInt(eventId))), c.gameCategoryId, c.eventDate,
                                                  c.eventDescription, c.nbMaxPlayer)
      else Ok(db);
    match afterEvent
    case Err(e) => Err(e)
    case Ok(d1) =>
      // `result[0]` of an undefined `result`
      if TouchesAddress(c) then Err("Cannot read properties of undefined")
      else Ok(d1)
  }

  /**
   * Once `eventExist` is defined, an administrator who changes only the
   * capacity of one event rewrites
   * every other event too: each gets that capacity, and the path id as its
   * category.
   */
  lemma ModifyEventClobbers(db: Db, session: Session, k: nat, j: nat, capacity: int)
    requires session.authLevel == "admin"
    requires k < |db.events| && j < |db.events| && db.events[j].eventId != db.events[k].eventId
    ensures var r := ModifyEventGivenEventExist(db, session, Numeric(db.events[k].eventId),
                                          EventChanges(None, None, None, Some(Int(capacity)), None, None, None, None, None));
            && r.reply == Status(204)
            && r.db.events[j].nbMaxPlayer == capacity && r.db.events[j].gameCategoryId == db.events[k].eventId
  {
    var id := db.events[k].eventId;
    var c := EventChanges(None, None, None, Some(Int(capacity)), None, None, None, None, None);
    assert EventExists(db, id);
    ParseShow(id);
    var m := EventDB.ModifyEvent(db, Some(Str(ShowInt(id))), None, None, None, Some(Int(capacity)));
    assert m.Ok?;
    assert m.value.events[j] == EventDB.EventPatch(db.events[j], Some(Str(ShowInt(id))), None, None, None, Some(Int(capacity)));
    assert ChangesAsWritten(db, id, c) == m;
  }

  /** The address of an event: the `place` of the first row with that id. */
  function PlaceOf(db: Db, eventId: int): (r: Option<int>)
    ensures r.None? <==> !EventExists(db, eventId)
    ensures r.Some? ==> exists k :: 0 <= k < |db.events| && db.events[k].eventId == eventId && db.events[k].place == r.value
    ensures r.Some? && UniqueEventIds(db.events) ==>
              forall k :: 0 <= k < |db.events| && db.events[k].eventId == eventId ==> db.events[k].place == r.value
  {
    match FirstMatch(db.events, (ev: EventRow) => ev.eventId == eventId)
    case None => None
    case Some(k) => Some(db.events[k].place)
  }

  /**
   * `modifyEvent` with the requester taken from `session.userid`, the
   * event updated by id with its own arguments, and the address found
   * through the event's `place`.
   */
  function ModifyEvent(db: Db, session: Session, eventId: RawId, c: EventChanges): (r: Response)
    ensures r.reply == Status(400) <==> !TouchesEvent(c) && !TouchesAddress(c)
    ensures r.reply != Status(204) ==> r.db == db
    ensures (TouchesEvent(c) || TouchesAddress(c)) && eventId.Numeric? && !EventExists(db, eventId.n) ==> r.reply == Status(404)
    ensures (TouchesEvent(c) || TouchesAddress(c)) && eventId.Numeric? && EventExists(db, eventId.n) ==>
              (r.reply == Status(403) <==> !Manages(db, session, eventId.n))
    ensures r.reply == Status(204) <==> Refusal(db, session, eventId, c).None? && FieldsRead(c)
    ensures r.reply == Status(204) ==>
              && eventId.Numeric? && EventExists(db, eventId.n)
              && Manages(db, session, eventId.n)
              && r == Commit(db, eventId.n, c)
  {
    match Refusal(db, session, eventId, c)
    case Some(code) => Response(db, Status(code))
    case None => Commit(db, eventId.n, c)
  }

  /** The event fields given read in their columns: the category and the capacity as integers. */
  predicate FieldsRead(c: EventChanges) {
    EventDB.EventArgsOk(c.gameCategoryId, c.eventDate, None, c.eventDescription, c.nbMaxPlayer)
  }

  /** The status `modifyEvent` answers before it touches the store, if any: 400, 404, 500 or 403. */
  function Refusal(db: Db, session: Session, eventId: RawId, c: EventChanges): (r: Option<int>)
    ensures r != Some(204)
    ensures r == Some(400) <==> !TouchesEvent(c) && !TouchesAddress(c)
    ensures (TouchesEvent(c) || TouchesAddress(c)) && eventId.Numeric? && !EventExists(db, eventId.n) ==> r == Some(404)
    ensures (TouchesEvent(c) || TouchesAddress(c)) && eventId.Numeric? && EventExists(db, eventId.n) ==>
              (r == Some(403) <==> !Manages(db, session, eventId.n))
    ensures r.None? ==>
              && eventId.Numeric? && EventExists(db, eventId.n)
              && Manages(db, session, eventId.n)
  {
    var reqId := session.UserId();
    if !TouchesEvent(c) && !TouchesAddress(c) then Some(400)
    else
      match EventDB.EventExist(db, eventId)
      case Err(_) => Some(500)
      case Ok(found) =>
        if !found then Some(404)
        else
          match EventDB.GetEventOwner(db, eventId.n)
          case Err(_) => Some(500)
          case Ok(owner) => if !MayManage(session, reqId, owner) then Some(403) else None
  }

  /** The changes committed with 204, or rolled back with 500. */
  function Commit(db: Db, eventId: int, c: EventChanges): (r: Response)
    requires EventExists(db, eventId)
    ensures r.reply == Status(204) || r.reply == Status(500)
    ensures r.reply == Status(204) <==> FieldsRead(c)
    ensures r.reply != Status(204) ==> r.db == db
    ensures r.reply == Status(204) ==>
              && r.db.users == db.users && r.db.categories == db.categories && r.db.messages == db.messages
              && r.db.inscriptions == db.inscriptions && r.db.nextId == db.nextId
              && |r.db.events| == |db.events| && |r.db.addresses| == |db.addresses|
    ensures r.reply == Status(204) ==>
              forall i :: 0 <= i < |db.events| && db.events[i].eventId != eventId ==> r.db.events[i] == db.events[i]
    ensures r.reply == Status(204) && !TouchesEvent(c) ==> r.db.events == db.events
    ensures r.reply == Status(204) && TouchesEvent(c) ==>
              && EventDB.EventArgsOk(c.gameCategoryId, c.eventDate, None, c.eventDescription, c.nbMaxPlayer)
              && forall i :: 0 <= i < |db.events| && db.events[i].eventId == eventId ==>
                   r.db.events[i] == EventDB.EventPatch(db.events[i], c.gameCategoryId, c.eventDate, None, c.eventDescription, c.nbMaxPlayer)
    ensures r.reply == Status(204) ==>
              forall j :: 0 <= j < |db.addresses| ==>
                r.db.addresses[j] ==
                  if TouchesAddress(c) && Some(db.addresses[j].addressId) == PlaceOf(db, eventId)
                  then AddressDB.AddressPatch(db.addresses[j], c.street, c.number, c.city, c.postCode, c.country)
                  else db.addresses[j]
  {
    match Changes(db, eventId, c)
    case Err(_) => Response(db, Status(500))
    case Ok(d) => Response(d, Status(204))
  }

  /** The event's own row receives the event fields; no other row changes. */
  function EventChangesOf(db: Db, eventId: int, c: EventChanges): (r: Result<Db>)
    ensures r.Ok? <==> FieldsRead(c)
    ensures r.Ok? ==> EventDB.OnlyEventsChange(db, r.value) && |r.value.events| == |db.events|
    ensures r.Ok? ==>
              forall i :: 0 <= i < |db.events| && db.events[i].eventId != eventId ==> r.value.events[i] == db.events[i]
    ensures r.Ok? && TouchesEvent(c) ==>
              && EventDB.EventArgsOk(c.gameCategoryId, c.eventDate, None, c.eventDescription, c.nbMaxPlayer)
              && forall i :: 0 <= i < |db.events| && db.events[i].eventId == eventId ==>
                   r.value.events[i] == EventDB.EventPatch(db.events[i], c.gameCategoryId, c.eventDate, None, c.eventDescription, c.nbMaxPlayer)
    ensures !TouchesEvent(c) ==> r == Ok(db)
  {
    if TouchesEvent(c) then EventDB.ModifyEventById(db, eventId, c.gameCategoryId, c.eventDate, None, c.eventDescription, c.nbMaxPlayer)
    else Ok(db)
  }

  /** The event's address receives the address fields; no other address changes. */
  function AddressChangesOf(db: Db, place: Option<int>, c: EventChanges): (r: Result<Db>)
    requires place.Some?
    ensures r.Ok?
    ensures r.Ok? ==> r.value == db.(addresses := r.value.addresses) && |r.value.addresses| == |db.addresses|
    ensures r.Ok? ==>
              forall j :: 0 <= j < |db.addresses| ==>
                r.value.addresses[j] ==
                  if TouchesAddress(c) && db.addresses[j].addressId == place.value
                  then AddressDB.AddressPatch(db.addresses[j], c.street, c.number, c.city, c.postCode, c.country)
                  else db.addresses[j]
  {
    if TouchesAddress(c) then AddressDB.UpdateAddress(db, place, c.street, c.number, c.city, c.postCode, c.country)
    else Ok(db)
  }

  /** The statements `modifyEvent` runs once the requester passed: the event update, then its address's. */
  function Changes(db: Db, eventId: int, c: EventChanges): (r: Result<Db>)
    requires EventExists(db, eventId)
    ensures r.Ok? <==> FieldsRead(c)
    ensures r.Ok? ==>
              && r.value.users == db.users && r.value.categories == db.categories && r.value.messages == db.messages
              && r.value.inscriptions == db.inscriptions && r.value.nextId == db.nextId
              && |r.value.events| == |db.events| && |r.value.addresses| == |db.addresses|
    ensures r.Ok? ==>
              forall i :: 0 <= i < |db.events| && db.events[i].eventId != eventId ==> r.value.events[i] == db.events[i]
    ensures r.Ok? && TouchesEvent(c) ==>
              && EventDB.EventArgsOk(c.gameCategoryId, c.eventDate, None, c.eventDescription, c.nbMaxPlayer)
              && forall i :: 0 <= i < |db.events| && db.events[i].eventId == eventId ==>
                   r.value.events[i] == EventDB.EventPatch(db.events[i], c.gameCategoryId, c.eventDate, None, c.eventDescription, c.nbMaxPlayer)
    ensures r.Ok? ==>
              forall j :: 0 <= j < |db.addresses| ==>
                r.value.addresses[j] ==
                  if TouchesAddress(c) && Some(db.addresses[j].addressId) == PlaceOf(db, eventId)
                  then AddressDB.AddressPatch(db.addresses[j], c.street, c.number, c.city, c.postCode, c.country)
                  else db.addresses[j]
  {
    match EventChangesOf(db, eventId, c)
    case Err(e) => Err(e)
    case Ok(d1) => AddressChangesOf(d1, PlaceOf(db, eventId), c)
  }

  /**
   * The creator of an event that holds registrations lowers its capacity
   * below their number: `modifyEvent` commits, and the event now holds
   * more registrations than it admits.
   */
  lemma ModifyEventOverfills(db: Db, session: Session, k: nat)
    requires InscriptionDB.Inv(db) && k < |db.events|
    requires session.UserId() == Some(db.events[k].creatorId)
    requires InscriptionDB.Count(db.inscriptions, InscriptionDB.EventIs(db.events[k].eventId)) > 0
    ensures var n := InscriptionDB.Count(db.inscriptions, InscriptionDB.EventIs(db.events[k].eventId)) - 1;
            var r := ModifyEvent(db, session, Numeric(db.events[k].eventId),
                                 EventChanges(None, None, None, Some(Int(n)), None, None, None, None, None));
            r.reply == Status(204) && !InscriptionDB.WithinCapacity(r.db)
  {
    var id := db.events[k].eventId;
    var n := InscriptionDB.Count(db.inscriptions, InscriptionDB.EventIs(id)) - 1;
    var c := EventChanges(None, None, None, Some(Int(n)), None, None, None, None, None);
    assert EventExists(db, id);
    var e := EventDB.ModifyEventById(db, id, None, None, None, None, Some(Int(n)));
    assert e.Ok?;
    assert Changes(db, id, c) == e;
    var r := ModifyEvent(db, session, Numeric(id), c);
    assert r.db.events[k].nbMaxPlayer == n;
  }

  /** The new capacity is given, reads as an integer, and is below the registrations the event holds. */
  predicate Shrinks(db: Db, eventId: int, c: EventChanges) {
    && c.nbMaxPlayer.Some? && IntOf(c.nbMaxPlayer.value).Some?
    && IntOf(c.nbMaxPlayer.value).value < InscriptionDB.Count(db.inscriptions, InscriptionDB.EventIs(eventId))
  }

  /**
   * `modifyEvent` refusing with 409, after the requester passed, a capacity
   * below the number of registrations the event already holds.
   */
  function ModifyEventGuarded(db: Db, session: Session, eventId: RawId, c: EventChanges): (r: Response)
    ensures r.reply == Status(409) <==> Refusal(db, session, eventId, c).None? && Shrinks(db, eventId.n, c)
    ensures r.reply == Status(409) ==> r.db == db
    ensures r.reply != Status(409) ==> r == ModifyEvent(db, session, eventId, c)
  {
    match Refusal(db, session, eventId, c)
    case Some(code) => Response(db, Status(code))
    case None =>
      if Shrinks(db, eventId.n, c) then Response(db, Status(409))
      else Commit(db, eventId.n, c)
  }

  /** The guarded modification keeps the registration invariant. */
  lemma ModifyEventGuardedPreservesInv(db: Db, session: Session, eventId: RawId, c: EventChanges)
    requires InscriptionDB.Inv(db)
    ensures InscriptionDB.Inv(ModifyEventGuarded(db, session, eventId, c).db)
  {
    var r := ModifyEventGuarded(db, session, eventId, c);
    if r.reply == Status(204) {
      var id := eventId.n;
      assert r == Commit(db, id, c);
      forall k | 0 <= k < |db.events|
        ensures r.db.events[k].eventId == db.events[k].eventId
        ensures InscriptionDB.Count(r.db.inscriptions, InscriptionDB.EventIs(r.db.events[k].eventId)) <= r.db.events[k].nbMaxPlayer
      {
        if TouchesEvent(c) && db.events[k].eventId == id {
          assert r.db.events[k] == EventDB.EventPatch(db.events[k], c.gameCategoryId, c.eventDate, None, c.eventDescription, c.nbMaxPlayer);
        }
      }
    }
  }

  // ---------------------------------------------------------------------
  // checkEvent
  // ---------------------------------------------------------------------

  /**
   * `checkEvent` as written: nothing is sent when neither field is given.
   * Otherwise the call to `eventExist`, which the event model module does
   * not define, throws inside the `try`, and the reply is 500 whether or
   * not the event exists. The store never changes.
   */
  function CheckEventAsWritten(db: Db, eventId: RawId, adminMessage: Option<Value>, isVerified: Option<Value>): (r: Response)
    ensures r.reply == Silent <==> adminMessage.None? && isVerified.None?
    ensures r.reply != Silent ==> r.reply == Status(500)
    ensures r.db == db
  {
    if adminMessage.None? && isVerified.None? then Response(db, Silent)
    else Response(db, Status(500))
  }

  /**
   * `checkEvent` once `eventExist` is defined: an unknown event is 404, and
   * a known one reaches `verifyEvent`, whose statement names a column the
   * table lacks, so the reply is 500 and the store never changes.
   */
  function CheckEventGivenEventExist(db: Db, eventId: RawId, adminMessage: Option<Value>, isVerified: Option<Value>): (r: Response)
    ensures r.reply == Silent <==> adminMessage.None? && isVerified.None?
    ensures r.db == db
    ensures r.reply != Status(204)
    ensures (adminMessage.Some? || isVerified.Some?) && eventId.Numeric? ==>
              r.reply == if EventExists(db, eventId.n) then Status(500) else Status(404)
  {
    if adminMessage.None? && isVerified.None? then Response(db, Silent)
    else
      match EventDB.EventExist(db, eventId)
      case Err(_) => Response(db, Status(500))
      case Ok(found) =>
        if !found then Response(db, Status(404))
        else
          match EventDB.VerifyEventAsWritten(db, eventId.n, isVerified, adminMessage)
          case Err(_) => Response(db, Status(500))
          case Ok(d) => Response(d, Status(204))
  }

  /** `checkEvent` over `verifyEvent` writing the `isVerified` column. */
  function CheckEvent(db: Db, eventId: RawId, adminMessage: Option<Value>, isVerified: Option<Value>): (r: Response)
    ensures r.reply == Silent <==> adminMessage.None? && isVerified.None?
    ensures r.reply != Status(204) ==> r.db == db
    ensures (adminMessage.Some? || isVerified.Some?) && eventId.Numeric? && !EventExists(db, eventId.n) ==> r.reply == Status(404)
    ensures r.reply == Status(204) <==>
              && (adminMessage.Some? || isVerified.Some?) && eventId.Numeric? && EventExists(db, eventId.n)
              && EventDB.EventAccepts("isVerified", isVerified.GetOr(Bool(true)))
              && EventDB.EventAccepts("adminMessage", adminMessage.GetOr(Null))
    ensures r.reply == Status(204) ==>
              && EventDB.OnlyEventsChange(db, r.db) && |r.db.events| == |db.events|
              && forall i :: 0 <= i < |db.events| ==>
                   r.db.events[i] == if db.events[i].eventId == eventId.n then EventDB.Verified(db.events[i], isVerified, adminMessage)
                                     else db.events[i]
  {
    if adminMessage.None? && isVerified.None? then Response(db, Silent)
    else
      match EventDB.EventExist(db, eventId)
      case Err(_) => Response(db, Status(500))
      case Ok(found) =>
        if !found then Response(db, Status(404))
        else
          match EventDB.VerifyEvent(db, eventId.n, isVerified, adminMessage)
          case Err(_) => Response(db, Status(500))
          case Ok(d) => Response(d, Status(204))
  }

  /**
   * Because an omitted flag defaults to `true`, an administrator who only
   * leaves a message on an event also marks it verified.
   */
  lemma MessageAloneVerifies(db: Db, k: nat, message: string)
    requires k < |db.events|
    ensures var r := CheckEvent(db, Numeric(db.events[k].eventId), Some(Str(message)), None);
            r.reply == Status(204) && r.db.events[k].isVerified == Bool(true) && r.db.events[k].adminMessage == Str(message)
  {
    assert EventExists(db, db.events[k].eventId);
    assert EventDB.EventAccepts("adminMessage", Str(message)) by { assert "adminMessage" in EventDB.TextColumns; }
    assert EventDB.EventAccepts("isVerified", Bool(true)) by {
      assert "isVerified" !in EventDB.IntColumns && "isVerified" !in EventDB.TextColumns by {
        assert |"isVerified"| == 10;
      }
    }
  }

  /**
   * An administrator leaves a message on an existing event: as written the
   * reply is 500 and nothing is stored, where the handler with
   * `eventExist` defined and the flag's column named correctly answers 204.
   */
  lemma CheckEventThrows(db: Db, k: nat, message: string)
    requires k < |db.events|
    ensures CheckEventAsWritten(db, Numeric(db.events[k].eventId), Some(Str(message)), None) == Response(db, Status(500))
    ensures CheckEvent(db, Numeric(db.events[k].eventId), Some(Str(message)), None).reply == Status(204)
  {
    MessageAloneVerifies(db, k, message);
  }
}
