/**
 * `modele/eventDB.js`: the event row's life cycle (insertion with its
 * initial state, the owner lookup, the verification update, the partial
 * update) and the cascade that deletes an event with what refers to it.
 */
module EventDB {
  import opened Wrappers
  import opened Tables
  import opened SqlUpdate
  import opened InscriptionDB
  import opened MessageDB
  import opened Http

  // ---------------------------------------------------------------------
  // Column typing of the event table.
  // ---------------------------------------------------------------------

  const IntColumns: set<string> := {"creatorId", "gameCategoryId", "place", "nbMaxPlayer"}
  const TextColumns: set<string> := {"creationDate", "eventDate", "eventDescription", "adminMessage"}

  /**
   * Integer columns take whatever reads as an integer (`IntOf`), date and
   * text columns take any value, and `isVerified`, a boolean, takes what
   * reads as a boolean (`BoolOf`) or null. A name that is none of these is
   * not a column of the table, and the statement fails.
   */
  predicate EventAccepts(column: string, v: Value) {
    if column in IntColumns then IntOf(v).Some?
    else if column in TextColumns then true
    else column == "isVerified" && (BoolOf(v).Some? || v.Null?)
  }

  function EventAssign(row: EventRow, column: string, v: Value): EventRow {
    if column == "gameCategoryId" && IntOf(v).Some? then row.(gameCategoryId := IntOf(v).value)
    else if column == "eventDate" then row.(eventDate := v)
    else if column == "place" && IntOf(v).Some? then row.(place := IntOf(v).value)
    else if column == "eventDescription" then row.(eventDescription := v)
    else if column == "nbMaxPlayer" && IntOf(v).Some? then row.(nbMaxPlayer := IntOf(v).value)
    else if column == "isVerified" then row.(isVerified := StoredFlag(v))
    else if column == "adminMessage" then row.(adminMessage := v)
    else row
  }

  /** What the boolean column holds once it has read a value: the boolean read, or null. */
  function StoredFlag(v: Value): (r: Value)
    ensures BoolOf(v).Some? ==> r == Bool(BoolOf(v).value)
    ensures v.Null? ==> r == Null
  {
    if BoolOf(v).Some? then Bool(BoolOf(v).value) else v
  }

  function EventKey(row: EventRow): int {
    row.eventId
  }

  /** Every table but `events` is as it was. */
  predicate OnlyEventsChange(db: Db, r: Db) {
    r == db.(events := r.events)
  }

  // ---------------------------------------------------------------------
  // getEventOwner, and the existence test the handlers call.
  // ---------------------------------------------------------------------

  /** `getEventOwner`: the creator of the first row with that id; with no row, `rows[0]` is undefined and the call throws. */
  function GetEventOwner(db: Db, eventId: int): (r: Result<int>)
    ensures r.Err? <==> forall k :: 0 <= k < |db.events| ==> db.events[k].eventId != eventId
    ensures r.Ok? ==> exists k :: 0 <= k < |db.events| && db.events[k].eventId == eventId && db.events[k].creatorId == r.value
    ensures r.Ok? && UniqueEventIds(db.events) ==>
              forall k :: 0 <= k < |db.events| && db.events[k].eventId == eventId ==> db.events[k].creatorId == r.value
  {
    match FirstMatch(db.events, (ev: EventRow) => ev.eventId == eventId)
    case None => Err("Cannot read properties of undefined (reading 'creatorid')")
    case Some(k) => Ok(db.events[k].creatorId)
  }

  /**
   * `eventExist`, which the handlers call but `modele/eventDB.js` does not
   * define; it is given the meaning of its siblings `userExist` and
   * `categoryExist`: a count of the rows with that id. A non-numeric id
   * makes the count's statement fail.
   */
  function EventExist(db: Db, eventId: RawId): (r: Result<bool>)
    ensures r.Err? <==> eventId.NonNumeric?
    ensures r.Ok? ==> (r.value <==> exists k :: 0 <= k < |db.events| && db.events[k].eventId == eventId.n)
  {
    match eventId
    case NonNumeric(_) => Err("invalid input syntax for type integer")
    case Numeric(id) => Ok(FirstMatch(db.events, (ev: EventRow) => ev.eventId == id).Some?)
  }

  // ---------------------------------------------------------------------
  // insertEvent
  // ---------------------------------------------------------------------

  /**
   * `insertEvent`: one new event under a fresh key, created now, dated by
   * the request's date, not yet verified (`isVerified` 0, read as false) and with no admin
   * message. `now` is `new Date()` and `toDate` is `new Date(date)`.
   */
  function InsertEvent(db: Db, creatorId: Value, gameCategoryId: Value, date: Value, place: int,
                       eventDescription: Value, nbMaxPlayer: Value, now: Value, toDate: Value -> Value): (r: Result<Db>)
    ensures r.Ok? <==> IntOf(creatorId).Some? && IntOf(gameCategoryId).Some? && IntOf(nbMaxPlayer).Some?
    ensures r.Ok? ==> OnlyEventsChange(db.(nextId := r.value.nextId), r.value) && r.value.nextId == db.nextId + 1
    ensures r.Ok? ==> |r.value.events| == |db.events| + 1 && r.value.events[..|db.events|] == db.events
    ensures r.Ok? ==>
              var ev := r.value.events[|db.events|];
              && ev.eventId == db.nextId && ev.creatorId == IntOf(creatorId).value && ev.gameCategoryId == IntOf(gameCategoryId).value
              && ev.creationDate == now && ev.eventDate == toDate(date) && ev.place == place
              && ev.eventDescription == eventDescription && ev.isVerified == Bool(false)
              && ev.nbMaxPlayer == IntOf(nbMaxPlayer).value && ev.adminMessage == Null
  {
    if IntOf(creatorId).None? || IntOf(gameCategoryId).None? || IntOf(nbMaxPlayer).None? then
      Err("invalid input syntax for type integer")
    else
      var ev := EventRow(db.nextId, IntOf(creatorId).value, IntOf(gameCategoryId).value, now, toDate(date), place,
                         eventDescription, StoredFlag(Int(0)), IntOf(nbMaxPlayer).value, Null);
      assert (db.events + [ev])[..|db.events|] == db.events;
      Ok(db.(events := db.events + [ev], nextId := db.nextId + 1))
  }

  /**
   * On a store whose keys were all drawn, the new event's key is new to the
   * event table, and the store's keys are still all drawn.
   */
  lemma InsertEventFresh(db: Db, creatorId: Value, gameCategoryId: Value, date: Value, place: int,
                         eventDescription: Value, nbMaxPlayer: Value, now: Value, toDate: Value -> Value)
    requires KeysDrawn(db)
    ensures var r := InsertEvent(db, creatorId, gameCategoryId, date, place, eventDescription, nbMaxPlayer, now, toDate);
            r.Ok? ==>
              && KeysDrawn(r.value)
              && forall i :: 0 <= i < |db.events| ==> db.events[i].eventId != r.value.events[|db.events|].eventId
  {
  }

  /**
   * A new event with a capacity of at least zero keeps the registration
   * invariant, when its key is new and no registration names it yet.
   */
  lemma InsertEventPreservesInv(db: Db, creatorId: Value, gameCategoryId: Value, date: Value, place: int,
                                eventDescription: Value, nbMaxPlayer: Value, now: Value, toDate: Value -> Value)
    requires Inv(db) && KeysDrawn(db)
    requires forall i :: 0 <= i < |db.inscriptions| ==> db.inscriptions[i].eventId < db.nextId
    requires IntOf(nbMaxPlayer).Some? ==> IntOf(nbMaxPlayer).value >= 0
    ensures var r := InsertEvent(db, creatorId, gameCategoryId, date, place, eventDescription, nbMaxPlayer, now, toDate);
            r.Ok? ==> Inv(r.value)
  {
    var r := InsertEvent(db, creatorId, gameCategoryId, date, place, eventDescription, nbMaxPlayer, now, toDate);
    if r.Ok? {
      var d := r.value;
      var n := |db.events|;
      assert Count(db.inscriptions, EventIs(db.nextId)) == 0 by {
        CountPositive(db.inscriptions, EventIs(db.nextId));
      }
      forall k | 0 <= k < |d.events|
        ensures Count(d.inscriptions, EventIs(d.events[k].eventId)) <= d.events[k].nbMaxPlayer
      {
        if k < n {
          assert d.events[k] == db.events[k];
        }
      }
      forall x | x in d.inscriptions
        ensures x.inscriptionId < d.nextId
      {
      }
    }
  }

  // ---------------------------------------------------------------------
  // deleteEvent: four statements, in order.
  // ---------------------------------------------------------------------

  /** The `place` of every event row with that id: what `SELECT place FROM event WHERE eventid = $1` yields. */
  function Places(events: seq<EventRow>, eventId: int): set<int> {
    set k | 0 <= k < |events| && events[k].eventId == eventId :: events[k].place
  }

  /** `DELETE FROM address WHERE addressid IN (SELECT place FROM event WHERE eventid = $1)`. */
  function DropPlaces(db: Db, eventId: int): (r: Db)
    ensures r == db.(addresses := r.addresses)
    ensures forall a :: a in r.addresses <==> a in db.addresses && a.addressId !in Places(db.events, eventId)
  {
    var doomed := (a: AddressRow) => a.addressId in Places(db.events, eventId);
    DeleteSpec(db.addresses, doomed);
    db.(addresses := Delete(db.addresses, doomed))
  }

  /** `DELETE FROM event WHERE eventId = $1`. */
  function DropEvent(db: Db, eventId: int): (r: Db)
    ensures OnlyEventsChange(db, r)
    ensures forall ev :: ev in r.events <==> ev in db.events && ev.eventId != eventId
  {
    var doomed := (ev: EventRow) => ev.eventId == eventId;
    DeleteSpec(db.events, doomed);
    db.(events := Delete(db.events, doomed))
  }

  /**
   * `deleteEvent`: the event's address, its messages, its registrations,
   * then the event row; every other row of every table stays.
   */
  function DeleteEvent(db: Db, eventId: int): (r: Db)
    ensures r.users == db.users && r.categories == db.categories && r.nextId == db.nextId
    ensures forall a :: a in r.addresses <==> a in db.addresses && a.addressId !in Places(db.events, eventId)
    ensures forall m :: m in r.messages <==> m in db.messages && m.eventId != eventId
    ensures forall x :: x in r.inscriptions <==> x in db.inscriptions && x.eventId != eventId
    ensures forall ev :: ev in r.events <==> ev in db.events && ev.eventId != eventId
  {
    var a := DropPlaces(db, eventId);
    var m := DeleteMessageWithEvent(a, eventId);
    var i := DeleteAllFromEvent(m, eventId);
    DropEvent(i, eventId)
  }

  /**
   * The order of the cascade matters: the address statement finds the
   * address through the event row, so deleting the event row first would
   * leave its address behind, while `deleteEvent` removes it.
   */
  lemma DeleteEventOrder(db: Db, eventId: int, k: nat, a: AddressRow)
    requires k < |db.events| && db.events[k].eventId == eventId
    requires a in db.addresses && a.addressId == db.events[k].place
    ensures a !in DeleteEvent(db, eventId).addresses
    ensures a in DropPlaces(DropEvent(db, eventId), eventId).addresses
  {
    assert a.addressId in Places(db.events, eventId);
    var early := DropEvent(db, eventId);
    assert Places(early.events, eventId) == {} by {
      forall j | 0 <= j < |early.events| ensures early.events[j].eventId != eventId {
        assert early.events[j] in early.events;
      }
    }
  }

  /**
   * `deleteUsersEvent`, which `controleur/userController.js` calls but
   * `modele/eventDB.js` does not define; it is given the meaning of
   * `deleteEvent` applied to every event the user created.
   */
  function DeleteUsersEvent(db: Db, userId: int): (r: Db)
    ensures r.users == db.users && r.categories == db.categories && r.nextId == db.nextId
    ensures forall ev :: ev in r.events <==> ev in db.events && ev.creatorId != userId
    ensures forall a :: a in r.addresses <==> a in db.addresses && a.addressId !in OwnedPlaces(db.events, userId)
    ensures forall m :: m in r.messages <==> m in db.messages && m.eventId !in OwnedIds(db.events, userId)
    ensures forall x :: x in r.inscriptions <==> x in db.inscriptions && x.eventId !in OwnedIds(db.events, userId)
  {
    var places := OwnedPlaces(db.events, userId);
    var ids := OwnedIds(db.events, userId);
    var dropAddress := (a: AddressRow) => a.addressId in places;
    var dropMessage := (m: MessageRow) => m.eventId in ids;
    var dropInscription := (x: InscriptionRow) => x.eventId in ids;
    var dropEvent := (ev: EventRow) => ev.creatorId == userId;
    DeleteSpec(db.addresses, dropAddress);
    DeleteSpec(db.messages, dropMessage);
    DeleteSpec(db.inscriptions, dropInscription);
    DeleteSpec(db.events, dropEvent);
    db.(addresses := Delete(db.addresses, dropAddress), messages := Delete(db.messages, dropMessage),
        inscriptions := Delete(db.inscriptions, dropInscription), events := Delete(db.events, dropEvent))
  }

  /** The places of the events a user created. */
  function OwnedPlaces(events: seq<EventRow>, userId: int): set<int> {
    set k | 0 <= k < |events| && events[k].creatorId == userId :: events[k].place
  }

  /** The ids of the events a user created. */
  function OwnedIds(events: seq<EventRow>, userId: int): set<int> {
    set k | 0 <= k < |events| && events[k].creatorId == userId :: events[k].eventId
  }


  // ---------------------------------------------------------------------
  // modifyEvent: the partial-update builder, with no WHERE clause.
  // ---------------------------------------------------------------------

  /** The builder's arguments in the order it tests them. */
  function EventFields(gameCategoryId: Option<Value>, eventDate: Option<Value>, place: Option<Value>,
                       eventDescription: Option<Value>, nbMaxPlayer: Option<Value>): seq<Field> {
    [Field("gameCategoryId", gameCategoryId), Field("eventDate", eventDate), Field("place", place),
     Field("eventDescription", eventDescription), Field("nbMaxPlayer", nbMaxPlayer)]
  }

  /** `modifyEvent`'s query: the built SET list and no `WHERE` at all. */
  function ModifyEventQuery(gameCategoryId: Option<Value>, eventDate: Option<Value>, place: Option<Value>,
                            eventDescription: Option<Value>, nbMaxPlayer: Option<Value>): (q: UpdateQuery)
    ensures q.table == "event" && q.where.None?
    ensures Numbered(q.clause)
  {
    UpdateQuery("event", SetClauseOf(EventFields(gameCategoryId, eventDate, place, eventDescription, nbMaxPlayer)), None)
  }

  /**
   * One ` col = $k ` fragment per defined argument, in the order
   * gameCategoryId, eventDate, place, eventDescription, nbMaxPlayer, each
   * numbered by its position in `params`.
   */
  lemma ModifyEventLayout(q: UpdateQuery, gameCategoryId: Option<Value>, eventDate: Option<Value>, place: Option<Value>,
                          eventDescription: Option<Value>, nbMaxPlayer: Option<Value>)
    requires q == ModifyEventQuery(gameCategoryId, eventDate, place, eventDescription, nbMaxPlayer)
    ensures |q.clause.params| == N(gameCategoryId) + N(eventDate) + N(place) + N(eventDescription) + N(nbMaxPlayer)
    ensures gameCategoryId.Some? ==> Slot(q.clause, 0, "gameCategoryId", gameCategoryId.value)
    ensures eventDate.Some? ==> Slot(q.clause, N(gameCategoryId), "eventDate", eventDate.value)
    ensures place.Some? ==> Slot(q.clause, N(gameCategoryId) + N(eventDate), "place", place.value)
    ensures eventDescription.Some? ==>
              Slot(q.clause, N(gameCategoryId) + N(eventDate) + N(place), "eventDescription", eventDescription.value)
    ensures nbMaxPlayer.Some? ==>
              Slot(q.clause, N(gameCategoryId) + N(eventDate) + N(place) + N(eventDescription), "nbMaxPlayer", nbMaxPlayer.value)
  {
    FiveFieldLayout(EventFields(gameCategoryId, eventDate, place, eventDescription, nbMaxPlayer),
                    "gameCategoryId", gameCategoryId, "eventDate", eventDate, "place", place,
                    "eventDescription", eventDescription, "nbMaxPlayer", nbMaxPlayer);
  }

  /** An undefined argument contributes no fragment. */
  lemma ModifyEventOmits(q: UpdateQuery, gameCategoryId: Option<Value>, eventDate: Option<Value>, place: Option<Value>,
                         eventDescription: Option<Value>, nbMaxPlayer: Option<Value>)
    requires q == ModifyEventQuery(gameCategoryId, eventDate, place, eventDescription, nbMaxPlayer)
    ensures gameCategoryId.None? ==> Absent(q.clause, "gameCategoryId")
    ensures eventDate.None? ==> Absent(q.clause, "eventDate")
    ensures place.None? ==> Absent(q.clause, "place")
    ensures eventDescription.None? ==> Absent(q.clause, "eventDescription")
    ensures nbMaxPlayer.None? ==> Absent(q.clause, "nbMaxPlayer")
  {
    assert |"eventDate"| == 9 && |"eventDescription"| == 16;
    assert "gameCategoryId"[0] == 'g' && "eventDate"[0] == 'e' && "place"[0] == 'p' && "nbMaxPlayer"[0] == 'n';
    var fs := EventFields(gameCategoryId, eventDate, place, eventDescription, nbMaxPlayer);
    assert fs[0] == Field("gameCategoryId", gameCategoryId) && fs[1] == Field("eventDate", eventDate);
    assert fs[2] == Field("place", place) && fs[3] == Field("eventDescription", eventDescription);
    assert fs[4] == Field("nbMaxPlayer", nbMaxPlayer);
    FiveDistinct(fs);
    FiveFieldAbsent(fs);
  }

  /**
   * Each defined argument is one its column accepts: the three integer
   * columns need a value that reads as an integer; the date and the
   * description take any value.
   */
  predicate EventArgsOk(gameCategoryId: Option<Value>, eventDate: Option<Value>, place: Option<Value>,
                        eventDescription: Option<Value>, nbMaxPlayer: Option<Value>) {
    && (gameCategoryId.Some? ==> IntOf(gameCategoryId.value).Some?)
    && (place.Some? ==> IntOf(place.value).Some?)
    && (nbMaxPlayer.Some? ==> IntOf(nbMaxPlayer.value).Some?)
  }

  /** The row with every defined argument written to its column. */
  function EventPatch(row: EventRow, gameCategoryId: Option<Value>, eventDate: Option<Value>, place: Option<Value>,
                      eventDescription: Option<Value>, nbMaxPlayer: Option<Value>): EventRow
    requires EventArgsOk(gameCategoryId, eventDate, place, eventDescription, nbMaxPlayer)
  {
    row.(gameCategoryId := if gameCategoryId.Some? then IntOf(gameCategoryId.value).value else row.gameCategoryId,
         eventDate := eventDate.GetOr(row.eventDate),
         place := if place.Some? then IntOf(place.value).value else row.place,
         eventDescription := eventDescription.GetOr(row.eventDescription),
         nbMaxPlayer := if nbMaxPlayer.Some? then IntOf(nbMaxPlayer.value).value else row.nbMaxPlayer)
  }

  lemma EventFieldsShape(gameCategoryId: Option<Value>, eventDate: Option<Value>, place: Option<Value>,
                         eventDescription: Option<Value>, nbMaxPlayer: Option<Value>)
    ensures var fs := EventFields(gameCategoryId, eventDate, place, eventDescription, nbMaxPlayer);
            (exists i :: 0 <= i < |fs| && fs[i].value.Some?) <==>
              gameCategoryId.Some? || eventDate.Some? || place.Some? || eventDescription.Some? || nbMaxPlayer.Some?
    ensures var fs := EventFields(gameCategoryId, eventDate, place, eventDescription, nbMaxPlayer);
            (forall i :: 0 <= i < |fs| && fs[i].value.Some? ==> EventAccepts(fs[i].column, fs[i].value.value)) <==>
              EventArgsOk(gameCategoryId, eventDate, place, eventDescription, nbMaxPlayer)
  {
    var fs := EventFields(gameCategoryId, eventDate, place, eventDescription, nbMaxPlayer);
    assert fs[0].value == gameCategoryId && fs[1].value == eventDate && fs[2].value == place;
    assert fs[3].value == eventDescription && fs[4].value == nbMaxPlayer;
    assert "gameCategoryId" in IntColumns && "place" in IntColumns && "nbMaxPlayer" in IntColumns;
    assert "eventDate" !in IntColumns && "eventDescription" !in IntColumns;
    assert "eventDate" in TextColumns && "eventDescription" in TextColumns;
  }

  lemma EventFieldsApply(row: EventRow, gameCategoryId: Option<Value>, eventDate: Option<Value>, place: Option<Value>,
                         eventDescription: Option<Value>, nbMaxPlayer: Option<Value>)
    requires EventArgsOk(gameCategoryId, eventDate, place, eventDescription, nbMaxPlayer)
    ensures ApplyFields(row, EventFields(gameCategoryId, eventDate, place, eventDescription, nbMaxPlayer), EventAssign)
            == EventPatch(row, gameCategoryId, eventDate, place, eventDescription, nbMaxPlayer)
  {
    ApplyFive(row, Field("gameCategoryId", gameCategoryId), Field("eventDate", eventDate), Field("place", place),
              Field("eventDescription", eventDescription), Field("nbMaxPlayer", nbMaxPlayer), EventAssign);
    assert "gameCategoryId"[0] == 'g' && "eventDate"[0] == 'e' && "place"[0] == 'p' && "eventDescription"[0] == 'e' && "nbMaxPlayer"[0] == 'n';
    assert |"eventDate"| == 9 && |"eventDescription"| == 16;
    var r1 := Step(row, Field("gameCategoryId", gameCategoryId), EventAssign);
    assert r1 == if gameCategoryId.Some? then row.(gameCategoryId := IntOf(gameCategoryId.value).value) else row;
    var r2 := Step(r1, Field("eventDate", eventDate), EventAssign);
    assert r2 == if eventDate.Some? then r1.(eventDate := eventDate.value) else r1;
    var r3 := Step(r2, Field("place", place), EventAssign);
    assert r3 == if place.Some? then r2.(place := IntOf(place.value).value) else r2;
    var r4 := Step(r3, Field("eventDescription", eventDescription), EventAssign);
    assert r4 == if eventDescription.Some? then r3.(eventDescription := eventDescription.value) else r3;
    var r5 := Step(r4, Field("nbMaxPlayer", nbMaxPlayer), EventAssign);
    assert r5 == if nbMaxPlayer.Some? then r4.(nbMaxPlayer := IntOf(nbMaxPlayer.value).value) else r4;
  }

  /**
   * The update the builder's query performs under `where`: it fails with no
   * defined argument or an argument its column refuses, and otherwise
   * patches every targeted row.
   */
  function PatchEvents(db: Db, where: Option<Where>, gameCategoryId: Option<Value>, eventDate: Option<Value>,
                       place: Option<Value>, eventDescription: Option<Value>, nbMaxPlayer: Option<Value>): (r: Result<Db>)
    requires where.Some? ==> where.value.key.Some?
    ensures r.Ok? <==>
              && (gameCategoryId.Some? || eventDate.Some? || place.Some? || eventDescription.Some? || nbMaxPlayer.Some?)
              && EventArgsOk(gameCategoryId, eventDate, place, eventDescription, nbMaxPlayer)
    ensures r.Ok? ==> OnlyEventsChange(db, r.value) && |r.value.events| == |db.events|
    ensures r.Ok? ==> forall i :: 0 <= i < |db.events| ==>
              r.value.events[i] ==
                if Targets(where, db.events[i].eventId)
                then EventPatch(db.events[i], gameCategoryId, eventDate, place, eventDescription, nbMaxPlayer)
                else db.events[i]
  {
    match EventUpdate(db.events, where, gameCategoryId, eventDate, place, eventDescription, nbMaxPlayer)
    case Err(e) => Err(e)
    case Ok(rows) => Ok(db.(events := rows))
  }

  /** The built event update run on the event rows. */
  function EventUpdate(rows: seq<EventRow>, where: Option<Where>, gameCategoryId: Option<Value>, eventDate: Option<Value>,
                       place: Option<Value>, eventDescription: Option<Value>, nbMaxPlayer: Option<Value>): (r: Result<seq<EventRow>>)
    requires where.Some? ==> where.value.key.Some?
    ensures r.Ok? <==>
              && (gameCategoryId.Some? || eventDate.Some? || place.Some? || eventDescription.Some? || nbMaxPlayer.Some?)
              && EventArgsOk(gameCategoryId, eventDate, place, eventDescription, nbMaxPlayer)
    ensures r.Ok? ==>
              && EventArgsOk(gameCategoryId, eventDate, place, eventDescription, nbMaxPlayer)
              && |r.value| == |rows|
              && forall i :: 0 <= i < |rows| ==>
                   r.value[i] == if Targets(where, rows[i].eventId)
                                 then EventPatch(rows[i], gameCategoryId, eventDate, place, eventDescription, nbMaxPlayer)
                                 else rows[i]
  {
    PatchEventsOk(rows, where, gameCategoryId, eventDate, place, eventDescription, nbMaxPlayer);
    PatchEventsRows(rows, where, gameCategoryId, eventDate, place, eventDescription, nbMaxPlayer);
    ExecUpdate(rows, UpdateQuery("event", SetClauseOf(EventFields(gameCategoryId, eventDate, place, eventDescription, nbMaxPlayer)), where),
               EventKey, EventAccepts, EventAssign)
  }

  /** When the built event update succeeds. */
  lemma PatchEventsOk(rows: seq<EventRow>, where: Option<Where>, gameCategoryId: Option<Value>, eventDate: Option<Value>,
                      place: Option<Value>, eventDescription: Option<Value>, nbMaxPlayer: Option<Value>)
    requires where.Some? ==> where.value.key.Some?
    ensures var fs := EventFields(gameCategoryId, eventDate, place, eventDescription, nbMaxPlayer);
            ExecUpdate(rows, UpdateQuery("event", SetClauseOf(fs), where), EventKey, EventAccepts, EventAssign).Ok? <==>
              && (gameCategoryId.Some? || eventDate.Some? || place.Some? || eventDescription.Some? || nbMaxPlayer.Some?)
              && EventArgsOk(gameCategoryId, eventDate, place, eventDescription, nbMaxPlayer)
  {
    EventFieldsShape(gameCategoryId, eventDate, place, eventDescription, nbMaxPlayer);
    ExecBuilt(rows, "event", EventFields(gameCategoryId, eventDate, place, eventDescription, nbMaxPlayer), where,
              EventKey, EventAccepts, EventAssign);
  }

  /** What the built event update does to each row when it succeeds. */
  lemma PatchEventsRows(rows: seq<EventRow>, where: Option<Where>, gameCategoryId: Option<Value>, eventDate: Option<Value>,
                        place: Option<Value>, eventDescription: Option<Value>, nbMaxPlayer: Option<Value>)
    ensures var fs := EventFields(gameCategoryId, eventDate, place, eventDescription, nbMaxPlayer);
            var res := ExecUpdate(rows, UpdateQuery("event", SetClauseOf(fs), where), EventKey, EventAccepts, EventAssign);
            res.Ok? ==>
              && EventArgsOk(gameCategoryId, eventDate, place, eventDescription, nbMaxPlayer)
              && |res.value| == |rows|
              && forall i :: 0 <= i < |rows| ==>
                   res.value[i] == if Targets(where, rows[i].eventId)
                                   then EventPatch(rows[i], gameCategoryId, eventDate, place, eventDescription, nbMaxPlayer)
                                   else rows[i]
  {
    var fs := EventFields(gameCategoryId, eventDate, place, eventDescription, nbMaxPlayer);
    var res := ExecUpdate(rows, UpdateQuery("event", SetClauseOf(fs), where), EventKey, EventAccepts, EventAssign);
    EventFieldsShape(gameCategoryId, eventDate, place, eventDescription, nbMaxPlayer);
    ExecBuilt(rows, "event", fs, where, EventKey, EventAccepts, EventAssign);
    if res.Ok? {
      forall i | 0 <= i < |rows| && Targets(where, rows[i].eventId)
        ensures ApplyFields(rows[i], fs, EventAssign) == EventPatch(rows[i], gameCategoryId, eventDate, place, eventDescription, nbMaxPlayer)
      {
        EventFieldsApply(rows[i], gameCategoryId, eventDate, place, eventDescription, nbMaxPlayer);
      }
    }
  }

  /**
   * `modifyEvent` as written: the query has no `WHERE`, so every event row
   * receives the patch.
   */
  function ModifyEvent(db: Db, gameCategoryId: Option<Value>, eventDate: Option<Value>, place: Option<Value>,
                       eventDescription: Option<Value>, nbMaxPlayer: Option<Value>): (r: Result<Db>)
    ensures r.Ok? <==>
              && (gameCategoryId.Some? || eventDate.Some? || place.Some? || eventDescription.Some? || nbMaxPlayer.Some?)
              && EventArgsOk(gameCategoryId, eventDate, place, eventDescription, nbMaxPlayer)
    ensures r.Ok? ==> OnlyEventsChange(db, r.value) && |r.value.events| == |db.events|
    ensures r.Ok? ==> forall i :: 0 <= i < |db.events| ==>
              r.value.events[i] == EventPatch(db.events[i], gameCategoryId, eventDate, place, eventDescription, nbMaxPlayer)
  {
    PatchEvents(db, ModifyEventQuery(gameCategoryId, eventDate, place, eventDescription, nbMaxPlayer).where,
                gameCategoryId, eventDate, place, eventDescription, nbMaxPlayer)
  }

  /** `modifyEvent` with the `WHERE eventId = ...` it lacks: only that event changes. */
  function ModifyEventById(db: Db, eventId: int, gameCategoryId: Option<Value>, eventDate: Option<Value>, place: Option<Value>,
                           eventDescription: Option<Value>, nbMaxPlayer: Option<Value>): (r: Result<Db>)
    ensures r.Ok? <==>
              && (gameCategoryId.Some? || eventDate.Some? || place.Some? || eventDescription.Some? || nbMaxPlayer.Some?)
              && EventArgsOk(gameCategoryId, eventDate, place, eventDescription, nbMaxPlayer)
    ensures r.Ok? ==> OnlyEventsChange(db, r.value) && |r.value.events| == |db.events|
    ensures r.Ok? ==> forall i :: 0 <= i < |db.events| ==>
              r.value.events[i] ==
                if db.events[i].eventId == eventId
                then EventPatch(db.events[i], gameCategoryId, eventDate, place, eventDescription, nbMaxPlayer)
                else db.events[i]
  {
    PatchEvents(db, Some(Where("eventId", Some(eventId))), gameCategoryId, eventDate, place, eventDescription, nbMaxPlayer)
  }

  // ---------------------------------------------------------------------
  // verifyEvent
  // ---------------------------------------------------------------------

  /**
   * `verifyEvent`'s query, with the column name it writes the flag to:
   * `isVerify = $1, adminMessage = $2 WHERE eventId = $3`. An omitted flag
   * is `true` and an omitted message is `null` (the parameter defaults).
   */
  function VerifyEventQuery(flagColumn: string, eventId: int, isVerify: Option<Value>, adminMessage: Option<Value>): (q: UpdateQuery)
    ensures Numbered(q.clause)
    ensures q.clause.params == [isVerify.GetOr(Bool(true)), adminMessage.GetOr(Null)]
    ensures q.where == Some(Where("eventId", Some(eventId)))
  {
    UpdateQuery("event",
                SetClause([Assign(flagColumn, 1), Assign("adminMessage", 2)], [isVerify.GetOr(Bool(true)), adminMessage.GetOr(Null)]),
                Some(Where("eventId", Some(eventId))))
  }

  /** `verifyEvent` as written: the table has no column `isVerify`, so the statement always fails. */
  function VerifyEventAsWritten(db: Db, eventId: int, isVerify: Option<Value>, adminMessage: Option<Value>): (r: Result<Db>)
    ensures r.Err?
  {
    var q := VerifyEventQuery("isVerify", eventId, isVerify, adminMessage);
    assert !EventAccepts(q.clause.sets[0].column, q.clause.params[0]) by {
      assert "isVerify" != "isVerified" by { assert |"isVerify"| == 8; }
      assert "isVerify" !in IntColumns && "isVerify" !in TextColumns;
    }
    match ExecUpdate(db.events, q, EventKey, EventAccepts, EventAssign)
    case Ok(rows) => Ok(db.(events := rows))
    case Err(e) => Err(e)
  }

  /** The verification patch: the flag and the message, with their defaults. */
  function Verified(row: EventRow, isVerify: Option<Value>, adminMessage: Option<Value>): EventRow {
    row.(isVerified := StoredFlag(isVerify.GetOr(Bool(true))), adminMessage := adminMessage.GetOr(Null))
  }

  /**
   * `verifyEvent` writing the `isVerified` column: the event with that id
   * gets the flag (default `true`) and the message (default `null`).
   */
  function VerifyEvent(db: Db, eventId: int, isVerify: Option<Value>, adminMessage: Option<Value>): (r: Result<Db>)
    ensures r.Ok? <==> EventAccepts("isVerified", isVerify.GetOr(Bool(true))) && EventAccepts("adminMessage", adminMessage.GetOr(Null))
    ensures isVerify.None? && adminMessage.None? ==> r.Ok?
    ensures r.Ok? ==> OnlyEventsChange(db, r.value) && |r.value.events| == |db.events|
    ensures r.Ok? ==> forall i :: 0 <= i < |db.events| ==>
              r.value.events[i] == if db.events[i].eventId == eventId then Verified(db.events[i], isVerify, adminMessage) else db.events[i]
  {
    VerifyRowsOk(db.events, eventId, isVerify, adminMessage);
    match ExecUpdate(db.events, VerifyEventQuery("isVerified", eventId, isVerify, adminMessage), EventKey, EventAccepts, EventAssign)
    case Err(e) => Err(e)
    case Ok(rows) =>
      VerifyRows(db.events, eventId, isVerify, adminMessage);
      Ok(db.(events := rows))
  }

  /** When the corrected verification query succeeds: both values fit their columns. */
  lemma VerifyRowsOk(rows: seq<EventRow>, eventId: int, isVerify: Option<Value>, adminMessage: Option<Value>)
    ensures ExecUpdate(rows, VerifyEventQuery("isVerified", eventId, isVerify, adminMessage), EventKey, EventAccepts, EventAssign).Ok?
            <==> EventAccepts("isVerified", isVerify.GetOr(Bool(true))) && EventAccepts("adminMessage", adminMessage.GetOr(Null))
  {
    var q := VerifyEventQuery("isVerified", eventId, isVerify, adminMessage);
    assert |q.clause.sets| == 2 && q.clause.sets[0].column == "isVerified" && q.clause.sets[1].column == "adminMessage";
    assert (forall k :: 0 <= k < |q.clause.sets| ==> EventAccepts(q.clause.sets[k].column, q.clause.params[k])) <==>
           EventAccepts("isVerified", isVerify.GetOr(Bool(true))) && EventAccepts("adminMessage", adminMessage.GetOr(Null));
  }

  /** What the corrected verification query does to each row when it succeeds. */
  lemma VerifyRows(rows: seq<EventRow>, eventId: int, isVerify: Option<Value>, adminMessage: Option<Value>)
    ensures var res := ExecUpdate(rows, VerifyEventQuery("isVerified", eventId, isVerify, adminMessage), EventKey, EventAccepts, EventAssign);
            res.Ok? ==> |res.value| == |rows| && forall i :: 0 <= i < |rows| ==>
              res.value[i] == if rows[i].eventId == eventId then Verified(rows[i], isVerify, adminMessage) else rows[i]
  {
    var q := VerifyEventQuery("isVerified", eventId, isVerify, adminMessage);
    var s := q.clause.sets;
    var p := q.clause.params;
    assert s == [Assign("isVerified", 1), Assign("adminMessage", 2)];
    forall row: EventRow
      ensures ApplySets(row, s, p, EventAssign) == Verified(row, isVerify, adminMessage)
    {
      assert |"isVerified"| == 10 && |"adminMessage"| == 12;
      assert |"gameCategoryId"| == 14 && |"eventDate"| == 9 && |"place"| == 5;
      assert |"eventDescription"| == 16 && |"nbMaxPlayer"| == 11;
      var r1 := EventAssign(row, "isVerified", p[0]);
      assert r1 == row.(isVerified := StoredFlag(p[0]));
      var r2 := EventAssign(r1, "adminMessage", p[1]);
      assert r2 == r1.(adminMessage := p[1]);
      assert ApplySets(row, s, p, EventAssign) == ApplySets(r1, s[1..], p, EventAssign);
      assert s[1..][0] == Assign("adminMessage", 2);
      assert ApplySets(r1, s[1..], p, EventAssign) == ApplySets(r2, s[1..][1..], p, EventAssign);
      assert s[1..][1..] == [];
    }
  }

}
