/**
 * The registration (inscription) relation: rows `(inscriptionId, userId,
 * eventId)`, and the queries `modele/inscriptionDB.js` runs against it.
 * Each SQL call is a pure function of the store.
 */
module InscriptionDB {
  import opened Wrappers
  import opened Tables
  import opened SqlUpdate

  /** The WHERE conditions the module filters registrations by. */
  datatype Match = EventIs(eventId: int) | UserIs(userId: int) | PairIs(userId: int, eventId: int) | IdIs(inscriptionId: int)

  predicate Hits(m: Match, row: InscriptionRow) {
    match m
    case EventIs(e) => row.eventId == e
    case UserIs(u) => row.userId == u
    case PairIs(u, e) => row.userId == u && row.eventId == e
    case IdIs(id) => row.inscriptionId == id
  }

  /** `SELECT count(*) FROM inscription WHERE m`. */
  function Count(rows: seq<InscriptionRow>, m: Match): nat {
    if |rows| == 0 then 0
    else (if Hits(m, rows[0]) then 1 else 0) + Count(rows[1..], m)
  }

  lemma {:induction false} CountAppend(a: seq<InscriptionRow>, b: seq<InscriptionRow>, m: Match)
    ensures Count(a + b, m) == Count(a, m) + Count(b, m)
    decreases |a|
  {
    if |a| == 0 {
      assert a + b == b;
    } else {
      assert (a + b)[1..] == a[1..] + b;
      CountAppend(a[1..], b, m);
    }
  }

  /** A count is positive exactly when some row matches. */
  lemma {:induction false} CountPositive(rows: seq<InscriptionRow>, m: Match)
    ensures Count(rows, m) > 0 <==> exists i :: 0 <= i < |rows| && Hits(m, rows[i])
    decreases |rows|
  {
    if |rows| > 0 {
      CountPositive(rows[1..], m);
      if Count(rows[1..], m) > 0 {
        var i :| 0 <= i < |rows[1..]| && Hits(m, rows[1..][i]);
        assert Hits(m, rows[i + 1]);
      }
      if exists i :: 0 <= i < |rows| && Hits(m, rows[i]) {
        var i :| 0 <= i < |rows| && Hits(m, rows[i]);
        if i > 0 {
          assert Hits(m, rows[1..][i - 1]);
        }
      }
    }
  }

  /** Deleting rows never raises any count. */
  lemma {:induction false} CountDelete(rows: seq<InscriptionRow>, doomed: InscriptionRow -> bool, m: Match)
    ensures Count(Delete(rows, doomed), m) <= Count(rows, m)
    decreases |rows|
  {
    if |rows| > 0 {
      var head := if doomed(rows[0]) then [] else [rows[0]];
      var tail := Delete(rows[1..], doomed);
      DeleteCons(rows, doomed);
      CountAppend(head, tail, m);
      CountDelete(rows[1..], doomed, m);
      assert head == [] || head[1..] == [];
    }
  }

  /** Appending one row raises exactly the counts it matches, by one. */
  lemma CountAppendOne(rows: seq<InscriptionRow>, row: InscriptionRow)
    ensures forall m :: Count(rows + [row], m) == Count(rows, m) + (if Hits(m, row) then 1 else 0)
  {
    forall m
      ensures Count(rows + [row], m) == Count(rows, m) + (if Hits(m, row) then 1 else 0)
    {
      CountAppend(rows, [row], m);
      assert [row][1..] == [];
    }
  }

  lemma DeleteCons(rows: seq<InscriptionRow>, doomed: InscriptionRow -> bool)
    requires |rows| > 0
    ensures Delete(rows, doomed) == (if doomed(rows[0]) then [] else [rows[0]]) + Delete(rows[1..], doomed)
  {
  }

  /** DELETE distributes over a split of the table. */
  lemma {:induction false} DeleteAppend(a: seq<InscriptionRow>, b: seq<InscriptionRow>, doomed: InscriptionRow -> bool)
    ensures Delete(a + b, doomed) == Delete(a, doomed) + Delete(b, doomed)
    decreases |a|
  {
    if |a| == 0 {
      assert a + b == b;
    } else {
      var head := if doomed(a[0]) then [] else [a[0]];
      assert (a + b)[0] == a[0];
      assert (a + b)[1..] == a[1..] + b;
      DeleteCons(a + b, doomed);
      DeleteCons(a, doomed);
      DeleteAppend(a[1..], b, doomed);
      var x, y, z := Delete(a[1..], doomed), Delete(b, doomed), Delete(a + b, doomed);
      assert z == head + (x + y);
      assert head + (x + y) == (head + x) + y;
    }
  }

  /** Two different matching rows make a count of at least two. */
  lemma {:induction false} CountTwo(rows: seq<InscriptionRow>, m: Match, i: nat, j: nat)
    requires i < j < |rows| && Hits(m, rows[i]) && Hits(m, rows[j])
    ensures Count(rows, m) >= 2
    decreases |rows|
  {
    if i == 0 {
      CountPositive(rows[1..], m);
      assert Hits(m, rows[1..][j - 1]);
    } else {
      CountTwo(rows[1..], m, i - 1, j - 1);
    }
  }

  /** Overwriting one row moves each count by what the old and new rows match. */
  lemma {:induction false} CountUpdate(rows: seq<InscriptionRow>, i: nat, p: InscriptionRow, m: Match)
    requires i < |rows|
    ensures Count(rows[i := p], m) + (if Hits(m, rows[i]) then 1 else 0) == Count(rows, m) + (if Hits(m, p) then 1 else 0)
    decreases |rows|
  {
    if i > 0 {
      assert rows[i := p][1..] == rows[1..][i - 1 := p];
      CountUpdate(rows[1..], i - 1, p, m);
    } else {
      assert rows[i := p][1..] == rows[1..];
    }
  }

  /** Deleting the rows that match `m` leaves none that match it. */
  lemma {:induction false} CountDeleteAll(rows: seq<InscriptionRow>, doomed: InscriptionRow -> bool, m: Match)
    requires forall x :: Hits(m, x) ==> doomed(x)
    ensures Count(Delete(rows, doomed), m) == 0
  {
    DeleteSpec(rows, doomed);
    CountPositive(Delete(rows, doomed), m);
  }

  /** The number of event rows carrying `eventId`. */
  function EventRows(events: seq<EventRow>, eventId: int): nat {
    if |events| == 0 then 0
    else (if events[0].eventId == eventId then 1 else 0) + EventRows(events[1..], eventId)
  }

  /** Under the primary key, an existing event id occurs in exactly one event row. */
  lemma {:induction false} EventRowsUnique(events: seq<EventRow>, k: nat)
    requires UniqueEventIds(events)
    requires k < |events|
    ensures EventRows(events, events[k].eventId) == 1
    decreases |events|
  {
    var e := events[k].eventId;
    if k == 0 {
      EventRowsAbsent(events[1..], e);
    } else {
      assert events[0].eventId != e;
      EventRowsUnique(events[1..], k - 1);
    }
  }

  /** `EventRowsUnique`, stated for any event table: it applies only under the primary key. */
  lemma EventRowsUniqueIf(events: seq<EventRow>, k: nat)
    requires k < |events|
    ensures UniqueEventIds(events) ==> EventRows(events, events[k].eventId) == 1
  {
    if UniqueEventIds(events) {
      EventRowsUnique(events, k);
    }
  }

  lemma {:induction false} EventRowsAbsent(events: seq<EventRow>, eventId: int)
    requires forall j :: 0 <= j < |events| ==> events[j].eventId != eventId
    ensures EventRows(events, eventId) == 0
    decreases |events|
  {
    if |events| > 0 {
      EventRowsAbsent(events[1..], eventId);
    }
  }

  /** Only the registration relation and the key counter moved. */
  predicate OnlyInscriptionsChange(db: Db, r: Db) {
    && r.users == db.users && r.events == db.events && r.addresses == db.addresses
    && r.categories == db.categories && r.messages == db.messages
  }

  // ---------------------------------------------------------------------
  // The two invariants of the registration relation.
  // ---------------------------------------------------------------------

  /** Every event holds at most `nbMaxPlayer` registrations. */
  predicate WithinCapacity(db: Db) {
    forall k :: 0 <= k < |db.events| ==> Count(db.inscriptions, EventIs(db.events[k].eventId)) <= db.events[k].nbMaxPlayer
  }

  /** No (user, event) pair is registered twice. */
  ghost predicate UniquePairs(rows: seq<InscriptionRow>) {
    forall u, e :: Count(rows, PairIs(u, e)) <= 1
  }

  /** `inscriptionId` is the relation's primary key. */
  ghost predicate UniqueKeys(rows: seq<InscriptionRow>) {
    forall id :: Count(rows, IdIs(id)) <= 1
  }

  /** Every stored key was drawn from the counter before its current value. */
  predicate KeysBelow(db: Db) {
    forall x :: x in db.inscriptions ==> x.inscriptionId < db.nextId
  }

  /**
   * The registration invariant: capacity and pair uniqueness, on a store
   * whose event and registration ids are keys.
   */
  ghost predicate Inv(db: Db) {
    && UniqueEventIds(db.events)
    && WithinCapacity(db)
    && UniquePairs(db.inscriptions)
    && UniqueKeys(db.inscriptions)
    && KeysBelow(db)
  }

  /** Removing registrations (and touching nothing else an invariant reads) keeps the invariant. */
  lemma ShrinkPreserves(db: Db, r: Db)
    requires Inv(db)
    requires r.events == db.events && r.nextId == db.nextId
    requires forall x :: x in r.inscriptions ==> x in db.inscriptions
    requires forall m :: Count(r.inscriptions, m) <= Count(db.inscriptions, m)
    ensures Inv(r)
  {
    forall id
      ensures Count(r.inscriptions, IdIs(id)) <= 1
    {
      assert Count(r.inscriptions, IdIs(id)) <= Count(db.inscriptions, IdIs(id));
    }
    forall k | 0 <= k < |r.events|
      ensures Count(r.inscriptions, EventIs(r.events[k].eventId)) <= r.events[k].nbMaxPlayer
    {
      assert Count(r.inscriptions, EventIs(r.events[k].eventId)) <= Count(db.inscriptions, EventIs(r.events[k].eventId));
    }
    forall u, e
      ensures Count(r.inscriptions, PairIs(u, e)) <= 1
    {
      assert Count(r.inscriptions, PairIs(u, e)) <= Count(db.inscriptions, PairIs(u, e));
    }
  }

  // ---------------------------------------------------------------------
  // The module's operations.
  // ---------------------------------------------------------------------

  /** `INSERT INTO inscription(userId, eventId)`: one new row under a fresh key. */
  function LinkUserEvent(db: Db, userId: int, eventId: int): (r: Db)
    ensures OnlyInscriptionsChange(db, r)
    ensures r.nextId == db.nextId + 1
    ensures |r.inscriptions| == |db.inscriptions| + 1
    ensures forall i :: 0 <= i < |db.inscriptions| ==> r.inscriptions[i] == db.inscriptions[i]
    ensures r.inscriptions[|db.inscriptions|] == InscriptionRow(db.nextId, userId, eventId)
    ensures forall m :: Count(r.inscriptions, m) ==
              Count(db.inscriptions, m) + (if Hits(m, InscriptionRow(db.nextId, userId, eventId)) then 1 else 0)
  {
    var row := InscriptionRow(db.nextId, userId, eventId);
    CountAppendOne(db.inscriptions, row);
    db.(inscriptions := db.inscriptions + [row], nextId := db.nextId + 1)
  }

  /** `DELETE FROM inscription WHERE eventId = $1`. */
  function DeleteAllFromEvent(db: Db, eventId: int): (r: Db)
    ensures OnlyInscriptionsChange(db, r) && r.nextId == db.nextId
    ensures forall x :: x in r.inscriptions <==> x in db.inscriptions && x.eventId != eventId
    ensures forall x: InscriptionRow :: x.eventId != eventId ==> multiset(r.inscriptions)[x] == multiset(db.inscriptions)[x]
    ensures Count(r.inscriptions, EventIs(eventId)) == 0
    ensures forall m :: Count(r.inscriptions, m) <= Count(db.inscriptions, m)
  {
    var doomed := (x: InscriptionRow) => x.eventId == eventId;
    var rows := Delete(db.inscriptions, doomed);
    DeleteSpec(db.inscriptions, doomed);
    CountDeleteAll(db.inscriptions, doomed, EventIs(eventId));
    assert forall m :: Count(rows, m) <= Count(db.inscriptions, m) by {
      forall m ensures Count(rows, m) <= Count(db.inscriptions, m) {
        CountDelete(db.inscriptions, doomed, m);
      }
    }
    db.(inscriptions := rows)
  }

  /** `DELETE FROM inscription WHERE inscriptionId = $1`; an absent key deletes nothing. */
  function DeleteInscription(db: Db, inscriptionId: int): (r: Db)
    ensures OnlyInscriptionsChange(db, r) && r.nextId == db.nextId
    ensures forall x :: x in r.inscriptions <==> x in db.inscriptions && x.inscriptionId != inscriptionId
    ensures forall x: InscriptionRow :: x.inscriptionId != inscriptionId ==> multiset(r.inscriptions)[x] == multiset(db.inscriptions)[x]
    ensures (forall x :: x in db.inscriptions ==> x.inscriptionId != inscriptionId) ==> r == db
    ensures forall m :: Count(r.inscriptions, m) <= Count(db.inscriptions, m)
  {
    var doomed := (x: InscriptionRow) => x.inscriptionId == inscriptionId;
    var rows := Delete(db.inscriptions, doomed);
    DeleteSpec(db.inscriptions, doomed);
    assert forall m :: Count(rows, m) <= Count(db.inscriptions, m) by {
      forall m ensures Count(rows, m) <= Count(db.inscriptions, m) {
        CountDelete(db.inscriptions, doomed, m);
      }
    }
    assert (forall x :: x in db.inscriptions ==> x.inscriptionId != inscriptionId) ==> rows == db.inscriptions by {
      if forall x :: x in db.inscriptions ==> x.inscriptionId != inscriptionId {
        DeleteNothing(db.inscriptions, doomed);
      }
    }
    db.(inscriptions := rows)
  }


  /** `DELETE FROM inscription WHERE userId = $1 and eventId = $2`. */
  function UnlinkUser(db: Db, userId: int, eventId: int): (r: Db)
    ensures OnlyInscriptionsChange(db, r) && r.nextId == db.nextId
    ensures forall x :: x in r.inscriptions <==> x in db.inscriptions && !(x.userId == userId && x.eventId == eventId)
    ensures forall x: InscriptionRow :: !(x.userId == userId && x.eventId == eventId) ==>
              multiset(r.inscriptions)[x] == multiset(db.inscriptions)[x]
    ensures Count(r.inscriptions, PairIs(userId, eventId)) == 0
    ensures forall m :: Count(r.inscriptions, m) <= Count(db.inscriptions, m)
  {
    var doomed := (x: InscriptionRow) => x.userId == userId && x.eventId == eventId;
    var rows := Delete(db.inscriptions, doomed);
    DeleteSpec(db.inscriptions, doomed);
    CountDeleteAll(db.inscriptions, doomed, PairIs(userId, eventId));
    assert forall m :: Count(rows, m) <= Count(db.inscriptions, m) by {
      forall m ensures Count(rows, m) <= Count(db.inscriptions, m) {
        CountDelete(db.inscriptions, doomed, m);
      }
    }
    db.(inscriptions := rows)
  }

  /** `SELECT eventId FROM inscription WHERE userId = $1`, in table order. */
  function GetEventFromUser(db: Db, userId: int): (r: seq<int>)
    ensures |r| == Count(db.inscriptions, UserIs(userId))
    ensures forall e :: e in r <==> exists x :: x in db.inscriptions && x.userId == userId && x.eventId == e
  {
    EventIdsOf(db.inscriptions, userId)
  }

  function EventIdsOf(rows: seq<InscriptionRow>, userId: int): (r: seq<int>)
    ensures |r| == Count(rows, UserIs(userId))
    ensures forall e :: e in r <==> exists x :: x in rows && x.userId == userId && x.eventId == e
  {
    if |rows| == 0 then []
    else
      var rest := EventIdsOf(rows[1..], userId);
      assert forall x :: x in rows <==> x == rows[0] || x in rows[1..];
      (if rows[0].userId == userId then [rows[0].eventId] else []) + rest
  }

  /**
   * `isNotFull`: the joined count of the event's registrations against its
   * `nbmaxplayer`. With no event row, `rows[0]` is undefined and the call throws.
   */
  function IsNotFull(db: Db, eventId: int): (r: Result<bool>)
    ensures r.Err? <==> forall k :: 0 <= k < |db.events| ==> db.events[k].eventId != eventId
    ensures UniqueEventIds(db.events) && r.Ok? ==>
              forall k :: 0 <= k < |db.events| && db.events[k].eventId == eventId ==>
                (r.value <==> Count(db.inscriptions, EventIs(eventId)) < db.events[k].nbMaxPlayer)
  {
    match FirstMatch(db.events, (ev: EventRow) => ev.eventId == eventId)
    case None => Err("Cannot read properties of undefined (reading 'nbmaxplayer')")
    case Some(k) =>
      var joined := EventRows(db.events, eventId) * Count(db.inscriptions, EventIs(eventId));
      EventRowsUniqueIf(db.events, k);
      Ok(joined < db.events[k].nbMaxPlayer)
  }

  /** `count(inscriptionId) > 0` over the rows of the (user, event) pair. */
  function InscriptionExistByEventUser(db: Db, userId: int, eventId: int): (r: bool)
    ensures r <==> exists i :: 0 <= i < |db.inscriptions| && db.inscriptions[i].userId == userId && db.inscriptions[i].eventId == eventId
  {
    CountPositive(db.inscriptions, PairIs(userId, eventId));
    Count(db.inscriptions, PairIs(userId, eventId)) > 0
  }

  /** `count(inscriptionId) > 0` over the rows with that key. */
  function InscriptionExistById(db: Db, inscriptionId: int): (r: bool)
    ensures r <==> exists i :: 0 <= i < |db.inscriptions| && db.inscriptions[i].inscriptionId == inscriptionId
  {
    CountPositive(db.inscriptions, IdIs(inscriptionId));
    Count(db.inscriptions, IdIs(inscriptionId)) > 0
  }

  // ---------------------------------------------------------------------
  // updateEventInscription: the partial update of a registration's keys.
  // ---------------------------------------------------------------------

  /** The columns an UPDATE of the relation may name; both are integer columns (`IntOf`). */
  predicate InscriptionAccepts(column: string, v: Value) {
    (column == "eventId" || column == "userId") && IntOf(v).Some?
  }

  function InscriptionAssign(row: InscriptionRow, column: string, v: Value): InscriptionRow {
    if column == "eventId" && IntOf(v).Some? then row.(eventId := IntOf(v).value)
    else if column == "userId" && IntOf(v).Some? then row.(userId := IntOf(v).value)
    else row
  }

  function InscriptionKey(row: InscriptionRow): int {
    row.inscriptionId
  }

  /** The query `updateEventInscription` builds: eventId before userId, then `WHERE inscriptionId = <id>`. */
  function UpdateEventInscriptionQuery(inscriptionId: int, eventId: Option<Value>, userId: Option<Value>): (q: UpdateQuery)
    ensures q.table == "inscription"
    ensures q.where == Some(Where("inscriptionId", Some(inscriptionId)))
    ensures Numbered(q.clause)
    ensures |q.clause.params| == N(eventId) + N(userId)
    ensures eventId.Some? ==> Slot(q.clause, 0, "eventId", eventId.value)
    ensures userId.Some? ==> Slot(q.clause, N(eventId), "userId", userId.value)
    ensures eventId.None? ==> Absent(q.clause, "eventId")
    ensures userId.None? ==> Absent(q.clause, "userId")
  {
    TwoFieldLayout("eventId", eventId, "userId", userId);
    UpdateQuery("inscription", SetClauseOf([Field("eventId", eventId), Field("userId", userId)]),
                Some(Where("inscriptionId", Some(inscriptionId))))
  }

  /** A registration row after the patch: each defined key replaced, the others kept. */
  function Patched(row: InscriptionRow, eventId: Option<Value>, userId: Option<Value>): InscriptionRow
    requires eventId.Some? ==> IntOf(eventId.value).Some?
    requires userId.Some? ==> IntOf(userId.value).Some?
  {
    row.(eventId := if eventId.Some? then IntOf(eventId.value).value else row.eventId,
         userId := if userId.Some? then IntOf(userId.value).value else row.userId)
  }

  /** A SET list laid out as the builder lays out (eventId, userId) writes exactly the patch. */
  lemma PatchApplied(row: InscriptionRow, c: SetClause, eventId: Option<Value>, userId: Option<Value>)
    requires Numbered(c)
    requires |c.params| == N(eventId) + N(userId)
    requires eventId.Some? ==> Slot(c, 0, "eventId", eventId.value) && IntOf(eventId.value).Some?
    requires userId.Some? ==> Slot(c, N(eventId), "userId", userId.value) && IntOf(userId.value).Some?
    ensures forall a :: a in c.sets ==> 1 <= a.slot <= |c.params|
    ensures ApplySets(row, c.sets, c.params, InscriptionAssign) == Patched(row, eventId, userId)
  {
    if eventId.Some? && userId.Some? {
      assert c.sets == [Assign("eventId", 1), Assign("userId", 2)];
      var r1 := InscriptionAssign(row, "eventId", c.params[0]);
      assert ApplySets(row, c.sets, c.params, InscriptionAssign) == ApplySets(r1, c.sets[1..], c.params, InscriptionAssign);
      var r2 := InscriptionAssign(r1, "userId", c.params[1]);
      assert c.sets[1..][0] == Assign("userId", 2);
      assert ApplySets(r1, c.sets[1..], c.params, InscriptionAssign) == ApplySets(r2, c.sets[1..][1..], c.params, InscriptionAssign);
      assert c.sets[1..][1..] == [];
    } else if eventId.Some? {
      assert c.sets == [Assign("eventId", 1)];
    } else if userId.Some? {
      assert c.sets == [Assign("userId", 1)];
    } else {
      assert c.sets == [];
    }
  }

  /**
   * `updateEventInscription`: rewrites the keys of the registration with
   * that id, and no other row. Neither capacity nor uniqueness is checked.
   */
  function UpdateEventInscription(db: Db, inscriptionId: int, eventId: Option<Value>, userId: Option<Value>): (r: Result<Db>)
    ensures r.Ok? <==>
              && (eventId.Some? || userId.Some?)
              && (eventId.Some? ==> IntOf(eventId.value).Some?)
              && (userId.Some? ==> IntOf(userId.value).Some?)
    ensures r.Ok? ==> OnlyInscriptionsChange(db, r.value) && r.value.nextId == db.nextId
    ensures r.Ok? ==> |r.value.inscriptions| == |db.inscriptions|
    ensures r.Ok? ==> forall i :: 0 <= i < |db.inscriptions| ==>
              r.value.inscriptions[i] ==
                if db.inscriptions[i].inscriptionId == inscriptionId then Patched(db.inscriptions[i], eventId, userId)
                else db.inscriptions[i]
  {
    match InscriptionUpdate(db.inscriptions, inscriptionId, eventId, userId)
    case Err(reason) => Err(reason)
    case Ok(rows) => Ok(db.(inscriptions := rows))
  }

  /** `updateEventInscription`'s query run on the registration rows. */
  function InscriptionUpdate(rows: seq<InscriptionRow>, inscriptionId: int, eventId: Option<Value>, userId: Option<Value>)
    : (r: Result<seq<InscriptionRow>>)
    ensures r.Ok? <==>
              && (eventId.Some? || userId.Some?)
              && (eventId.Some? ==> IntOf(eventId.value).Some?)
              && (userId.Some? ==> IntOf(userId.value).Some?)
    ensures r.Ok? ==>
              && (eventId.Some? ==> IntOf(eventId.value).Some?) && (userId.Some? ==> IntOf(userId.value).Some?)
              && |r.value| == |rows|
              && forall i :: 0 <= i < |rows| ==>
                   r.value[i] == if rows[i].inscriptionId == inscriptionId then Patched(rows[i], eventId, userId) else rows[i]
  {
    InscriptionUpdateOk(rows, inscriptionId, eventId, userId);
    InscriptionUpdateRows(rows, inscriptionId, eventId, userId);
    ExecUpdate(rows, UpdateEventInscriptionQuery(inscriptionId, eventId, userId), InscriptionKey, InscriptionAccepts, InscriptionAssign)
  }

  /** When `updateEventInscription`'s query succeeds. */
  lemma InscriptionUpdateOk(rows: seq<InscriptionRow>, inscriptionId: int, eventId: Option<Value>, userId: Option<Value>)
    ensures ExecUpdate(rows, UpdateEventInscriptionQuery(inscriptionId, eventId, userId), InscriptionKey, InscriptionAccepts,
                       InscriptionAssign).Ok? <==>
              && (eventId.Some? || userId.Some?)
              && (eventId.Some? ==> IntOf(eventId.value).Some?)
              && (userId.Some? ==> IntOf(userId.value).Some?)
  {
  }

  /** What `updateEventInscription`'s query does to each row when it succeeds. */
  lemma InscriptionUpdateRows(rows: seq<InscriptionRow>, inscriptionId: int, eventId: Option<Value>, userId: Option<Value>)
    ensures var res := ExecUpdate(rows, UpdateEventInscriptionQuery(inscriptionId, eventId, userId), InscriptionKey,
                                  InscriptionAccepts, InscriptionAssign);
            res.Ok? ==>
              && (eventId.Some? ==> IntOf(eventId.value).Some?) && (userId.Some? ==> IntOf(userId.value).Some?)
              && |res.value| == |rows|
              && forall i :: 0 <= i < |rows| ==>
                   res.value[i] == if rows[i].inscriptionId == inscriptionId then Patched(rows[i], eventId, userId) else rows[i]
  {
    var q := UpdateEventInscriptionQuery(inscriptionId, eventId, userId);
    var res := ExecUpdate(rows, q, InscriptionKey, InscriptionAccepts, InscriptionAssign);
    if res.Ok? {
      InscriptionUpdateOk(rows, inscriptionId, eventId, userId);
      forall i | 0 <= i < |rows| && rows[i].inscriptionId == inscriptionId
        ensures res.value[i] == Patched(rows[i], eventId, userId)
      {
        PatchApplied(rows[i], q.clause, eventId, userId);
      }
    }
  }

}
