/**
 * `modele/addressDB.js`: insertion, the partial update of an address, and
 * the two deletions.
 */
module AddressDB {
  import opened Wrappers
  import opened Tables
  import opened SqlUpdate
  import opened InscriptionDB

  /** `INSERT INTO address`; the key just drawn is the one the follow-up `SELECT` reports. */
  function InsertAddress(db: Db, street: Value, number: Value, city: Value, postCode: Value, country: Value): (r: (Db, int))
    ensures r.1 == db.nextId && r.0.nextId == db.nextId + 1
    ensures r.0.addresses == db.addresses + [AddressRow(r.1, street, number, city, postCode, country)]
    ensures r.0.users == db.users && r.0.events == db.events && r.0.categories == db.categories
    ensures r.0.messages == db.messages && r.0.inscriptions == db.inscriptions
  {
    (db.(addresses := db.addresses + [AddressRow(db.nextId, street, number, city, postCode, country)],
         nextId := db.nextId + 1),
     db.nextId)
  }

  /**
   * On a store whose keys were all drawn, the key `insertAddress` reports is
   * new to the address table, and the store's keys are still all drawn.
   */
  lemma InsertAddressFresh(db: Db, street: Value, number: Value, city: Value, postCode: Value, country: Value)
    requires KeysDrawn(db)
    ensures var r := InsertAddress(db, street, number, city, postCode, country);
            && KeysDrawn(r.0)
            && forall i :: 0 <= i < |db.addresses| ==> db.addresses[i].addressId != r.1
  {
  }

  /** The five columns of the address table are text and accept any value. */
  const AddressColumns: set<string> := {"street", "number", "city", "postalCode", "country"}

  predicate AddressAccepts(column: string, v: Value) {
    column in AddressColumns
  }

  function AddressAssign(row: AddressRow, column: string, v: Value): AddressRow {
    if column == "street" then row.(street := v)
    else if column == "number" then row.(number := v)
    else if column == "city" then row.(city := v)
    else if column == "postalCode" then row.(postalCode := v)
    else if column == "country" then row.(country := v)
    else row
  }

  function AddressKey(row: AddressRow): int {
    row.addressId
  }

  /** The builder's arguments in the order it tests them; `postCode` is written to `postalCode`. */
  function AddressFields(street: Option<Value>, number: Option<Value>, city: Option<Value>,
                         postCode: Option<Value>, country: Option<Value>): seq<Field> {
    [Field("street", street), Field("number", number), Field("city", city),
     Field("postalCode", postCode), Field("country", country)]
  }

  /** Some argument is defined exactly when one of the five is, and every column takes any value. */
  lemma AddressFieldsShape(street: Option<Value>, number: Option<Value>, city: Option<Value>,
                           postCode: Option<Value>, country: Option<Value>)
    ensures var fs := AddressFields(street, number, city, postCode, country);
            (exists i :: 0 <= i < |fs| && fs[i].value.Some?) <==>
              street.Some? || number.Some? || city.Some? || postCode.Some? || country.Some?
    ensures var fs := AddressFields(street, number, city, postCode, country);
            forall i :: 0 <= i < |fs| && fs[i].value.Some? ==> AddressAccepts(fs[i].column, fs[i].value.value)
  {
    var fs := AddressFields(street, number, city, postCode, country);
    assert fs[0].value == street && fs[1].value == number && fs[2].value == city;
    assert fs[3].value == postCode && fs[4].value == country;
  }

  /** `updateAddress`'s query: the SET list the builder produces, and always a `WHERE addressId = ...`. */
  function UpdateAddressQuery(addressId: Option<int>, street: Option<Value>, number: Option<Value>, city: Option<Value>,
                              postCode: Option<Value>, country: Option<Value>): (q: UpdateQuery)
    ensures q.table == "address" && q.where == Some(Where("addressId", addressId))
    ensures Numbered(q.clause)
  {
    UpdateQuery("address", SetClauseOf(AddressFields(street, number, city, postCode, country)), Some(Where("addressId", addressId)))
  }

  /**
   * One ` col = $k` fragment per defined argument, in the order street,
   * number, city, postalCode, country, each numbered by its position in
   * `params`; `postCode` goes to the `postalCode` column.
   */
  lemma UpdateAddressLayout(q: UpdateQuery, addressId: Option<int>, street: Option<Value>, number: Option<Value>,
                            city: Option<Value>, postCode: Option<Value>, country: Option<Value>)
    requires q == UpdateAddressQuery(addressId, street, number, city, postCode, country)
    ensures |q.clause.params| == N(street) + N(number) + N(city) + N(postCode) + N(country)
    ensures street.Some? ==> Slot(q.clause, 0, "street", street.value)
    ensures number.Some? ==> Slot(q.clause, N(street), "number", number.value)
    ensures city.Some? ==> Slot(q.clause, N(street) + N(number), "city", city.value)
    ensures postCode.Some? ==> Slot(q.clause, N(street) + N(number) + N(city), "postalCode", postCode.value)
    ensures country.Some? ==> Slot(q.clause, N(street) + N(number) + N(city) + N(postCode), "country", country.value)
  {
    FiveFieldLayout(AddressFields(street, number, city, postCode, country),
                    "street", street, "number", number, "city", city, "postalCode", postCode, "country", country);
  }

  /** An undefined argument contributes no fragment. */
  lemma UpdateAddressOmits(q: UpdateQuery, addressId: Option<int>, street: Option<Value>, number: Option<Value>,
                           city: Option<Value>, postCode: Option<Value>, country: Option<Value>)
    requires q == UpdateAddressQuery(addressId, street, number, city, postCode, country)
    ensures street.None? ==> Absent(q.clause, "street")
    ensures number.None? ==> Absent(q.clause, "number")
    ensures city.None? ==> Absent(q.clause, "city")
    ensures postCode.None? ==> Absent(q.clause, "postalCode")
    ensures country.None? ==> Absent(q.clause, "country")
  {
    var fs := AddressFields(street, number, city, postCode, country);
    assert fs[0] == Field("street", street) && fs[1] == Field("number", number) && fs[2] == Field("city", city);
    assert fs[3] == Field("postalCode", postCode) && fs[4] == Field("country", country);
    assert "street"[0] == 's' && "number"[0] == 'n' && "city"[0] == 'c' && "postalCode"[0] == 'p' && "country"[0] == 'c';
    assert |"city"| == 4 && |"country"| == 7;
    FiveDistinct(fs);
    FiveFieldAbsent(fs);
  }

  /** The row with every defined argument written to its column. */
  function AddressPatch(row: AddressRow, street: Option<Value>, number: Option<Value>, city: Option<Value>,
                        postCode: Option<Value>, country: Option<Value>): AddressRow {
    AddressRow(row.addressId, street.GetOr(row.street), number.GetOr(row.number), city.GetOr(row.city),
               postCode.GetOr(row.postalCode), country.GetOr(row.country))
  }

  lemma AddressFieldsApply(row: AddressRow, street: Option<Value>, number: Option<Value>, city: Option<Value>,
                           postCode: Option<Value>, country: Option<Value>)
    ensures ApplyFields(row, AddressFields(street, number, city, postCode, country), AddressAssign)
            == AddressPatch(row, street, number, city, postCode, country)
  {
    ApplyFive(row, Field("street", street), Field("number", number), Field("city", city),
              Field("postalCode", postCode), Field("country", country), AddressAssign);
    assert "street"[0] == 's' && "number"[0] == 'n' && "city"[0] == 'c' && "postalCode"[0] == 'p' && "country"[0] == 'c';
    assert |"city"| == 4 && |"country"| == 7;
    var r1 := Step(row, Field("street", street), AddressAssign);
    assert r1 == if street.Some? then row.(street := street.value) else row;
    var r2 := Step(r1, Field("number", number), AddressAssign);
    assert r2 == if number.Some? then r1.(number := number.value) else r1;
    var r3 := Step(r2, Field("city", city), AddressAssign);
    assert r3 == if city.Some? then r2.(city := city.value) else r2;
    var r4 := Step(r3, Field("postalCode", postCode), AddressAssign);
    assert r4 == if postCode.Some? then r3.(postalCode := postCode.value) else r3;
    var r5 := Step(r4, Field("country", country), AddressAssign);
    assert r5 == if country.Some? then r4.(country := country.value) else r4;
  }

  /**
   * `updateAddress`: the address with that id gets every defined argument
   * and nothing else changes. It fails with no defined argument (an empty
   * SET list) and when the id is `undefined` (the text names no column).
   */
  function UpdateAddress(db: Db, addressId: Option<int>, street: Option<Value>, number: Option<Value>, city: Option<Value>,
                         postCode: Option<Value>, country: Option<Value>): (r: Result<Db>)
    ensures r.Ok? <==> (street.Some? || number.Some? || city.Some? || postCode.Some? || country.Some?) && addressId.Some?
    ensures r.Ok? ==> r.value == db.(addresses := r.value.addresses) && |r.value.addresses| == |db.addresses|
    ensures r.Ok? ==> forall i :: 0 <= i < |db.addresses| ==>
              r.value.addresses[i] ==
                if db.addresses[i].addressId == addressId.value then AddressPatch(db.addresses[i], street, number, city, postCode, country)
                else db.addresses[i]
  {
    match AddressUpdate(db.addresses, addressId, street, number, city, postCode, country)
    case Err(e) => Err(e)
    case Ok(rows) => Ok(db.(addresses := rows))
  }

  /** `updateAddress`'s query run on the rows of `address`. */
  function AddressUpdate(rows: seq<AddressRow>, addressId: Option<int>, street: Option<Value>, number: Option<Value>,
                         city: Option<Value>, postCode: Option<Value>, country: Option<Value>): (r: Result<seq<AddressRow>>)
    ensures r.Ok? <==> (street.Some? || number.Some? || city.Some? || postCode.Some? || country.Some?) && addressId.Some?
    ensures r.Ok? ==> addressId.Some? && |r.value| == |rows| && forall i :: 0 <= i < |rows| ==>
              r.value[i] == if rows[i].addressId == addressId.value
                            then AddressPatch(rows[i], street, number, city, postCode, country) else rows[i]
  {
    AddressUpdateOk(rows, addressId, street, number, city, postCode, country);
    AddressUpdateRows(rows, addressId, street, number, city, postCode, country);
    ExecUpdate(rows, UpdateAddressQuery(addressId, street, number, city, postCode, country), AddressKey, AddressAccepts, AddressAssign)
  }

  /** When `updateAddress`'s query succeeds. */
  lemma AddressUpdateOk(rows: seq<AddressRow>, addressId: Option<int>, street: Option<Value>, number: Option<Value>,
                        city: Option<Value>, postCode: Option<Value>, country: Option<Value>)
    ensures var q := UpdateAddressQuery(addressId, street, number, city, postCode, country);
            ExecUpdate(rows, q, AddressKey, AddressAccepts, AddressAssign).Ok? <==>
              (street.Some? || number.Some? || city.Some? || postCode.Some? || country.Some?) && addressId.Some?
  {
    var q := UpdateAddressQuery(addressId, street, number, city, postCode, country);
    AddressFieldsShape(street, number, city, postCode, country);
    ExecBuilt(rows, "address", AddressFields(street, number, city, postCode, country), q.where,
              AddressKey, AddressAccepts, AddressAssign);
  }

  /** What `updateAddress`'s query does to each row when it succeeds. */
  lemma AddressUpdateRows(rows: seq<AddressRow>, addressId: Option<int>, street: Option<Value>, number: Option<Value>,
                          city: Option<Value>, postCode: Option<Value>, country: Option<Value>)
    ensures var res := ExecUpdate(rows, UpdateAddressQuery(addressId, street, number, city, postCode, country),
                                  AddressKey, AddressAccepts, AddressAssign);
            res.Ok? ==> addressId.Some? && |res.value| == |rows| && forall i :: 0 <= i < |rows| ==>
              res.value[i] == if rows[i].addressId == addressId.value
                              then AddressPatch(rows[i], street, number, city, postCode, country) else rows[i]
  {
    var fs := AddressFields(street, number, city, postCode, country);
    var q := UpdateAddressQuery(addressId, street, number, city, postCode, country);
    ExecBuilt(rows, "address", fs, q.where, AddressKey, AddressAccepts, AddressAssign);
    forall i | 0 <= i < |rows|
      ensures ApplyFields(rows[i], fs, AddressAssign) == AddressPatch(rows[i], street, number, city, postCode, country)
    {
      AddressFieldsApply(rows[i], street, number, city, postCode, country);
    }
  }


  /** `deleteAddress`: only the rows with that id go. */
  function DeleteAddress(db: Db, addressId: int): (r: Db)
    ensures r == db.(addresses := r.addresses)
    ensures forall a :: a in r.addresses <==> a in db.addresses && a.addressId != addressId
  {
    DeleteSpec(db.addresses, (a: AddressRow) => a.addressId == addressId);
    db.(addresses := Delete(db.addresses, (a: AddressRow) => a.addressId == addressId))
  }

  /** The addresses the subquery `SELECT place FROM event JOIN inscription ... WHERE eventid = $1` yields. */
  function PlacesWithInscriptions(db: Db, eventId: int): set<int> {
    if Count(db.inscriptions, EventIs(eventId)) == 0 then {}
    else set k | 0 <= k < |db.events| && db.events[k].eventId == eventId :: db.events[k].place
  }

  /**
   * `deleteAddressWithEvent`: the event's address goes only when the event
   * has at least one registration, because the subquery joins through
   * `inscription`.
   */
  function DeleteAddressWithEvent(db: Db, eventId: int): (r: Db)
    ensures r == db.(addresses := r.addresses)
    ensures Count(db.inscriptions, EventIs(eventId)) == 0 ==> r == db
    ensures Count(db.inscriptions, EventIs(eventId)) > 0 ==>
              forall a :: a in r.addresses <==>
                a in db.addresses && forall k :: 0 <= k < |db.events| && db.events[k].eventId == eventId ==> db.events[k].place != a.addressId
  {
    var places := PlacesWithInscriptions(db, eventId);
    var doomed := (a: AddressRow) => a.addressId in places;
    DeleteSpec(db.addresses, doomed);
    if places == {} then
      DeleteNothing(db.addresses, doomed);
      db
    else
      db.(addresses := Delete(db.addresses, doomed))
  }
}
