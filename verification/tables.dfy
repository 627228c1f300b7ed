/**
 * The relational store the data-access modules talk to: one immutable
 * sequence of row records per table, plus the counter the store draws
 * generated (serial) keys from.
 */
module Tables {
  import opened Wrappers

  /** A column or query-parameter value as the driver passes it. */
  datatype Value = Int(i: int) | Str(s: string) | Bool(b: bool) | Null

  /** JavaScript truthiness of a request-body field (`undefined` is `None`). */
  predicate Truthy(v: Option<Value>) {
    match v
    case None => false
    case Some(Int(n)) => n != 0
    case Some(Str(s)) => s != ""
    case Some(Bool(b)) => b
    case Some(Null) => false
  }

  /** `x === undefined || x === null`, the test behind the `??` operator. */
  predicate Nullish(v: Option<Value>) {
    v.None? || v.value.Null?
  }

  // ---------------------------------------------------------------------
  // Column input. node-postgres sends every parameter as text: a number as
  // its decimal digits, a string as itself, a boolean as `true`/`false`,
  // and `null` as SQL NULL. The column's type then parses that text.
  // ---------------------------------------------------------------------

  predicate IsDigit(c: char) {
    '0' <= c <= '9'
  }

  /** A non-empty run of decimal digits. */
  predicate AllDigits(s: string) {
    |s| > 0 && forall i :: 0 <= i < |s| ==> IsDigit(s[i])
  }

  /** The number a run of decimal digits spells, most significant first. */
  function DigitsValue(s: string): nat
    requires forall i :: 0 <= i < |s| ==> IsDigit(s[i])
  {
    if |s| == 0 then 0
    else
      assert IsDigit(s[|s| - 1]);
      DigitsValue(s[..|s| - 1]) * 10 + (s[|s| - 1] as int - '0' as int)
  }

  /** An integer column's reading of a text parameter: an optional sign, then decimal digits. */
  function ParseInt(s: string): Option<int> {
    if |s| > 0 && s[0] == '-' && AllDigits(s[1..]) then Some(-(DigitsValue(s[1..]) as int))
    else if |s| > 0 && s[0] == '+' && AllDigits(s[1..]) then Some(DigitsValue(s[1..]))
    else if AllDigits(s) then Some(DigitsValue(s))
    else None
  }

  /**
   * The integer an integer column stores for a parameter, or `None` when
   * the column refuses it ("invalid input syntax for type integer"). A
   * NULL is refused too: integer columns are taken to be NOT NULL.
   */
  function IntOf(v: Value): (r: Option<int>)
    ensures v.Int? ==> r == Some(v.i)
    ensures v.Bool? || v.Null? ==> r.None?
    ensures v.Str? ==> r == ParseInt(v.s)
  {
    match v
    case Int(n) => Some(n)
    case Str(s) => ParseInt(s)
    case _ => None
  }

  function DigitChar(d: nat): char
    requires d < 10
  {
    ('0' as int + d) as char
  }

  /** The decimal digits of a natural number, without leading zeros. */
  function ShowNat(n: nat): (r: string)
    ensures AllDigits(r)
    decreases n
  {
    if n < 10 then [DigitChar(n)] else ShowNat(n / 10) + [DigitChar(n % 10)]
  }

  /** `String(n)` for an integer `n`, the text a path parameter or a number parameter carries. */
  function ShowInt(n: int): string {
    if n < 0 then "-" + ShowNat(-n) else ShowNat(n)
  }

  lemma {:induction false} DigitsOfShow(n: nat)
    ensures DigitsValue(ShowNat(n)) == n
    decreases n
  {
    var s := ShowNat(n);
    if n >= 10 {
      DigitsOfShow(n / 10);
      assert s[..|s| - 1] == ShowNat(n / 10);
    }
  }

  /** An integer column reads back the number whose text it is sent. */
  lemma ParseShow(n: int)
    ensures IntOf(Str(ShowInt(n))) == Some(n)
  {
    if n < 0 {
      DigitsOfShow(-n);
      assert ShowInt(n)[1..] == ShowNat(-n);
    } else {
      DigitsOfShow(n);
    }
  }

  /** The text node-postgres sends for a parameter, or `None` for SQL NULL. */
  function TextOf(v: Value): (r: Option<string>)
    ensures r.None? <==> v.Null?
    ensures v.Str? ==> r == Some(v.s)
    ensures v.Int? ==> IntOf(Str(r.value)) == Some(v.i)
  {
    match v
    case Int(n) => ParseShow(n); Some(ShowInt(n))
    case Str(s) => Some(s)
    case Bool(b) => Some(if b then "true" else "false")
    case Null => None
  }

  /** What a text column holds for a parameter: the text it was sent, or NULL. */
  function TextCell(v: Value): (r: Value)
    ensures r.Str? || r.Null?
    ensures r.Null? <==> v.Null?
    ensures v.Str? ==> r == v
    ensures TextOf(r) == TextOf(v)
  {
    match TextOf(v)
    case None => Null
    case Some(s) => Str(s)
  }

  /**
   * SQL `a = b` on a text column, as a WHERE clause or a unique index
   * applies it: NULL on either side matches nothing, otherwise the texts
   * are compared.
   */
  predicate TextEquals(a: Value, b: Value) {
    TextOf(a).Some? && TextOf(a) == TextOf(b)
  }

  /** A stored e-mail is found by the parameter it was stored from, unless that was NULL. */
  lemma CellFound(v: Value)
    ensures TextEquals(TextCell(v), v) <==> !v.Null?
  {
  }

  /** A number and its decimal text are the same text to the column; NULL is not equal even to itself. */
  lemma TextEqualsAcrossTypes(n: int)
    ensures TextEquals(Int(n), Str(ShowInt(n)))
    ensures !TextEquals(Null, Null)
    ensures TextEquals(Bool(true), Str("true"))
  {
  }

  /** What a boolean column reads: the literals PostgreSQL spells out in lower case, and 0 and 1. */
  function BoolOf(v: Value): (r: Option<bool>)
    ensures v.Bool? ==> r == Some(v.b)
    ensures v.Int? ==> (r.Some? <==> v.i == 0 || v.i == 1)
    ensures v.Str? ==> (r.Some? <==> v.s in {"true", "false", "t", "f", "yes", "no", "y", "n", "on", "off", "1", "0"})
    ensures r == Some(true) <==> v == Bool(true) || v == Int(1) || (v.Str? && v.s in {"true", "t", "yes", "y", "on", "1"})
    ensures r == Some(false) <==> v == Bool(false) || v == Int(0) || (v.Str? && v.s in {"false", "f", "no", "n", "off", "0"})
    ensures v.Null? ==> r.None?
  {
    match v
    case Bool(b) => Some(b)
    case Int(n) => if n == 1 then Some(true) else if n == 0 then Some(false) else None
    case Str(s) =>
      if s in {"true", "t", "yes", "y", "on", "1"} then Some(true)
      else if s in {"false", "f", "no", "n", "off", "0"} then Some(false)
      else None
    case Null => None
  }

  datatype InscriptionRow = InscriptionRow(inscriptionId: int, userId: int, eventId: int)

  datatype EventRow = EventRow(
    eventId: int, creatorId: int, gameCategoryId: int,
    creationDate: Value, eventDate: Value, place: int,
    eventDescription: Value, isVerified: Value, nbMaxPlayer: int, adminMessage: Value)

  datatype AddressRow = AddressRow(
    addressId: int, street: Value, number: Value, city: Value, postalCode: Value, country: Value)

  datatype UserRow = UserRow(
    userId: int, firstName: Value, name: Value, birthDate: Value,
    isAdmin: bool, email: Value, password: Value, photoPath: Value)

  /** `label` is a Dafny keyword, so the column is held as `labelText`. */
  datatype CategoryRow = CategoryRow(gameCategoryId: int, labelText: Value, description: Value)

  datatype MessageRow = MessageRow(messageId: int, sendId: int, eventId: int, content: Value, date: Value)

  /** The whole store. `nextId` is the next generated key; every table draws from it. */
  datatype Db = Db(
    users: seq<UserRow>,
    events: seq<EventRow>,
    addresses: seq<AddressRow>,
    categories: seq<CategoryRow>,
    messages: seq<MessageRow>,
    inscriptions: seq<InscriptionRow>,
    nextId: int)

  /** `DELETE FROM t WHERE doomed(row)`: the rows that are not doomed, in table order. */
  function Delete<T>(rows: seq<T>, doomed: T -> bool): seq<T> {
    if |rows| == 0 then []
    else (if doomed(rows[0]) then [] else [rows[0]]) + Delete(rows[1..], doomed)
  }

  /** Deleting only the last row, when it alone is doomed, gives back the rows before it. */
  lemma {:induction false} DeleteLast<T>(rows: seq<T>, x: T, doomed: T -> bool)
    requires forall i :: 0 <= i < |rows| ==> !doomed(rows[i])
    requires doomed(x)
    ensures Delete(rows + [x], doomed) == rows
    decreases |rows|
  {
    if |rows| == 0 {
      assert ([] + [x])[1..] == [];
    } else {
      assert (rows + [x])[1..] == rows[1..] + [x];
      DeleteLast(rows[1..], x, doomed);
      assert rows == [rows[0]] + rows[1..];
    }
  }

  /** Every doomed row goes and every other row stays, with its multiplicity. */
  lemma {:induction false} DeleteSpec<T(!new)>(rows: seq<T>, doomed: T -> bool)
    ensures forall x :: multiset(Delete(rows, doomed))[x] == if doomed(x) then 0 else multiset(rows)[x]
    ensures forall x :: x in Delete(rows, doomed) <==> x in rows && !doomed(x)
    decreases |rows|
  {
    if |rows| > 0 {
      DeleteSpec(rows[1..], doomed);
      assert rows == [rows[0]] + rows[1..];
      var r := Delete(rows, doomed);
      assert multiset(r) == multiset(if doomed(rows[0]) then [] else [rows[0]]) + multiset(Delete(rows[1..], doomed));
      forall x
        ensures x in r <==> x in rows && !doomed(x)
      {
        assert x in r <==> multiset(r)[x] > 0;
        assert x in rows <==> multiset(rows)[x] > 0;
      }
    }
  }

  /** A DELETE that dooms no row leaves the table as it was. */
  lemma {:induction false} DeleteNothing<T(!new)>(rows: seq<T>, doomed: T -> bool)
    requires forall i :: 0 <= i < |rows| ==> !doomed(rows[i])
    ensures Delete(rows, doomed) == rows
    decreases |rows|
  {
    if |rows| > 0 {
      assert forall i :: 0 <= i < |rows| - 1 ==> rows[1..][i] == rows[i + 1];
      DeleteNothing(rows[1..], doomed);
      assert rows == [rows[0]] + rows[1..];
    }
  }

  /** The position of `rows[0]` in a `SELECT ... WHERE matches(row)` result, if any row matches. */
  function FirstMatch<T>(rows: seq<T>, matches: T -> bool): (r: Option<nat>)
    ensures r.Some? ==> r.value < |rows| && matches(rows[r.value])
    ensures r.Some? ==> forall j :: 0 <= j < r.value ==> !matches(rows[j])
    ensures r.None? <==> forall j :: 0 <= j < |rows| ==> !matches(rows[j])
  {
    if |rows| == 0 then None
    else if matches(rows[0]) then Some(0)
    else
      match FirstMatch(rows[1..], matches)
      case None => None
      case Some(k) => Some(k + 1)
  }

  /** The event table's primary key: no two event rows share an `eventId`. */
  predicate UniqueEventIds(events: seq<EventRow>) {
    forall i, j :: 0 <= i < j < |events| ==> events[i].eventId != events[j].eventId
  }

  /** Some event row with that id exists. */
  predicate EventExists(db: Db, eventId: int) {
    exists k :: 0 <= k < |db.events| && db.events[k].eventId == eventId
  }

  /**
   * Every primary key in the store was drawn from the counter before its
   * current value, so the next key drawn is new to every table.
   */
  predicate KeysDrawn(db: Db) {
    && (forall i :: 0 <= i < |db.users| ==> db.users[i].userId < db.nextId)
    && (forall i :: 0 <= i < |db.events| ==> db.events[i].eventId < db.nextId)
    && (forall i :: 0 <= i < |db.addresses| ==> db.addresses[i].addressId < db.nextId)
    && (forall i :: 0 <= i < |db.categories| ==> db.categories[i].gameCategoryId < db.nextId)
    && (forall i :: 0 <= i < |db.messages| ==> db.messages[i].messageId < db.nextId)
    && (forall i :: 0 <= i < |db.inscriptions| ==> db.inscriptions[i].inscriptionId < db.nextId)
  }
}
