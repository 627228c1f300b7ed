/**
 * The partial-update construction shared by `modifyEvent`, `updateAddress`,
 * `modifyUser`, `updateCategory` and `updateEventInscription`: every
 * argument that is not `undefined` pushes its value onto `params` and the
 * fragment ` column = $k ` onto `querySet`, where `k` is the new length of
 * `params`; the fragments are joined after `UPDATE table SET `.
 *
 * The query is modelled as its list of fragments, not as text.
 */
module SqlUpdate {
  import opened Wrappers
  import opened Tables

  /** One optional builder argument: the column it targets and its value. */
  datatype Field = Field(column: string, value: Option<Value>)

  /** The fragment ` column = $slot `. */
  datatype Assign = Assign(column: string, slot: nat)

  /** The `querySet` and `params` arrays a builder accumulates. */
  datatype SetClause = SetClause(sets: seq<Assign>, params: seq<Value>)

  /**
   * `WHERE column = key`, with the key written into the query text rather
   * than bound as a parameter; `None` is a key that was `undefined`.
   */
  datatype Where = Where(column: string, key: Option<int>)

  /** `UPDATE table SET <sets joined by ','> [WHERE ...]` with its parameter array. */
  datatype UpdateQuery = UpdateQuery(table: string, clause: SetClause, where: Option<Where>)

  /** Every fragment refers to its own 1-based position in `params`. */
  predicate Numbered(c: SetClause) {
    && |c.sets| == |c.params|
    && forall k :: 0 <= k < |c.sets| ==> c.sets[k].slot == k + 1
  }

  /** Fragment `k` names field `k` and binds parameter `offset + k`, which holds its value. */
  predicate LaidOut(defined: seq<Field>, sets: seq<Assign>, params: seq<Value>, offset: nat) {
    && |sets| == |defined| && offset + |defined| <= |params|
    && forall k :: 0 <= k < |sets| ==>
         && sets[k] == Assign(defined[k].column, offset + k + 1)
         && defined[k].value == Some(params[offset + k])
  }

  /** The reference: the defined arguments, in argument order. */
  function Defined(fields: seq<Field>): (d: seq<Field>)
    ensures forall f :: f in d ==> f in fields && f.value.Some?
  {
    if |fields| == 0 then []
    else (if fields[0].value.Some? then [fields[0]] else []) + Defined(fields[1..])
  }

  /** How many arguments before position `i` are defined. */
  function Rank(fields: seq<Field>, i: nat): nat
    requires i <= |fields|
  {
    |Defined(fields[..i])|
  }

  /** One `if (x !== undefined) { params.push(x); querySet.push(...) }` step. */
  function Push(acc: SetClause, f: Field): SetClause {
    if f.value.None? then acc
    else
      var params := acc.params + [f.value.value];
      SetClause(acc.sets + [Assign(f.column, |params|)], params)
  }

  /**
   * The `querySet` and `params` arrays a builder produces from its
   * arguments: the pushes of all but the last argument, then the last one's.
   */
  function SetClauseOf(fields: seq<Field>): (c: SetClause)
    ensures Numbered(c)
    ensures LaidOut(Defined(fields), c.sets, c.params, 0)
    decreases |fields|
  {
    if |fields| == 0 then SetClause([], [])
    else
      var n := |fields| - 1;
      var before := SetClauseOf(fields[..n]);
      assert fields[..n] + [fields[n]] == fields;
      DefinedAppend(fields[..n], [fields[n]]);
      Push(before, fields[n])
  }

  /** `Defined` peels off the first argument. */
  lemma DefinedCons(fields: seq<Field>)
    requires |fields| > 0
    ensures Defined(fields) == (if fields[0].value.Some? then [fields[0]] else []) + Defined(fields[1..])
  {
  }

  lemma {:induction false} DefinedAppend(a: seq<Field>, b: seq<Field>)
    ensures Defined(a + b) == Defined(a) + Defined(b)
    decreases |a|
  {
    if |a| == 0 {
      assert a + b == b;
    } else {
      assert (a + b)[1..] == a[1..] + b;
      DefinedAppend(a[1..], b);
    }
  }

  /** A defined argument sits in `Defined` at its rank. */
  lemma DefinedPlacement(fields: seq<Field>, i: nat)
    requires i < |fields| && fields[i].value.Some?
    ensures Rank(fields, i) < |Defined(fields)|
    ensures Defined(fields)[Rank(fields, i)] == fields[i]
  {
    assert fields == fields[..i] + fields[i..];
    DefinedAppend(fields[..i], fields[i..]);
    assert fields[i..][0] == fields[i];
  }

  /** Ranks grow by one exactly at each defined argument. */
  lemma RankStep(fields: seq<Field>, i: nat)
    requires i < |fields|
    ensures Rank(fields, i + 1) == Rank(fields, i) + N(fields[i].value)
  {
    assert fields[..i + 1] == fields[..i] + [fields[i]];
    DefinedAppend(fields[..i], [fields[i]]);
  }

  lemma {:induction false} RankMonotone(fields: seq<Field>, i: nat, j: nat)
    requires i <= j <= |fields|
    ensures Rank(fields, i) <= Rank(fields, j)
    decreases j - i
  {
    if i < j {
      RankStep(fields, j - 1);
      RankMonotone(fields, i, j - 1);
    }
  }

  /** Earlier defined arguments get strictly smaller positions. */
  lemma RankOrder(fields: seq<Field>, i: nat, j: nat)
    requires i < j < |fields| && fields[i].value.Some?
    ensures Rank(fields, i) < Rank(fields, j)
  {
    RankStep(fields, i);
    RankMonotone(fields, i + 1, j);
  }

  /** Every position of `Defined` comes from a defined argument of that rank. */
  lemma {:induction false} DefinedOrigin(fields: seq<Field>, k: nat)
    requires k < |Defined(fields)|
    ensures exists i :: 0 <= i < |fields| && fields[i].value.Some? && Rank(fields, i) == k
    decreases |fields|
  {
    var n := |fields|;
    assert n > 0;
    assert fields == fields[..n - 1] + [fields[n - 1]];
    DefinedAppend(fields[..n - 1], [fields[n - 1]]);
    if k < Rank(fields, n - 1) {
      DefinedOrigin(fields[..n - 1], k);
      var i :| 0 <= i < n - 1 && fields[..n - 1][i].value.Some? && Rank(fields[..n - 1], i) == k;
      assert fields[..n - 1][..i] == fields[..i];
    } else {
      assert fields[n - 1].value.Some?;
    }
  }

  /** The column fragment `k` names and the value it binds, when it exists and refers to `$k+1`. */
  function SlotOf(c: SetClause, k: nat): Option<(string, Value)> {
    if k < |c.sets| && k < |c.params| && c.sets[k].slot == k + 1 then Some((c.sets[k].column, c.params[k])) else None
  }

  /** Fragment `k` is ` column = $k+1 ` and parameter `k` is `v`. */
  predicate Slot(c: SetClause, k: nat, column: string, v: Value) {
    SlotOf(c, k) == Some((column, v))
  }

  /** A defined argument contributes the fragment ` column = $k ` where `k` is its 1-based rank. */
  lemma SlotOfDefined(fields: seq<Field>, i: nat)
    requires i < |fields| && fields[i].value.Some?
    ensures Slot(SetClauseOf(fields), Rank(fields, i), fields[i].column, fields[i].value.value)
  {
    DefinedPlacement(fields, i);
  }

  /** `params` holds exactly one value per defined argument. */
  lemma ParamCount(fields: seq<Field>)
    ensures |SetClauseOf(fields).params| == Rank(fields, |fields|)
  {
    assert fields[..|fields|] == fields;
  }

  /** Every fragment comes from a defined argument, the one whose rank is its position. */
  lemma FragmentOrigin(fields: seq<Field>, k: nat)
    requires k < |SetClauseOf(fields).sets|
    ensures exists i :: 0 <= i < |fields| && fields[i].value.Some? && Rank(fields, i) == k
                        && SetClauseOf(fields).sets[k].column == fields[i].column
  {
    DefinedOrigin(fields, k);
    var i :| 0 <= i < |fields| && fields[i].value.Some? && Rank(fields, i) == k;
    DefinedPlacement(fields, i);
  }

  /** No two arguments of a builder name the same column. */
  predicate DistinctColumns(fields: seq<Field>) {
    forall i, j :: 0 <= i < j < |fields| ==> fields[i].column != fields[j].column
  }

  /** Column `column` has no fragment in the clause. */
  predicate Absent(c: SetClause, column: string) {
    forall a :: a in c.sets ==> a.column != column
  }

  /** An `undefined` argument contributes nothing. */
  lemma AbsentWhenUndefined(fields: seq<Field>, i: nat)
    requires DistinctColumns(fields)
    requires i < |fields| && fields[i].value.None?
    ensures Absent(SetClauseOf(fields), fields[i].column)
  {
    var c := SetClauseOf(fields);
    forall a | a in c.sets
      ensures a.column != fields[i].column
    {
      var k :| 0 <= k < |c.sets| && c.sets[k] == a;
      FragmentOrigin(fields, k);
      var j :| 0 <= j < |fields| && fields[j].value.Some? && Rank(fields, j) == k && a.column == fields[j].column;
      if j < i {
        assert fields[j].column != fields[i].column;
      } else {
        assert fields[i].column != fields[j].column;
      }
    }
  }

  /** Where argument `i` lands if it is defined. */
  lemma SlotIfDefined(fields: seq<Field>, i: nat)
    requires i < |fields|
    ensures fields[i].value.Some? ==> Slot(SetClauseOf(fields), Rank(fields, i), fields[i].column, fields[i].value.value)
  {
    if fields[i].value.Some? { SlotOfDefined(fields, i); }
  }

  /** Where argument `i` lands if it is defined, given its rank `k`. */
  lemma SlotAt(fields: seq<Field>, i: nat, k: nat)
    requires i < |fields| && k == Rank(fields, i)
    ensures fields[i].value.Some? ==> Slot(SetClauseOf(fields), k, fields[i].column, fields[i].value.value)
  {
    SlotIfDefined(fields, i);
  }

  /** That argument `i` leaves no fragment if it is undefined. */
  lemma AbsentIfUndefined(fields: seq<Field>, i: nat)
    requires DistinctColumns(fields) && i < |fields|
    ensures fields[i].value.None? ==> Absent(SetClauseOf(fields), fields[i].column)
  {
    if fields[i].value.None? { AbsentWhenUndefined(fields, i); }
  }

  /** 1 for a defined argument, 0 for `undefined`. */
  function N(v: Option<Value>): nat {
    if v.Some? then 1 else 0
  }

  /** The layout of a two-argument builder, stated on the arguments themselves. */
  lemma TwoFieldLayout(c0: string, v0: Option<Value>, c1: string, v1: Option<Value>)
    requires c0 != c1
    ensures var c := SetClauseOf([Field(c0, v0), Field(c1, v1)]);
      && |c.params| == |c.sets| == N(v0) + N(v1)
      && (v0.Some? ==> Slot(c, 0, c0, v0.value))
      && (v1.Some? ==> Slot(c, N(v0), c1, v1.value))
      && (v0.None? ==> Absent(c, c0))
      && (v1.None? ==> Absent(c, c1))
  {
    var fields := [Field(c0, v0), Field(c1, v1)];
    FieldRanks2(fields);
    ParamCount(fields);
    SlotIfDefined(fields, 0);
    SlotIfDefined(fields, 1);
    AbsentIfUndefined(fields, 0);
    AbsentIfUndefined(fields, 1);
  }

  lemma FieldRanks2(fields: seq<Field>)
    requires |fields| == 2
    ensures Rank(fields, 0) == 0
    ensures Rank(fields, 1) == N(fields[0].value)
    ensures Rank(fields, 2) == N(fields[0].value) + N(fields[1].value)
  {
    assert fields[..0] == [];
    RankStep(fields, 0);
    RankStep(fields, 1);
  }

  lemma FieldRanks5(fields: seq<Field>)
    requires |fields| == 5
    ensures Rank(fields, 0) == 0
    ensures Rank(fields, 1) == N(fields[0].value)
    ensures Rank(fields, 2) == N(fields[0].value) + N(fields[1].value)
    ensures Rank(fields, 3) == N(fields[0].value) + N(fields[1].value) + N(fields[2].value)
    ensures Rank(fields, 4) == N(fields[0].value) + N(fields[1].value) + N(fields[2].value) + N(fields[3].value)
    ensures Rank(fields, 5) == N(fields[0].value) + N(fields[1].value) + N(fields[2].value) + N(fields[3].value) + N(fields[4].value)
  {
    assert fields[..0] == [];
    RankStep(fields, 0);
    RankStep(fields, 1);
    RankStep(fields, 2);
    RankStep(fields, 3);
    RankStep(fields, 4);
  }

  /** Where each argument of a five-argument builder lands, and how many values it binds. */
  lemma FiveFieldLayout(fields: seq<Field>, c0: string, v0: Option<Value>, c1: string, v1: Option<Value>,
                        c2: string, v2: Option<Value>, c3: string, v3: Option<Value>, c4: string, v4: Option<Value>)
    requires |fields| == 5 && fields[0] == Field(c0, v0) && fields[1] == Field(c1, v1) && fields[2] == Field(c2, v2)
    requires fields[3] == Field(c3, v3) && fields[4] == Field(c4, v4)
    ensures |SetClauseOf(fields).params| == N(v0) + N(v1) + N(v2) + N(v3) + N(v4)
    ensures v0.Some? ==> Slot(SetClauseOf(fields), 0, c0, v0.value)
    ensures v1.Some? ==> Slot(SetClauseOf(fields), N(v0), c1, v1.value)
    ensures v2.Some? ==> Slot(SetClauseOf(fields), N(v0) + N(v1), c2, v2.value)
    ensures v3.Some? ==> Slot(SetClauseOf(fields), N(v0) + N(v1) + N(v2), c3, v3.value)
    ensures v4.Some? ==> Slot(SetClauseOf(fields), N(v0) + N(v1) + N(v2) + N(v3), c4, v4.value)
  {
    FieldRanks5(fields);
    ParamCount(fields);
    SlotAt(fields, 0, 0);
    SlotAt(fields, 1, N(v0));
    SlotAt(fields, 2, N(v0) + N(v1));
    SlotAt(fields, 3, N(v0) + N(v1) + N(v2));
    SlotAt(fields, 4, N(v0) + N(v1) + N(v2) + N(v3));
  }

  /** Five arguments whose columns differ pairwise name distinct columns. */
  lemma FiveDistinct(fields: seq<Field>)
    requires |fields| == 5
    requires fields[0].column != fields[1].column && fields[0].column != fields[2].column
    requires fields[0].column != fields[3].column && fields[0].column != fields[4].column
    requires fields[1].column != fields[2].column && fields[1].column != fields[3].column
    requires fields[1].column != fields[4].column && fields[2].column != fields[3].column
    requires fields[2].column != fields[4].column && fields[3].column != fields[4].column
    ensures DistinctColumns(fields)
  {
    forall i, j | 0 <= i < j < |fields| ensures fields[i].column != fields[j].column {
      if i == 0 {
      } else if i == 1 {
      } else if i == 2 {
      } else {
        assert i == 3 && j == 4;
      }
    }
  }

  /** The `undefined` arguments of a five-argument builder with distinct columns leave no fragment. */
  lemma FiveFieldAbsent(fields: seq<Field>)
    requires |fields| == 5 && DistinctColumns(fields)
    ensures fields[0].value.None? ==> Absent(SetClauseOf(fields), fields[0].column)
    ensures fields[1].value.None? ==> Absent(SetClauseOf(fields), fields[1].column)
    ensures fields[2].value.None? ==> Absent(SetClauseOf(fields), fields[2].column)
    ensures fields[3].value.None? ==> Absent(SetClauseOf(fields), fields[3].column)
    ensures fields[4].value.None? ==> Absent(SetClauseOf(fields), fields[4].column)
  {
    AbsentIfUndefined(fields, 0);
    AbsentIfUndefined(fields, 1);
    AbsentIfUndefined(fields, 2);
    AbsentIfUndefined(fields, 3);
    AbsentIfUndefined(fields, 4);
  }

  /** Does the statement touch a row with this key? No WHERE clause touches every row. */
  predicate Targets(where: Option<Where>, key: int) {
    where.None? || where.value.key == Some(key)
  }

  /** Writes the SET list into one row, fragment by fragment. */
  function ApplySets<R>(row: R, sets: seq<Assign>, params: seq<Value>, assign: (R, string, Value) -> R): R
    requires forall a :: a in sets ==> 1 <= a.slot <= |params|
    decreases |sets|
  {
    if |sets| == 0 then row
    else ApplySets(assign(row, sets[0].column, params[sets[0].slot - 1]), sets[1..], params, assign)
  }

  /** Every fragment names one of the builder's columns. */
  lemma ClauseColumns(fields: seq<Field>, columns: set<string>)
    requires forall f :: f in fields ==> f.column in columns
    ensures forall k :: 0 <= k < |SetClauseOf(fields).sets| ==> SetClauseOf(fields).sets[k].column in columns
  {
    var c := SetClauseOf(fields);
    forall k | 0 <= k < |c.sets| ensures c.sets[k].column in columns {
      assert Defined(fields)[k] in Defined(fields);
    }
  }

  /** One argument written into a row when it is defined. */
  function Step<R>(row: R, f: Field, assign: (R, string, Value) -> R): R {
    if f.value.Some? then assign(row, f.column, f.value.value) else row
  }

  /** The reference semantics of a partial update: each defined field written in argument order. */
  function ApplyFields<R>(row: R, fields: seq<Field>, assign: (R, string, Value) -> R): R
    decreases |fields|
  {
    if |fields| == 0 then row
    else ApplyFields(Step(row, fields[0], assign), fields[1..], assign)
  }

  /** The reference semantics of a five-argument builder, step by step. */
  lemma ApplyFive<R>(row: R, f0: Field, f1: Field, f2: Field, f3: Field, f4: Field, assign: (R, string, Value) -> R)
    ensures ApplyFields(row, [f0, f1, f2, f3, f4], assign)
            == Step(Step(Step(Step(Step(row, f0, assign), f1, assign), f2, assign), f3, assign), f4, assign)
  {
    var r1 := Step(row, f0, assign);
    var r2 := Step(r1, f1, assign);
    var r3 := Step(r2, f2, assign);
    var r4 := Step(r3, f3, assign);
    assert [f0, f1, f2, f3, f4][1..] == [f1, f2, f3, f4];
    assert [f1, f2, f3, f4][1..] == [f2, f3, f4];
    assert [f2, f3, f4][1..] == [f3, f4];
    assert [f3, f4][1..] == [f4];
    calc {
      ApplyFields(row, [f0, f1, f2, f3, f4], assign);
      ApplyFields(r1, [f1, f2, f3, f4], assign);
      ApplyFields(r2, [f2, f3, f4], assign);
      ApplyFields(r3, [f3, f4], assign);
      ApplyFields(r4, [f4], assign);
      { assert [f4][1..] == []; }
      Step(r4, f4, assign);
    }
  }

  /** Executing fragments that name the defined fields in order, each on its own slot, writes those fields. */
  lemma {:induction false} ApplyDefined<R>(row: R, defined: seq<Field>, sets: seq<Assign>, params: seq<Value>, offset: nat,
                                           assign: (R, string, Value) -> R)
    requires LaidOut(defined, sets, params, offset)
    ensures forall a :: a in sets ==> 1 <= a.slot <= |params|
    ensures ApplySets(row, sets, params, assign) == ApplyFields(row, defined, assign)
    decreases |sets|
  {
    if |sets| > 0 {
      var next := assign(row, sets[0].column, params[offset]);
      assert LaidOut(defined[1..], sets[1..], params, offset + 1) by {
        forall k | 0 <= k < |sets| - 1
          ensures sets[1..][k] == Assign(defined[1..][k].column, offset + 1 + k + 1)
          ensures defined[1..][k].value == Some(params[offset + 1 + k])
        {
          assert sets[1..][k] == sets[k + 1] && defined[1..][k] == defined[k + 1];
        }
      }
      ApplyDefined(next, defined[1..], sets[1..], params, offset + 1, assign);
      assert sets[0] == Assign(defined[0].column, offset + 1);
      assert forall a :: a in sets ==> a == sets[0] || a in sets[1..];
    }
  }

  /** Skipping the undefined fields does not change what is written. */
  lemma {:induction false} ApplyOnlyDefined<R>(row: R, fields: seq<Field>, assign: (R, string, Value) -> R)
    ensures ApplyFields(row, Defined(fields), assign) == ApplyFields(row, fields, assign)
    decreases |fields|
  {
    if |fields| > 0 {
      DefinedCons(fields);
      var next := Step(row, fields[0], assign);
      ApplyOnlyDefined(next, fields[1..], assign);
      var d := Defined(fields);
      if fields[0].value.Some? {
        assert d[0] == fields[0] && d[1..] == Defined(fields[1..]);
        assert ApplyFields(row, d, assign) == ApplyFields(next, d[1..], assign);
      } else {
        assert d == Defined(fields[1..]);
      }
    }
  }

  /** Running the built SET list on a row writes exactly the defined fields, in argument order. */
  lemma ApplySetClause<R>(row: R, fields: seq<Field>, assign: (R, string, Value) -> R)
    ensures var c := SetClauseOf(fields); forall a :: a in c.sets ==> 1 <= a.slot <= |c.params|
    ensures var c := SetClauseOf(fields); ApplySets(row, c.sets, c.params, assign) == ApplyFields(row, fields, assign)
  {
    var c := SetClauseOf(fields);
    ApplyLaidOut(row, fields, c, assign);
  }

  lemma ApplyLaidOut<R>(row: R, fields: seq<Field>, c: SetClause, assign: (R, string, Value) -> R)
    requires |c.sets| == |c.params| == |Defined(fields)|
    requires forall k :: 0 <= k < |c.sets| ==>
               && c.sets[k] == Assign(Defined(fields)[k].column, k + 1)
               && Some(c.params[k]) == Defined(fields)[k].value
    ensures forall a :: a in c.sets ==> 1 <= a.slot <= |c.params|
    ensures ApplySets(row, c.sets, c.params, assign) == ApplyFields(row, fields, assign)
  {
    var d := Defined(fields);
    assert LaidOut(d, c.sets, c.params, 0);
    ApplyDefined(row, d, c.sets, c.params, 0, assign);
    ApplyOnlyDefined(row, fields, assign);
  }


  /**
   * Runs an UPDATE against one table. `keyOf` reads the row's key, `accepts`
   * says whether a column exists and takes the value's type, `assign` writes
   * it. An empty SET list is a syntax error; an unknown column, a value of
   * the wrong type or an `undefined` key fails the whole statement.
   */
  function ExecUpdate<R>(rows: seq<R>, q: UpdateQuery, keyOf: R -> int,
                         accepts: (string, Value) -> bool, assign: (R, string, Value) -> R): (r: Result<seq<R>>)
    requires Numbered(q.clause)
    ensures r.Ok? <==>
              && |q.clause.sets| > 0
              && (forall k :: 0 <= k < |q.clause.sets| ==> accepts(q.clause.sets[k].column, q.clause.params[k]))
              && (q.where.Some? ==> q.where.value.key.Some?)
    ensures r.Ok? ==> |r.value| == |rows|
    ensures r.Ok? ==> forall i :: 0 <= i < |rows| && !Targets(q.where, keyOf(rows[i])) ==> r.value[i] == rows[i]
    ensures r.Ok? ==> forall i :: 0 <= i < |rows| && Targets(q.where, keyOf(rows[i])) ==>
                        r.value[i] == ApplySets(rows[i], q.clause.sets, q.clause.params, assign)
  {
    var c := q.clause;
    if |c.sets| == 0 then Err("syntax error at or near \"WHERE\"")
    else if exists k :: 0 <= k < |c.sets| && !accepts(c.sets[k].column, c.params[k]) then Err("column does not accept value")
    else if q.where.Some? && q.where.value.key.None? then Err("column \"undefined\" does not exist")
    else
      assert forall a :: a in c.sets ==> 1 <= a.slot <= |c.params|;
      Ok(seq(|rows|, i requires 0 <= i < |rows| =>
        if Targets(q.where, keyOf(rows[i])) then ApplySets(rows[i], c.sets, c.params, assign) else rows[i]))
  }

  /** The built SET list is non-empty exactly when some argument is defined. */
  lemma NonEmptyClause(fields: seq<Field>)
    ensures |SetClauseOf(fields).sets| > 0 <==> exists i :: 0 <= i < |fields| && fields[i].value.Some?
  {
    var d := Defined(fields);
    if exists i :: 0 <= i < |fields| && fields[i].value.Some? {
      var i :| 0 <= i < |fields| && fields[i].value.Some?;
      DefinedPlacement(fields, i);
    }
    if |d| > 0 {
      assert d[0] in d;
    }
  }

  /** Every fragment's column accepts its parameter exactly when every defined argument's column accepts it. */
  lemma ClauseAccepted(fields: seq<Field>, accepts: (string, Value) -> bool)
    ensures var c := SetClauseOf(fields);
            (forall k :: 0 <= k < |c.sets| ==> accepts(c.sets[k].column, c.params[k])) <==>
              forall i :: 0 <= i < |fields| && fields[i].value.Some? ==> accepts(fields[i].column, fields[i].value.value)
  {
    var c := SetClauseOf(fields);
    if forall i :: 0 <= i < |fields| && fields[i].value.Some? ==> accepts(fields[i].column, fields[i].value.value) {
      forall k | 0 <= k < |c.sets| ensures accepts(c.sets[k].column, c.params[k]) {
        DefinedOrigin(fields, k);
        var i :| 0 <= i < |fields| && fields[i].value.Some? && Rank(fields, i) == k;
        DefinedPlacement(fields, i);
      }
    } else {
      var i :| 0 <= i < |fields| && fields[i].value.Some? && !accepts(fields[i].column, fields[i].value.value);
      DefinedPlacement(fields, i);
      var k := Rank(fields, i);
      assert !accepts(c.sets[k].column, c.params[k]);
    }
  }

  /**
   * Running a built UPDATE: it fails exactly when no argument is defined,
   * a defined argument is refused by its column, or the key is undefined;
   * otherwise each targeted row gets the defined arguments and every other
   * row is kept.
   */
  lemma ExecBuilt<R>(rows: seq<R>, table: string, fields: seq<Field>, where: Option<Where>, keyOf: R -> int,
                     accepts: (string, Value) -> bool, assign: (R, string, Value) -> R)
    ensures var r := ExecUpdate(rows, UpdateQuery(table, SetClauseOf(fields), where), keyOf, accepts, assign);
            r.Ok? <==>
              && (exists i :: 0 <= i < |fields| && fields[i].value.Some?)
              && (forall i :: 0 <= i < |fields| && fields[i].value.Some? ==> accepts(fields[i].column, fields[i].value.value))
              && (where.Some? ==> where.value.key.Some?)
    ensures var r := ExecUpdate(rows, UpdateQuery(table, SetClauseOf(fields), where), keyOf, accepts, assign);
            r.Ok? ==> |r.value| == |rows| && forall i :: 0 <= i < |rows| ==>
              r.value[i] == if Targets(where, keyOf(rows[i])) then ApplyFields(rows[i], fields, assign) else rows[i]
  {
    var c := SetClauseOf(fields);
    var r := ExecUpdate(rows, UpdateQuery(table, c, where), keyOf, accepts, assign);
    NonEmptyClause(fields);
    ClauseAccepted(fields, accepts);
    if r.Ok? {
      forall i | 0 <= i < |rows| && Targets(where, keyOf(rows[i]))
        ensures r.value[i] == ApplyFields(rows[i], fields, assign)
      {
        ApplySetClause(rows[i], fields, assign);
      }
    }
  }
}
