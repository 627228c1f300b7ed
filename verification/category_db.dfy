/**
 * `modele/gameCategoryDB.js`: the partial update of a game category, the
 * existence test, insertion and deletion.
 */
module GameCategoryDB {
  import opened Wrappers
  import opened Tables
  import opened SqlUpdate

  /** Both updatable columns are text and take any value. */
  predicate CategoryAccepts(column: string, v: Value) {
    column == "description" || column == "label"
  }

  function CategoryAssign(row: CategoryRow, column: string, v: Value): CategoryRow {
    if column == "description" then row.(description := v)
    else if column == "label" then row.(labelText := v)
    else row
  }

  function CategoryKey(row: CategoryRow): int {
    row.gameCategoryId
  }

  /** Every table but `gameCategory` is as it was. */
  predicate OnlyCategoriesChange(db: Db, r: Db) {
    r == db.(categories := r.categories)
  }

  /** The builder's arguments in the order it tests them: the description before the label. */
  function CategoryFields(labelText: Option<Value>, description: Option<Value>): seq<Field> {
    [Field("description", description), Field("label", labelText)]
  }

  lemma CategoryFieldsShape(labelText: Option<Value>, description: Option<Value>)
    ensures var fs := CategoryFields(labelText, description);
            (exists i :: 0 <= i < |fs| && fs[i].value.Some?) <==> labelText.Some? || description.Some?
    ensures var fs := CategoryFields(labelText, description);
            forall i :: 0 <= i < |fs| && fs[i].value.Some? ==> CategoryAccepts(fs[i].column, fs[i].value.value)
  {
    var fs := CategoryFields(labelText, description);
    assert fs[0].value == description && fs[1].value == labelText;
  }

  /** `updateCategory`'s query: the built SET list and `WHERE gameCategoryId = ...` with the id written into the text. */
  function UpdateCategoryQuery(gameCategoryId: Option<int>, labelText: Option<Value>, description: Option<Value>): (q: UpdateQuery)
    ensures q.table == "gameCategory" && q.where == Some(Where("gameCategoryId", gameCategoryId))
    ensures Numbered(q.clause)
  {
    UpdateQuery("gameCategory", SetClauseOf(CategoryFields(labelText, description)), Some(Where("gameCategoryId", gameCategoryId)))
  }

  /**
   * The description's fragment, when given, is `$1`; the label's comes after
   * it; an undefined argument contributes nothing.
   */
  lemma UpdateCategoryLayout(q: UpdateQuery, gameCategoryId: Option<int>, labelText: Option<Value>, description: Option<Value>)
    requires q == UpdateCategoryQuery(gameCategoryId, labelText, description)
    ensures |q.clause.params| == |q.clause.sets| == N(description) + N(labelText)
    ensures description.Some? ==> Slot(q.clause, 0, "description", description.value)
    ensures labelText.Some? ==> Slot(q.clause, N(description), "label", labelText.value)
    ensures description.None? ==> Absent(q.clause, "description")
    ensures labelText.None? ==> Absent(q.clause, "label")
  {
    assert "description"[0] == 'd' && "label"[0] == 'l';
    TwoFieldLayout("description", description, "label", labelText);
  }

  /** The row with every defined argument written; `labelText` goes to the `label` column. */
  function CategoryPatch(row: CategoryRow, labelText: Option<Value>, description: Option<Value>): CategoryRow {
    row.(labelText := labelText.GetOr(row.labelText), description := description.GetOr(row.description))
  }

  lemma CategoryFieldsApply(row: CategoryRow, labelText: Option<Value>, description: Option<Value>)
    ensures ApplyFields(row, CategoryFields(labelText, description), CategoryAssign) == CategoryPatch(row, labelText, description)
  {
    var fs := CategoryFields(labelText, description);
    var r1 := if description.Some? then row.(description := description.value) else row;
    var r2 := if labelText.Some? then r1.(labelText := labelText.value) else r1;
    assert "label" != "description" by { assert "label"[0] == 'l'; }
    assert ApplyFields(row, fs, CategoryAssign) == ApplyFields(r1, fs[1..], CategoryAssign);
    assert ApplyFields(r1, fs[1..], CategoryAssign) == ApplyFields(r2, fs[2..], CategoryAssign) by { assert fs[1..][1..] == fs[2..]; }
  }

  /**
   * `updateCategory`: the category with that id gets every defined argument.
   * It fails with no defined argument (an empty SET list) and when the id is
   * `undefined`.
   */
  function UpdateCategory(db: Db, gameCategoryId: Option<int>, labelText: Option<Value>, description: Option<Value>): (r: Result<Db>)
    ensures r.Ok? <==> (labelText.Some? || description.Some?) && gameCategoryId.Some?
    ensures r.Ok? ==> OnlyCategoriesChange(db, r.value) && |r.value.categories| == |db.categories|
    ensures r.Ok? ==> forall i :: 0 <= i < |db.categories| ==>
              r.value.categories[i] ==
                if db.categories[i].gameCategoryId == gameCategoryId.value then CategoryPatch(db.categories[i], labelText, description)
                else db.categories[i]
  {
    match CategoryUpdate(db.categories, gameCategoryId, labelText, description)
    case Err(e) => Err(e)
    case Ok(rows) => Ok(db.(categories := rows))
  }

  /** `updateCategory`'s query run on the rows of `gameCategory`. */
  function CategoryUpdate(rows: seq<CategoryRow>, gameCategoryId: Option<int>, labelText: Option<Value>,
                          description: Option<Value>): (r: Result<seq<CategoryRow>>)
    ensures r.Ok? <==> (labelText.Some? || description.Some?) && gameCategoryId.Some?
    ensures r.Ok? ==> gameCategoryId.Some? && |r.value| == |rows| && forall i :: 0 <= i < |rows| ==>
              r.value[i] == if rows[i].gameCategoryId == gameCategoryId.value
                            then CategoryPatch(rows[i], labelText, description) else rows[i]
  {
    CategoryUpdateOk(rows, gameCategoryId, labelText, description);
    CategoryUpdateRows(rows, gameCategoryId, labelText, description);
    ExecUpdate(rows, UpdateCategoryQuery(gameCategoryId, labelText, description), CategoryKey, CategoryAccepts, CategoryAssign)
  }

  /** When `updateCategory`'s query succeeds. */
  lemma CategoryUpdateOk(rows: seq<CategoryRow>, gameCategoryId: Option<int>, labelText: Option<Value>, description: Option<Value>)
    ensures var q := UpdateCategoryQuery(gameCategoryId, labelText, description);
            ExecUpdate(rows, q, CategoryKey, CategoryAccepts, CategoryAssign).Ok? <==>
              (labelText.Some? || description.Some?) && gameCategoryId.Some?
  {
    var q := UpdateCategoryQuery(gameCategoryId, labelText, description);
    CategoryFieldsShape(labelText, description);
    ExecBuilt(rows, "gameCategory", CategoryFields(labelText, description), q.where, CategoryKey, CategoryAccepts, CategoryAssign);
  }

  /** What `updateCategory`'s query does to each row when it succeeds. */
  lemma CategoryUpdateRows(rows: seq<CategoryRow>, gameCategoryId: Option<int>, labelText: Option<Value>, description: Option<Value>)
    ensures var res := ExecUpdate(rows, UpdateCategoryQuery(gameCategoryId, labelText, description),
                                  CategoryKey, CategoryAccepts, CategoryAssign);
            res.Ok? ==> gameCategoryId.Some? && |res.value| == |rows| && forall i :: 0 <= i < |rows| ==>
              res.value[i] == if rows[i].gameCategoryId == gameCategoryId.value
                              then CategoryPatch(rows[i], labelText, description) else rows[i]
  {
    var fs := CategoryFields(labelText, description);
    var q := UpdateCategoryQuery(gameCategoryId, labelText, description);
    ExecBuilt(rows, "gameCategory", fs, q.where, CategoryKey, CategoryAccepts, CategoryAssign);
    forall i | 0 <= i < |rows|
      ensures ApplyFields(rows[i], fs, CategoryAssign) == CategoryPatch(rows[i], labelText, description)
    {
      CategoryFieldsApply(rows[i], labelText, description);
    }
  }


  /** `categoryExist`: a count of the rows with that id, compared with zero. */
  function CategoryExist(db: Db, gameCategoryId: int): (r: bool)
    ensures r <==> exists i :: 0 <= i < |db.categories| && db.categories[i].gameCategoryId == gameCategoryId
  {
    FirstMatch(db.categories, (c: CategoryRow) => c.gameCategoryId == gameCategoryId).Some?
  }

  /** `insertCategory`: one new row under a fresh key with the given label and description. */
  function InsertCategory(db: Db, labelText: Value, description: Value): (r: Db)
    ensures OnlyCategoriesChange(db.(nextId := r.nextId), r) && r.nextId == db.nextId + 1
    ensures |r.categories| == |db.categories| + 1 && r.categories[..|db.categories|] == db.categories
    ensures r.categories[|db.categories|] == CategoryRow(db.nextId, labelText, description)
  {
    var c := CategoryRow(db.nextId, labelText, description);
    assert (db.categories + [c])[..|db.categories|] == db.categories;
    db.(categories := db.categories + [c], nextId := db.nextId + 1)
  }

  /** `deleteCategory`: only the rows with that id go. */
  function DeleteCategory(db: Db, gameCategoryId: int): (r: Db)
    ensures OnlyCategoriesChange(db, r)
    ensures forall c :: c in r.categories <==> c in db.categories && c.gameCategoryId != gameCategoryId
  {
    DeleteSpec(db.categories, (c: CategoryRow) => c.gameCategoryId == gameCategoryId);
    db.(categories := Delete(db.categories, (c: CategoryRow) => c.gameCategoryId == gameCategoryId))
  }

  /** A category just inserted exists, and deleting it restores the table it was inserted into. */
  lemma InsertThenDelete(db: Db, labelText: Value, description: Value)
    requires forall i :: 0 <= i < |db.categories| ==> db.categories[i].gameCategoryId < db.nextId
    ensures CategoryExist(InsertCategory(db, labelText, description), db.nextId)
    ensures var d := DeleteCategory(InsertCategory(db, labelText, description), db.nextId);
            forall c :: c in d.categories <==> c in db.categories
    ensures DeleteCategory(InsertCategory(db, labelText, description), db.nextId).categories == db.categories
  {
    var d1 := InsertCategory(db, labelText, description);
    assert d1.categories == db.categories + [CategoryRow(db.nextId, labelText, description)];
    DeleteLast(db.categories, CategoryRow(db.nextId, labelText, description), (c: CategoryRow) => c.gameCategoryId == db.nextId);
    assert d1.categories[|db.categories|].gameCategoryId == db.nextId;
    var d := DeleteCategory(d1, db.nextId);
    forall c ensures c in d.categories <==> c in db.categories {
      if c in db.categories {
        var i :| 0 <= i < |db.categories| && db.categories[i] == c;
        assert d1.categories[i] == c;
      }
      if c in d1.categories && c.gameCategoryId != db.nextId {
        var i :| 0 <= i < |d1.categories| && d1.categories[i] == c;
        assert i < |db.categories|;
        assert db.categories[i] == c;
      }
    }
  }
}
