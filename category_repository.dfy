/**
 * CategoryRepository: the listing query and `save` / `delete` on the
 * `category` table. Deleting a category that a recipe still references is
 * refused by the recipe table's foreign key.
 */
module CategoryRepositories {
  import opened Wrappers
  import opened Store
  import Tables
  import Ordering
  import Entities

  /** Items per page. */
  const PAGINATOR_ITEMS_PER_PAGE: nat := 10

  /** The ORDER BY key of `queryAll`. */
  function UpdatedAt(row: CategoryRow): int { row.updatedAt }

  class CategoryRepository {
    const db: Database

    constructor(db: Database)
      ensures this.db == db
    {
      this.db := db;
    }

    /** `queryAll`: every category, newest `updatedAt` first. */
    function QueryAll(): (r: seq<CategoryRow>)
      reads db
      ensures Ordering.SortedDesc(r, UpdatedAt)
      ensures multiset(r) == multiset(db.categories)
    {
      Ordering.SortDesc(db.categories, UpdatedAt)
    }

    /** The primary key a flush gives `category`: its own, or the next identity value. */
    function KeyFor(category: Entities.Category): nat
      reads db, category
    {
      if category.id.Some? then category.id.value else db.nextCategoryId
    }

    /**
     * The row a flush writes for `category` under key `id`, or the error
     * the flush raises: a listed recipe that was never persisted (the
     * association does not cascade persist), or a missing NOT NULL column.
     */
    function RowFor(category: Entities.Category, id: nat): (r: Result<CategoryRow, PersistError>)
      reads category, category.recipes
      ensures r.Success? <==>
        && (forall recipe | recipe in category.recipes :: recipe.id.Some?)
        && category.name.Some? && category.createdAt.Some? && category.updatedAt.Some?
      ensures r.Success? ==>
        && r.value.id == id && Some(r.value.name) == category.name
        && Some(r.value.createdAt) == category.createdAt && Some(r.value.updatedAt) == category.updatedAt
    {
      if exists recipe | recipe in category.recipes :: recipe.id.None? then Failure(NewEntityInRelation("recipes"))
      else if category.name.None? then Failure(NotNullViolation("name"))
      else if category.createdAt.None? then Failure(NotNullViolation("created_at"))
      else if category.updatedAt.None? then Failure(NotNullViolation("updated_at"))
      else Success(CategoryRow(id, category.name.value, category.createdAt.value, category.updatedAt.value))
    }

    /**
     * `save`: persist and flush. On success the category has a key, exactly
     * one row carries it and holds its fields, and no other row changed. On
     * failure nothing changed.
     */
    method Save(category: Entities.Category) returns (result: Outcome<PersistError>)
      requires db.Valid()
      modifies db, category`id
      ensures db.Valid()
      ensures db.recipes == old(db.recipes) && db.users == old(db.users)
      ensures old(RowFor(category, KeyFor(category))).Failure? ==>
        && result == Fail(old(RowFor(category, KeyFor(category))).error)
        && db.categories == old(db.categories) && category.id == old(category.id)
      ensures old(RowFor(category, KeyFor(category))).Success? ==>
        && result == Pass
        && category.id == Some(old(KeyFor(category)))
        && db.categories == Tables.Upsert(old(db.categories), old(RowFor(category, KeyFor(category))).value, CategoryKey)
        && Tables.Find(db.categories, category.id.value, CategoryKey) == Some(old(RowFor(category, KeyFor(category))).value)
        && (forall row | row in db.categories && row.id == category.id.value :: row == old(RowFor(category, KeyFor(category))).value)
        && (forall k | k != category.id.value :: Tables.Find(db.categories, k, CategoryKey) == Tables.Find(old(db.categories), k, CategoryKey))
    {
      var key := KeyFor(category);
      var row := RowFor(category, key);
      if row.Failure? {
        return Fail(row.error);
      }
      CategoryUpsertConsistent(db.recipes, db.categories, db.users, db.nextRecipeId, db.nextCategoryId, db.nextUserId, row.value);
      Tables.UpsertSingleRow(db.categories, row.value, CategoryKey);
      Tables.FindAfterUpsert(db.categories, row.value, CategoryKey);
      forall k | k != key
        ensures Tables.Find(Tables.Upsert(db.categories, row.value, CategoryKey), k, CategoryKey) == Tables.Find(db.categories, k, CategoryKey)
      {
        Tables.FindOtherAfterUpsert(db.categories, row.value, k, CategoryKey);
      }
      db.categories := Tables.Upsert(db.categories, row.value, CategoryKey);
      db.nextCategoryId := NextAfter(db.nextCategoryId, key);
      category.id := Some(key);
      result := Pass;
    }

    /**
     * `delete`: remove and flush. A category that was never saved is
     * ignored. One that a recipe row references is refused by the foreign
     * key and nothing changes. Otherwise its row is gone, every other row is
     * as it was, and the category's generated id is reset.
     */
    method Delete(category: Entities.Category) returns (result: Outcome<PersistError>)
      requires db.Valid()
      modifies db, category`id
      ensures db.Valid()
      ensures db.recipes == old(db.recipes) && db.users == old(db.users)
      ensures old(category.id).None? ==> result == Pass && db.categories == old(db.categories) && category.id == None
      ensures old(category.id).Some? && (exists row | row in old(db.recipes) :: row.categoryId == old(category.id).value) ==>
        && result == Fail(ForeignKeyViolation("category_id"))
        && db.categories == old(db.categories) && category.id == old(category.id)
      ensures old(category.id).Some? && (forall row | row in old(db.recipes) :: row.categoryId != old(category.id).value) ==>
        && result == Pass
        && category.id == None
        && db.categories == Tables.RemoveKey(old(db.categories), old(category.id).value, CategoryKey)
        && Tables.Find(db.categories, old(category.id).value, CategoryKey) == None
        && (forall k | k != old(category.id).value ::
              Tables.Find(db.categories, k, CategoryKey) == Tables.Find(old(db.categories), k, CategoryKey))
    {
      if category.id.None? {
        return Pass;
      }
      var key := category.id.value;
      if exists row | row in db.recipes :: row.categoryId == key {
        return Fail(ForeignKeyViolation("category_id"));
      }
      CategoryRemoveConsistent(db.recipes, db.categories, db.users, db.nextRecipeId, db.nextCategoryId, db.nextUserId, key);
      forall k | k != key
        ensures Tables.Find(Tables.RemoveKey(db.categories, key, CategoryKey), k, CategoryKey) == Tables.Find(db.categories, k, CategoryKey)
      {
        Tables.FindOtherAfterRemove(db.categories, key, k, CategoryKey);
      }
      db.categories := Tables.RemoveKey(db.categories, key, CategoryKey);
      category.id := None;
      result := Pass;
    }
  }
}
