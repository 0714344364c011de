/**
 * RecipeRepository: the recipe queries (all recipes newest-updated first,
 * those of one author, the count per category) as functions over the
 * `recipes` table, and `save` / `delete` as changes to it.
 */
module RecipeRepositories {
  import opened Wrappers
  import opened Store
  import Tables
  import Ordering
  import Entities
  import Users

  /** Items per page. */
  const PAGINATOR_ITEMS_PER_PAGE: nat := 10

  /** The ORDER BY key of `queryAll`. */
  function UpdatedAt(row: RecipeRow): int { row.updatedAt }

  /** `recipe.author = :author`, with the author bound by its id. */
  function AuthoredBy(authorId: nat): RecipeRow -> bool
  {
    (row: RecipeRow) => row.authorId == Some(authorId)
  }

  /** `recipe.category = :category`, with the category bound by its id. */
  function InCategory(categoryId: nat): RecipeRow -> bool
  {
    (row: RecipeRow) => row.categoryId == categoryId
  }

  /**
   * Doctrine's ORMInvalidArgumentException when an entity is bound as a
   * query parameter: only an entity that has an identifier can be bound.
   */
  datatype QueryFailure = UnidentifiedEntity(parameter: string)

  /** UniqueEntity(fields: ['title']): no other stored recipe has this title. */
  predicate TitleIsFree(rows: seq<RecipeRow>, row: RecipeRow)
  {
    forall other | other in rows && other.title == row.title :: other.id == row.id
  }

  /** Titles are unique across the stored recipes. */
  predicate TitlesUnique(rows: seq<RecipeRow>)
  {
    forall a, b | a in rows && b in rows && a.title == b.title :: a.id == b.id
  }

  /**
   * Saving only recipes that passed the UniqueEntity check keeps titles
   * unique in the table.
   */
  lemma ValidatedSaveKeepsTitlesUnique(rows: seq<RecipeRow>, row: RecipeRow)
    requires Tables.KeysUnique(rows, RecipeKey) && TitlesUnique(rows) && TitleIsFree(rows, row)
    ensures TitlesUnique(Tables.Upsert(rows, row, RecipeKey))
  {
    var r := Tables.Upsert(rows, row, RecipeKey);
    Tables.UpsertSingleRow(rows, row, RecipeKey);
    forall a, b | a in r && b in r && a.title == b.title ensures a.id == b.id {
      assert a == row || a in rows;
      assert b == row || b in rows;
    }
  }

  class RecipeRepository {
    const db: Database

    constructor(db: Database)
      ensures this.db == db
    {
      this.db := db;
    }

    /**
     * `queryAll`: every recipe, newest `updatedAt` first. The inner join on
     * the category drops nothing, since every stored recipe has one.
     */
    function QueryAll(): (r: seq<RecipeRow>)
      reads db
      ensures Ordering.SortedDesc(r, UpdatedAt)
      ensures multiset(r) == multiset(db.recipes)
    {
      Ordering.SortDesc(db.recipes, UpdatedAt)
    }

    /**
     * `queryAllByAuthor`: `queryAll` with an extra WHERE on the author; the
     * result is exactly the author's recipes of `queryAll`, in its order.
     */
    function QueryAllByAuthor(user: Users.User): (r: Result<seq<RecipeRow>, QueryFailure>)
      reads db, user
      ensures r.Failure? <==> user.id.None?
      ensures r.Failure? ==> r.error == UnidentifiedEntity("author")
      ensures r.Success? ==> r.value == Ordering.Filter(QueryAll(), AuthoredBy(user.id.value))
      ensures r.Success? ==> forall row | row in r.value :: row in db.recipes && row.authorId == user.id
      ensures r.Success? ==> forall row | row in db.recipes && row.authorId == user.id :: row in r.value
    {
      if user.id.None? then Failure(UnidentifiedEntity("author"))
      else
        var p := AuthoredBy(user.id.value);
        Ordering.FilterSortCommute(db.recipes, UpdatedAt, p);
        Ordering.SortedSelectionMembers(db.recipes, UpdatedAt, p);
        Success(Ordering.SortDesc(Ordering.Filter(db.recipes, p), UpdatedAt))
    }

    /**
     * `countByCategory`: COUNT(DISTINCT recipe.id) of the recipes in
     * `category`. A category without an id cannot be bound, and the query
     * is refused.
     */
    function CountByCategory(category: Entities.Category): (r: Result<nat, QueryFailure>)
      reads db, category
      ensures r.Failure? <==> category.id.None?
      ensures r.Failure? ==> r.error == UnidentifiedEntity("category")
      ensures r.Success? ==> (r.value == 0 <==> forall row | row in db.recipes :: row.categoryId != category.id.value)
    {
      if category.id.None? then Failure(UnidentifiedEntity("category"))
      else
        Tables.CountDistinctZero(db.recipes, InCategory(category.id.value), RecipeKey);
        Success(Tables.CountDistinct(db.recipes, InCategory(category.id.value), RecipeKey))
    }

    /** With unique keys, the distinct count is the number of matching rows. */
    lemma CountByCategoryIsRowCount(category: Entities.Category)
      requires db.Valid() && category.id.Some?
      ensures CountByCategory(category) == Success(|Ordering.Filter(db.recipes, InCategory(category.id.value))|)
    {
      Tables.CountDistinctIsFilterLength(db.recipes, InCategory(category.id.value), RecipeKey);
    }

    /** The primary key a flush gives `recipe`: its own, or the next identity value. */
    function KeyFor(recipe: Entities.Recipe): nat
      reads db, recipe
    {
      if recipe.id.Some? then recipe.id.value else db.nextRecipeId
    }

    /**
     * The row a flush writes for `recipe` under key `id`, or the error the
     * flush raises: a related entity that was never persisted (no
     * association cascades persist), a NULL in a NOT NULL column, or a join
     * column naming no stored row.
     */
    function RowFor(recipe: Entities.Recipe, id: nat): (r: Result<RecipeRow, PersistError>)
      reads db, recipe, recipe.category, recipe.author, recipe.tags, recipe.comments
      ensures r.Success? <==>
        && (forall t | t in recipe.tags :: t.id.Some?)
        && (forall c | c in recipe.comments :: c.id.Some?)
        && recipe.title.Some? && recipe.createdAt.Some? && recipe.updatedAt.Some?
        && recipe.category != null && recipe.category.id.Some?
        && recipe.category.id.value in Tables.Keys(db.categories, CategoryKey)
        && (recipe.author != null ==> recipe.author.id.Some? && recipe.author.id.value in Tables.Keys(db.users, UserKey))
      ensures r.Success? ==>
        && r.value.id == id
        && Some(r.value.title) == recipe.title
        && r.value.categoryId == recipe.category.id.value
        && r.value.authorId == (if recipe.author == null then None else recipe.author.id)
        && Some(r.value.createdAt) == recipe.createdAt
        && Some(r.value.updatedAt) == recipe.updatedAt
        && r.value.time == recipe.time && r.value.difficulty == recipe.difficulty
        && r.value.portion == recipe.portion && r.value.calories == recipe.calories
        && r.value.content == recipe.content
      ensures r.Success? ==> r.value.categoryId in Tables.Keys(db.categories, CategoryKey)
      ensures r.Success? ==> r.value.authorId.Some? ==> r.value.authorId.value in Tables.Keys(db.users, UserKey)
    {
      // Doctrine rejects unpersisted relations while computing the change
      // set, association by association, before any SQL reaches the database.
      if recipe.category != null && recipe.category.id.None? then Failure(NewEntityInRelation("category"))
      else if exists t | t in recipe.tags :: t.id.None? then Failure(NewEntityInRelation("tags"))
      else if exists c | c in recipe.comments :: c.id.None? then Failure(NewEntityInRelation("comments"))
      else if recipe.author != null && recipe.author.id.None? then Failure(NewEntityInRelation("author"))
      else if recipe.title.None? then Failure(NotNullViolation("title"))
      else if recipe.createdAt.None? then Failure(NotNullViolation("created_at"))
      else if recipe.updatedAt.None? then Failure(NotNullViolation("updated_at"))
      else if recipe.category == null then Failure(NotNullViolation("category_id"))
      else if recipe.category.id.value !in Tables.Keys(db.categories, CategoryKey) then
        Failure(ForeignKeyViolation("category_id"))
      else if recipe.author != null && recipe.author.id.value !in Tables.Keys(db.users, UserKey) then
        Failure(ForeignKeyViolation("author_id"))
      else
        Success(RecipeRow(
          id, recipe.title.value, recipe.category.id.value,
          if recipe.author == null then None else recipe.author.id,
          recipe.createdAt.value, recipe.updatedAt.value,
          recipe.time, recipe.difficulty, recipe.portion, recipe.calories, recipe.content))
    }

    /**
     * `save`: persist and flush. On success the recipe has a key, exactly one
     * row carries it, that row holds the recipe's fields, and no other row
     * changed. On failure nothing changed.
     */
    method Save(recipe: Entities.Recipe) returns (result: Outcome<PersistError>)
      requires db.Valid()
      modifies db, recipe`id
      ensures db.Valid()
      ensures db.categories == old(db.categories) && db.users == old(db.users)
      ensures old(RowFor(recipe, KeyFor(recipe))).Failure? ==>
        && result == Fail(old(RowFor(recipe, KeyFor(recipe))).error)
        && db.recipes == old(db.recipes) && recipe.id == old(recipe.id)
      ensures old(RowFor(recipe, KeyFor(recipe))).Success? ==>
        && result == Pass
        && recipe.id == Some(old(KeyFor(recipe)))
        && db.recipes == Tables.Upsert(old(db.recipes), old(RowFor(recipe, KeyFor(recipe))).value, RecipeKey)
        && Tables.Find(db.recipes, recipe.id.value, RecipeKey) == Some(old(RowFor(recipe, KeyFor(recipe))).value)
        && (forall row | row in db.recipes && row.id == recipe.id.value :: row == old(RowFor(recipe, KeyFor(recipe))).value)
        && (forall k | k != recipe.id.value :: Tables.Find(db.recipes, k, RecipeKey) == Tables.Find(old(db.recipes), k, RecipeKey))
    {
      var key := KeyFor(recipe);
      var row := RowFor(recipe, key);
      if row.Failure? {
        return Fail(row.error);
      }
      RecipeUpsertConsistent(db.recipes, db.categories, db.users, db.nextRecipeId, db.nextCategoryId, db.nextUserId, row.value);
      Tables.UpsertSingleRow(db.recipes, row.value, RecipeKey);
      Tables.FindAfterUpsert(db.recipes, row.value, RecipeKey);
      forall k | k != key
        ensures Tables.Find(Tables.Upsert(db.recipes, row.value, RecipeKey), k, RecipeKey) == Tables.Find(db.recipes, k, RecipeKey)
      {
        Tables.FindOtherAfterUpsert(db.recipes, row.value, k, RecipeKey);
      }
      db.recipes := Tables.Upsert(db.recipes, row.value, RecipeKey);
      db.nextRecipeId := NextAfter(db.nextRecipeId, key);
      recipe.id := Some(key);
      result := Pass;
    }

    /**
     * `delete`: remove and flush. A recipe that was never saved is ignored.
     * Otherwise its row is gone, every other row is as it was, and the
     * recipe's generated id is reset, so it counts as new again.
     */
    method Delete(recipe: Entities.Recipe)
      requires db.Valid()
      modifies db, recipe`id
      ensures db.Valid()
      ensures db.categories == old(db.categories) && db.users == old(db.users)
      ensures recipe.id == None
      ensures old(recipe.id).None? ==> db.recipes == old(db.recipes)
      ensures old(recipe.id).Some? ==>
        && db.recipes == Tables.RemoveKey(old(db.recipes), old(recipe.id).value, RecipeKey)
        && Tables.Find(db.recipes, old(recipe.id).value, RecipeKey) == None
        && (forall k | k != old(recipe.id).value :: Tables.Find(db.recipes, k, RecipeKey) == Tables.Find(old(db.recipes), k, RecipeKey))
    {
      if recipe.id.Some? {
        var key := recipe.id.value;
        forall k | k != key ensures Tables.Find(Tables.RemoveKey(db.recipes, key, RecipeKey), k, RecipeKey) == Tables.Find(db.recipes, k, RecipeKey) {
          Tables.FindOtherAfterRemove(db.recipes, key, k, RecipeKey);
        }
        RecipeRemoveConsistent(db.recipes, db.categories, db.users, db.nextRecipeId, db.nextCategoryId, db.nextUserId, key);
        db.recipes := Tables.RemoveKey(db.recipes, key, RecipeKey);
        recipe.id := None;
      }
    }
  }
}
