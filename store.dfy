/**
 * The relational store behind the repositories: one table per entity, each
 * a sequence of the rows a flush wrote, with an auto-increment counter.
 * Rows hold the primary keys of related entities, as the join columns do.
 */
module Store {
  import opened Wrappers
  import Tables
  import Entities

  type Timestamp = Entities.Timestamp

  /** A row of `recipes`; the NOT NULL columns are plain values. */
  datatype RecipeRow = RecipeRow(
    id: nat,
    title: string,
    categoryId: nat,
    authorId: Option<nat>,
    createdAt: Timestamp,
    updatedAt: Timestamp,
    time: Option<Timestamp>,
    difficulty: Option<string>,
    portion: Option<int>,
    calories: Option<int>,
    content: Option<string>)

  /** A row of `category`. */
  datatype CategoryRow = CategoryRow(id: nat, name: string, createdAt: Timestamp, updatedAt: Timestamp)

  /** A row of `user`; the roles column holds the list of role names. */
  datatype UserRow = UserRow(id: nat, email: Option<string>, password: Option<string>, roles: seq<string>)

  function RecipeKey(row: RecipeRow): nat { row.id }
  function CategoryKey(row: CategoryRow): nat { row.id }
  function UserKey(row: UserRow): nat { row.id }

  /** Why a flush is refused. */
  datatype PersistError =
    | NotNullViolation(column: string)
      /** Doctrine refuses a relation to an entity that was never persisted. */
    | NewEntityInRelation(field: string)
    | ForeignKeyViolation(column: string)

  /**
   * The schema's constraints: primary keys are unique and below their
   * identity counters, and every join column references a stored row.
   */
  ghost predicate Consistent(
    recipes: seq<RecipeRow>, categories: seq<CategoryRow>, users: seq<UserRow>,
    nextRecipeId: nat, nextCategoryId: nat, nextUserId: nat)
  {
    && Tables.KeysUnique(recipes, RecipeKey)
    && Tables.KeysUnique(categories, CategoryKey)
    && Tables.KeysUnique(users, UserKey)
    && (forall k | k in Tables.Keys(recipes, RecipeKey) :: k < nextRecipeId)
    && (forall k | k in Tables.Keys(categories, CategoryKey) :: k < nextCategoryId)
    && (forall k | k in Tables.Keys(users, UserKey) :: k < nextUserId)
    && (forall row | row in recipes :: row.categoryId in Tables.Keys(categories, CategoryKey))
    && (forall row | row in recipes && row.authorId.Some? :: row.authorId.value in Tables.Keys(users, UserKey))
  }

  /** The identity counter after a row with key `k` is written. */
  function NextAfter(next: nat, k: nat): (n: nat)
    ensures n > k && n >= next
  {
    if k < next then next else k + 1
  }

  /** Writing a recipe row whose join columns reference stored rows keeps the schema consistent. */
  lemma RecipeUpsertConsistent(
    recipes: seq<RecipeRow>, categories: seq<CategoryRow>, users: seq<UserRow>,
    nR: nat, nC: nat, nU: nat, row: RecipeRow)
    requires Consistent(recipes, categories, users, nR, nC, nU)
    requires row.categoryId in Tables.Keys(categories, CategoryKey)
    requires row.authorId.Some? ==> row.authorId.value in Tables.Keys(users, UserKey)
    ensures Consistent(Tables.Upsert(recipes, row, RecipeKey), categories, users, NextAfter(nR, row.id), nC, nU)
  {
  }

  /** Deleting a recipe row keeps the schema consistent: nothing references recipes. */
  lemma RecipeRemoveConsistent(
    recipes: seq<RecipeRow>, categories: seq<CategoryRow>, users: seq<UserRow>,
    nR: nat, nC: nat, nU: nat, k: nat)
    requires Consistent(recipes, categories, users, nR, nC, nU)
    ensures Consistent(Tables.RemoveKey(recipes, k, RecipeKey), categories, users, nR, nC, nU)
  {
  }

  /** Writing a category row keeps the schema consistent: existing keys stay. */
  lemma CategoryUpsertConsistent(
    recipes: seq<RecipeRow>, categories: seq<CategoryRow>, users: seq<UserRow>,
    nR: nat, nC: nat, nU: nat, row: CategoryRow)
    requires Consistent(recipes, categories, users, nR, nC, nU)
    ensures Consistent(recipes, Tables.Upsert(categories, row, CategoryKey), users, nR, NextAfter(nC, row.id), nU)
  {
  }

  /** Deleting a category no recipe references keeps the schema consistent. */
  lemma CategoryRemoveConsistent(
    recipes: seq<RecipeRow>, categories: seq<CategoryRow>, users: seq<UserRow>,
    nR: nat, nC: nat, nU: nat, k: nat)
    requires Consistent(recipes, categories, users, nR, nC, nU)
    requires forall row | row in recipes :: row.categoryId != k
    ensures Consistent(recipes, Tables.RemoveKey(categories, k, CategoryKey), users, nR, nC, nU)
  {
    Tables.RemoveKeyKeys(categories, k, CategoryKey);
  }

  /** Writing a user row keeps the schema consistent. */
  lemma UserUpsertConsistent(
    recipes: seq<RecipeRow>, categories: seq<CategoryRow>, users: seq<UserRow>,
    nR: nat, nC: nat, nU: nat, row: UserRow)
    requires Consistent(recipes, categories, users, nR, nC, nU)
    ensures Consistent(recipes, categories, Tables.Upsert(users, row, UserKey), nR, nC, NextAfter(nU, row.id))
  {
  }

  class Database {
    var recipes: seq<RecipeRow>
    var categories: seq<CategoryRow>
    var users: seq<UserRow>
    var nextRecipeId: nat
    var nextCategoryId: nat
    var nextUserId: nat

    ghost predicate Valid()
      reads this
    {
      Consistent(recipes, categories, users, nextRecipeId, nextCategoryId, nextUserId)
    }

    /** An empty schema; identity columns start at 1. */
    constructor()
      ensures Valid()
      ensures recipes == [] && categories == [] && users == []
    {
      recipes, categories, users := [], [], [];
      nextRecipeId, nextCategoryId, nextUserId := 1, 1, 1;
    }
  }
}
