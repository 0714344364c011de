/**
 * CategoryService: the paginated listing, the deletion-safety rule, and
 * `save` / `delete` passed on to the category repository. Both repositories
 * work on the same database.
 */
module CategoryServices {
  import opened Wrappers
  import opened Store
  import Ordering
  import Pagination
  import Tables
  import Entities
  import CategoryRepositories
  import RecipeRepositories

  /** The two ways `getSingleScalarResult` can fail. */
  datatype QueryError = NoResult | NonUniqueResult

  /**
   * The verdict of `canBeDeleted` on the outcome of the count query: a
   * count of zero allows deletion; a positive count or a failed query
   * forbids it.
   */
  function DeletionVerdict(count: Result<nat, QueryError>): (ok: bool)
    ensures ok <==> count == Success(0)
  {
    match count
    case Success(n) => !(n > 0)
    case Failure(_) => false
  }

  class CategoryService {
    const categoryRepository: CategoryRepositories.CategoryRepository
    const recipeRepository: RecipeRepositories.RecipeRepository

    constructor(categoryRepository: CategoryRepositories.CategoryRepository,
                recipeRepository: RecipeRepositories.RecipeRepository)
      requires categoryRepository.db == recipeRepository.db
      ensures this.categoryRepository == categoryRepository
      ensures this.recipeRepository == recipeRepository
      ensures Wired()
    {
      this.categoryRepository := categoryRepository;
      this.recipeRepository := recipeRepository;
    }

    /** Both repositories read and write one database. */
    predicate Wired()
    {
      categoryRepository.db == recipeRepository.db
    }

    /**
     * `createPaginatedList`: the requested page of `queryAll`, ten
     * categories per page; the items are every category, newest update first.
     */
    function CreatePaginatedList(page: int): (p: Pagination.PageRequest<CategoryRow>)
      reads categoryRepository.db
      ensures p.page == page && p.perPage == 10
      ensures Ordering.SortedDesc(p.items, CategoryRepositories.UpdatedAt)
      ensures multiset(p.items) == multiset(categoryRepository.db.categories)
    {
      Pagination.PageRequest(categoryRepository.QueryAll(), page, CategoryRepositories.PAGINATOR_ITEMS_PER_PAGE)
    }

    /**
     * `canBeDeleted`: true exactly when no stored recipe is in `category`.
     * The exceptions of an empty or ambiguous result are caught and mean
     * false; the refusal to bind a category without an id is not caught and
     * reaches the caller. Being a function, it changes nothing.
     */
    function CanBeDeleted(category: Entities.Category): (r: Result<bool, RecipeRepositories.QueryFailure>)
      reads recipeRepository.db, category
      ensures r.Failure? <==> category.id.None?
      ensures r.Success? ==>
        (r.value <==> forall row | row in recipeRepository.db.recipes :: row.categoryId != category.id.value)
    {
      match recipeRepository.CountByCategory(category)
      case Success(n) => Success(DeletionVerdict(Success(n)))
      case Failure(e) => Failure(e)
    }

    /** `save`: the category repository's `save`. */
    method Save(category: Entities.Category) returns (result: Outcome<PersistError>)
      requires Wired() && categoryRepository.db.Valid()
      modifies categoryRepository.db, category`id
      ensures categoryRepository.db.Valid()
      ensures categoryRepository.db.recipes == old(categoryRepository.db.recipes)
      ensures categoryRepository.db.users == old(categoryRepository.db.users)
      ensures result.Pass? <==> old(categoryRepository.RowFor(category, categoryRepository.KeyFor(category))).Success?
      ensures result.Fail? ==>
        && result.error == old(categoryRepository.RowFor(category, categoryRepository.KeyFor(category))).error
        && categoryRepository.db.categories == old(categoryRepository.db.categories)
        && category.id == old(category.id)
      ensures result.Pass? ==>
        && category.id == Some(old(categoryRepository.KeyFor(category)))
        && categoryRepository.db.categories
           == Tables.Upsert(old(categoryRepository.db.categories),
                            old(categoryRepository.RowFor(category, categoryRepository.KeyFor(category))).value, CategoryKey)
        && Tables.Find(categoryRepository.db.categories, category.id.value, CategoryKey)
           == Some(old(categoryRepository.RowFor(category, categoryRepository.KeyFor(category))).value)
        && (forall k | k != category.id.value ::
              Tables.Find(categoryRepository.db.categories, k, CategoryKey) == Tables.Find(old(categoryRepository.db.categories), k, CategoryKey))
    {
      result := categoryRepository.Save(category);
    }

    /**
     * `delete`: the category repository's `delete`. For a saved category it
     * goes through exactly when `canBeDeleted` held beforehand; the row is
     * then gone, every other row is as it was, and the id is reset. An
     * unsaved category is ignored.
     */
    method Delete(category: Entities.Category) returns (result: Outcome<PersistError>)
      requires Wired() && categoryRepository.db.Valid()
      modifies categoryRepository.db, category`id
      ensures categoryRepository.db.Valid()
      ensures categoryRepository.db.recipes == old(categoryRepository.db.recipes)
      ensures categoryRepository.db.users == old(categoryRepository.db.users)
      ensures old(category.id).None? ==>
        result == Pass && categoryRepository.db.categories == old(categoryRepository.db.categories)
      ensures old(category.id).Some? ==> (result.Pass? <==> old(CanBeDeleted(category)) == Success(true))
      ensures result.Fail? ==>
        categoryRepository.db.categories == old(categoryRepository.db.categories) && category.id == old(category.id)
      ensures result.Pass? ==> category.id == None
      ensures result.Pass? && old(category.id).Some? ==>
        && categoryRepository.db.categories
           == Tables.RemoveKey(old(categoryRepository.db.categories), old(category.id).value, CategoryKey)
        && Tables.Find(categoryRepository.db.categories, old(category.id).value, CategoryKey) == None
        && (forall k | k != old(category.id).value ::
              Tables.Find(categoryRepository.db.categories, k, CategoryKey) == Tables.Find(old(categoryRepository.db.categories), k, CategoryKey))
    {
      result := categoryRepository.Delete(category);
    }
  }
}
