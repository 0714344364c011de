# KsiazkaKucharska (cookbook) core, modelled in Dafny

KsiazkaKucharska is a Symfony cookbook application. Users publish recipes. Each recipe belongs to a category, may carry tags and collects comments. This project models the part of the application that has logic of its own:

- **Entities** (`entities.dfy`). Recipe, Category, Tag and Comment are classes. Their collections are sequences of object references, updated in place. `addX` appends only when the element is absent. `removeX` removes the first occurrence, keeping the order of the rest. The owning side of a link is written back, as `addRecipe`, `addComment`, `removeRecipe` and `removeComment` do. Tag's methods call Recipe's `addTag`/`removeTag`, which do not call back. Dafny's termination check on methods covers that mutual call. Two-way link consistency (`CategoryLinks`, `CommentLinks`, `TagLinks`) is proved to be preserved for every set of objects.
- **Store** (`store.dfy`, `tables.dfy`). The database is one `Database` object with three tables: `recipes`, `category` and `user`. Each table is a sequence of rows keyed by an auto-increment id, and join columns hold ids. A flush is an upsert of the entity's snapshot. NOT NULL violations, relations to never-persisted entities and foreign-key violations are returned as errors that change nothing.
- **Repositories**. Queries are functions over the tables: ordering, author filter, COUNT(DISTINCT), and the role filters. `save`/`delete` are methods on the database. Ordering is a stable descending insertion sort (`ordering.dfy`).
- **Services**:
  - CategoryService: paging, the deletion-safety rule, save and delete.
  - UserService: password hashing and role reset on save.
  - RegistrationService.
- **CategoryVoter and the UserRole enum**: pure predicates and functions.

The password hasher and encoder are function-valued parameters of their services; nothing is known of them.

## Model

| member | source | states |
|---|---|---|
| Collections.Add | app/src/Entity/Recipe.php:214-219 | `contains`-guarded append: the element is present afterwards; nothing else is added; an already present element leaves the list unchanged; the old list is a prefix; no duplicates are created |
| Collections.RemoveElement | app/src/Entity/Recipe.php:226-231 | `removeElement`: an absent element leaves the list unchanged; otherwise exactly the first occurrence is cut out, the rest keeping their order; no other element is lost |
| Collections.RemoveFromSet | app/src/Entity/Category.php:159-170 | removing from a duplicate-free list leaves the element absent, the list duplicate-free and one shorter exactly when it was present |
| Collections.RemoveUndoesAdd | app/src/Entity/Recipe.php:214-231 | removing an element that was just added to a list not containing it gives back the original list |
| Entities.Category.SetCreatedAt | app/src/Entity/Category.php:74-79 | stores the timestamp and changes no other field |
| Entities.Category.SetUpdatedAt | app/src/Entity/Category.php:98-103 | stores the timestamp and changes no other field |
| Entities.Category.SetName | app/src/Entity/Category.php:120-123 | stores the name, changes no other field; the NotBlank rule on the name (Category.php line 33) then holds iff the name is non-empty |
| Entities.Category.AddRecipe | app/src/Entity/Category.php:142-150 | an absent recipe is appended and pointed at this category; a listed one changes nothing; link consistency is preserved when the recipe had no other category |
| Entities.Category.RemoveRecipe | app/src/Entity/Category.php:159-170 | the recipe is unlisted; its category is nulled only if it was listed and still points here; an absent recipe changes nothing; link consistency and no-duplicates are preserved |
| Entities.Tag.SetTitle | app/src/Entity/Tag.php:63-66 | stores the title and changes no other field |
| Entities.Tag.AddRecipe | app/src/Entity/Tag.php:83-89 | an absent recipe ends up in the tag's list and the tag in the recipe's tags; a listed recipe changes neither list; two-way Tag-Recipe consistency is preserved |
| Entities.Tag.RemoveRecipe | app/src/Entity/Tag.php:96-102 | a listed recipe leaves the tag's list and the tag leaves the recipe's tags; an absent recipe changes nothing; two-way consistency is preserved |
| Entities.Recipe.SetTitle | app/src/Entity/Recipe.php:106-109 | stores the title, changes no other field, `__toString` returns it, and the Length(3, 64) rule on the title (Recipe.php line 32) holds iff its length is in 3..64 |
| Entities.Recipe.SetAuthor | app/src/Entity/Recipe.php:128-133 | stores the author (possibly null) and changes no other field |
| Entities.Recipe.SetCategory | app/src/Entity/Recipe.php:152-157 | stores the category (possibly null) and changes no other field |
| Entities.Recipe.SetCreatedAt | app/src/Entity/Recipe.php:174-177 | stores the timestamp and changes no other field |
| Entities.Recipe.SetUpdatedAt | app/src/Entity/Recipe.php:194-197 | stores the timestamp and changes no other field |
| Entities.Recipe.SetTime | app/src/Entity/Recipe.php:304-309 | stores the value and changes no other field |
| Entities.Recipe.SetDifficulty | app/src/Entity/Recipe.php:327-332 | stores the value and changes no other field |
| Entities.Recipe.SetPortion | app/src/Entity/Recipe.php:351-356 | stores the value and changes no other field |
| Entities.Recipe.SetCalories | app/src/Entity/Recipe.php:375-380 | stores the value and changes no other field |
| Entities.Recipe.SetContent | app/src/Entity/Recipe.php:399-404 | stores the value and changes no other field |
| Entities.Recipe.AddTag | app/src/Entity/Recipe.php:214-219 | the tag is present afterwards, a present tag leaves the list unchanged, and only `tags` changes (the tag's side is not touched) |
| Entities.Recipe.RemoveTag | app/src/Entity/Recipe.php:226-231 | the first occurrence of the tag is removed, the others keep their order, an absent tag changes nothing, and only `tags` changes |
| Entities.Recipe.AddComment | app/src/Entity/Recipe.php:250-258 | an absent comment is appended and pointed at this recipe; a listed one changes neither `comments` nor `comment.recipe`; link consistency is preserved when the comment had no other recipe |
| Entities.Recipe.RemoveComment | app/src/Entity/Recipe.php:267-277 | the comment is unlisted; its recipe is nulled only if it was listed and still points here; an absent comment changes nothing; link consistency is preserved |
| Entities.Comment.SetCreatedAt | app/src/Entity/Comment.php:67-70 | stores the timestamp and changes no other field |
| Entities.Comment.SetUpdatedAt | app/src/Entity/Comment.php:87-90 | stores the timestamp and changes no other field |
| Entities.Comment.SetAuthor | app/src/Entity/Comment.php:109-112 | stores the author (null clears it), changes no other field; the required-links rule of the non-nullable join columns (Comment.php lines 29-35) then holds iff author and recipe are both set |
| Entities.Comment.SetRecipe | app/src/Entity/Comment.php:131-134 | stores the recipe (null clears it), changes no other field; the required-links rule of the non-nullable join columns (Comment.php lines 29-35) then holds iff author and recipe are both set |
| Entities.Comment.SetContent | app/src/Entity/Comment.php:153-156 | stores the content, changes no other field; the Length(3, 255) rule on the content (Comment.php line 39) holds iff its length is in 3..255 |
| UserRoles.TryFrom | app/src/Entity/Enum/UserRole.php:11-15 | a string maps to the case backed by exactly that string, and to none when no case is backed by it |
| UserRoles.ValueRoundTrip | app/src/Entity/Enum/UserRole.php:13-14 | each case is recovered from its backing value `'ROLE_USER'` / `'ROLE_ADMIN'` |
| UserRoles.ValueAndLabelInjective | app/src/Entity/Enum/UserRole.php:13-29 | distinct cases have distinct backing values and distinct labels |
| UserRoles.Labels | app/src/Entity/Enum/UserRole.php:23-29 | `label()` is `'label.role_user'` for ROLE_USER and `'label.role_admin'` for ROLE_ADMIN |
| Ordering.SortDesc | app/src/Repository/RecipeRepository.php:63 | `ORDER BY … DESC`: the result is sorted by the key, descending, and is a permutation of the input |
| Ordering.FilterSortCommute | app/src/Repository/RecipeRepository.php:73-81 | filtering the sorted rows gives the same sequence as sorting the filtered rows |
| Ordering.FilterSplit | app/src/Repository/UserRepository.php:100-121 | filtering by a condition and by its negation splits a sequence: the two results together are a permutation of it |
| Tables.Upsert | app/src/Repository/RecipeRepository.php:112-116 | a flush writes the row: it is present; the keys are the old keys plus its key; rows with other keys are kept; nothing else is added; key uniqueness is preserved |
| Tables.RemoveKey | app/src/Repository/RecipeRepository.php:126-130 | a delete drops the key; rows with other keys are kept; nothing is added; key uniqueness is preserved |
| Tables.UpsertSingleRow | app/src/Repository/RecipeRepository.php:112-116 | after a write under unique keys, the written row is the only one with its key: no second copy |
| Tables.CountDistinctZero | app/src/Repository/RecipeRepository.php:97-101 | COUNT(DISTINCT id) over the matching rows is zero iff no row matches |
| Tables.CountDistinctIsFilterLength | app/src/Repository/RecipeRepository.php:97-101 | under unique keys, COUNT(DISTINCT id) equals the number of matching rows |
| RecipeRepositories.ValidatedSaveKeepsTitlesUnique | app/src/Entity/Recipe.php:22 | writing a recipe that passes UniqueEntity(title) keeps titles unique across the table |
| RecipeRepositories.RecipeRepository.QueryAll | app/src/Repository/RecipeRepository.php:53-64 | every stored recipe, each as often as in the table, sorted by `updatedAt` descending |
| RecipeRepositories.RecipeRepository.QueryAllByAuthor | app/src/Repository/RecipeRepository.php:73-81 | exactly the rows of `queryAll` whose author is the user, in the same order; only that author's recipes and all of them; a user without an id cannot be bound as a parameter and the query fails |
| RecipeRepositories.RecipeRepository.CountByCategory | app/src/Repository/RecipeRepository.php:93-102 | a category without an id cannot be bound and the query fails; otherwise the count is zero iff no stored recipe is in the category |
| RecipeRepositories.RecipeRepository.CountByCategoryIsRowCount | app/src/Repository/RecipeRepository.php:93-102 | for a saved category the count equals the number of recipe rows in the category |
| RecipeRepositories.RecipeRepository.RowFor | app/src/Entity/Recipe.php:25-70 | the flushed row carries the key and every mapped field: title, category id, author id, both timestamps, time, difficulty, portion, calories and content; its category and author reference stored rows; a flush succeeds iff title, both timestamps and a persisted, stored category are set, any author is persisted and stored, and no tag or comment is new |
| RecipeRepositories.RecipeRepository.Save | app/src/Repository/RecipeRepository.php:112-116 | on a refused flush nothing changes and the error is reported; otherwise the recipe gets its key, the row is the only one with that key and holds its fields, other rows and tables are unchanged, and the schema constraints still hold |
| RecipeRepositories.RecipeRepository.Delete | app/src/Repository/RecipeRepository.php:126-130 | an unsaved recipe changes nothing; otherwise its row is gone, every other row is unchanged, and the recipe's generated id is reset to null |
| CategoryRepositories.CategoryRepository.QueryAll | app/src/Repository/CategoryRepository.php:46-50 | every stored category, each as often as in the table, sorted by `updatedAt` descending |
| CategoryRepositories.CategoryRepository.RowFor | app/src/Entity/Category.php:21-34 | a flush succeeds iff no recipe in its collection is new and name and both timestamps are set, and the row then holds exactly those values under the key |
| CategoryRepositories.CategoryRepository.Save | app/src/Repository/CategoryRepository.php:60-64 | on a refused flush nothing changes; otherwise the category gets its key, its row is the only one with that key, and other rows are unchanged |
| CategoryRepositories.CategoryRepository.Delete | app/src/Repository/CategoryRepository.php:74-78 | an unsaved category changes nothing; one that a recipe references is refused by the foreign key with nothing changed; otherwise its row is gone, every other row is unchanged, and its generated id is reset to null |
| CategoryServices.DeletionVerdict | app/src/Service/CategoryService.php:94-105 | deletion is allowed iff the count query succeeded with zero; a positive count or a failed query (NoResult, NonUniqueResult) forbids it |
| CategoryServices.CategoryService.CreatePaginatedList | app/src/Service/CategoryService.php:64-71 | the requested page, ten per page, over every category sorted by `updatedAt` descending |
| CategoryServices.CategoryService.CanBeDeleted | app/src/Service/CategoryService.php:94-105 | fails, as the count query does, for a category without an id; otherwise true iff no stored recipe references the category; being a function it modifies nothing |
| CategoryServices.CategoryService.Save | app/src/Service/CategoryService.php:113-116 | succeeds iff the category's flush is valid; a refusal reports the flush's error and changes nothing; on success the category gets its key, the table is the old one with that row written, and every other category row is unchanged |
| CategoryServices.CategoryService.Delete | app/src/Service/CategoryService.php:123-126 | a category without an id is ignored; a saved one goes through iff `canBeDeleted` returned true beforehand, and then its row is removed, every other row is unchanged and its id is reset to null; otherwise nothing changes |
| UserRepositories.UserRepository.QueryAll | app/src/Repository/UserRepository.php:100-106 | exactly the users without ROLE_SUPER_ADMIN, every one of them, highest id first |
| UserRepositories.UserRepository.QueryByRole | app/src/Repository/UserRepository.php:115-121 | exactly the users whose roles contain the role, every one of them, highest id first |
| UserRepositories.UserRepository.QueryAllAndSuperAdminsPartition | app/src/Repository/UserRepository.php:100-121 | `queryAll` and `queryByRole('ROLE_SUPER_ADMIN')` together hold every user row exactly as often as the table does |
| UserRepositories.UserRepository.Save | app/src/Repository/UserRepository.php:54-61 | with a flush the user gets its key and its row (email, password, roles) is the only one with it, other rows unchanged; without a flush the table is unchanged; the user's fields other than the id are untouched |
| UserRepositories.UserRepository.UpgradePassword | app/src/Repository/UserRepository.php:84-93 | a non-User principal is refused with the UnsupportedUserException message and nothing changes; a User gets the new hash as password, email and roles untouched, and is stored |
| UserServices.UserService.CreatePaginationList | app/src/Service/UserService.php:69-76 | the requested page, ten per page, over exactly the non-super-admin users, highest id first |
| UserServices.UserService.Save | app/src/Service/UserService.php:84-97 | the password becomes the hasher's result for the plain password, the roles become exactly ROLE_USER (never ROLE_ADMIN) whatever they were, the email is untouched, and the user table is the old one with the user's row written under its key |
| RegistrationServices.RegistrationService.Save | app/src/Service/RegistrationService.php:48-51 | stores the user under its key without changing any field but the generated id; the user table is the old one with that row written, and the recipe and category tables are unchanged |
| RegistrationServices.RegistrationService.Register | app/src/Service/RegistrationService.php:60-69 | the email comes from the data, the password is the encoder's result for the submitted password, the roles are exactly ROLE_USER, that row is written under the user's key with every other user row unchanged, and the recipe and category tables are unchanged |
| CategoryVoters.VoteOnAttribute | app/src/Security/Voter/CategoryVoter.php:79-121 | EDIT, DELETE and CREATE are each granted iff the principal has ROLE_ADMIN; any other attribute is refused |
| CategoryVoters.Decide | app/src/Security/Voter/CategoryVoter.php:63-91 | the voter abstains iff `supports` fails (attribute not one of the three, or subject not a Category); otherwise it grants iff the principal has ROLE_ADMIN |
| CategoryVoters.VoteIgnoresSubject | app/src/Security/Voter/CategoryVoter.php:79-91 | the vote does not depend on the subject |
| CategoryVoters.NonAdminNeverGranted | app/src/Security/Voter/CategoryVoter.php:79-121 | a principal without ROLE_ADMIN is granted nothing |

## Left out

- Controllers, form types, fixtures and tests: HTTP routing, form configuration, random fixture data.
- RecipeService, CommentService, TagService, ReportService and the service interfaces: they only delegate.
- `CategoryService::findOneById`: a lookup delegated to Doctrine.
- Getters: the model reads fields directly. The constructors model the initial empty collections.
- The comment and tag tables are not modelled. A tag or comment that has an id is taken to be stored; no foreign key is checked for them. Comment rows, ON DELETE behaviour and orphan removal of comments are missing, and so is the `recipes_tags` join table. Only the in-memory sides of those links are modelled.
- The unit of work: a flush writes only the entity passed to `save`, not every managed entity. A managed/detached state is not tracked.
- UserRepositories.UserRepository.Save: `persist` without flush only stages the user. The model leaves the table unchanged and does not carry the staged user to a later flush.
- `UserRepository::remove`: its default is `flush = false`, which only stages the removal. It is not modelled.
- User entity: modelled only as far as the repositories and services touch it, that is the generated id, email, password and roles. A user's save always succeeds, since no column constraint on those fields is modelled.
- RecipeRepositories.RecipeRepository.QueryAll: returns whole rows. The partial select (author not hydrated) and the tag join are not modelled.
- The ordering is a stable sort: rows with equal keys keep table order, where SQL leaves that order unspecified.
- UserRepositories.HasRole: LIKE `'%"ROLE"%'` over the JSON roles column is modelled as exact membership. In MySQL the match is case-insensitive and `_` in a role name is a wildcard.
- CategoryVoters.IsGranted: the role hierarchy is not modelled. `grantedRoles` stands for the roles the security layer already reports.
- Pagination: only the page request (items, page number, page size) is modelled, not the slicing.
- Column length limits (`length: 255`, `125`) and Doctrine's type conversions are not modelled.
- Timestamps are naturals. The clock that sets them lives in the controllers and is not modelled.
- Hashing and encoding are opaque parameters. UserServices.UserService.Save states that the stored password is the hasher's output. It cannot state that this differs from the plain password, since nothing is known of the hasher.
- RegistrationServices.RegistrationService.Register: the submitted data is assumed to hold both `email` and `password`. PHP would fail with a type error on a missing key, and that failure is not modelled.
- Entities.Category.AddRecipe: the recipe's former category is not told. The link-consistency guarantee therefore assumes the recipe had no other category, and so does Entities.Recipe.AddComment's.
- PHP's uninitialized typed properties (`Recipe::$author`, `Comment::$createdAt`, `Comment::$updatedAt`) are modelled as null, which is what Doctrine reads for them.
