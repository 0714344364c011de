/**
 * UserRepository: the two listing queries over the `user` table, and
 * `save` / `upgradePassword`, which write a user's row.
 */
module UserRepositories {
  import opened Wrappers
  import opened Store
  import Tables
  import Ordering
  import Users

  /** Items per page. */
  const PAGINATOR_ITEMS_PER_PAGE: nat := 10

  /** The role `queryAll` hides. */
  const SUPER_ADMIN_ROLE: string := "ROLE_SUPER_ADMIN"

  /** The ORDER BY key of both queries. */
  function UserId(row: UserRow): int { row.id }

  /** `user.roles LIKE '%"<role>"%'`: the roles list names `role`. */
  function HasRole(role: string): UserRow -> bool
  {
    (row: UserRow) => role in row.roles
  }

  /** `user.roles NOT LIKE '%"ROLE_SUPER_ADMIN"%'`. */
  function NotSuperAdmin(row: UserRow): bool
  {
    SUPER_ADMIN_ROLE !in row.roles
  }

  /** The row a flush writes for `user` under key `id`. */
  function RowOf(user: Users.User, id: nat): UserRow
    reads user
  {
    UserRow(id, user.email, user.password, user.roles)
  }

  /** Who `upgradePassword` may be handed: a `User`, or some other authenticated class. */
  datatype Principal = AppUser(user: Users.User) | OtherPrincipal(className: string)

  /** The UnsupportedUserException message for a principal of class `className`. */
  function UnsupportedMessage(className: string): string
  {
    "Instances of \"" + className + "\" are not supported."
  }

  class UserRepository {
    const db: Database

    constructor(db: Database)
      ensures this.db == db
    {
      this.db := db;
    }

    /**
     * `queryAll`: every user whose roles do not include ROLE_SUPER_ADMIN,
     * highest id first.
     */
    function QueryAll(): (r: seq<UserRow>)
      reads db
      ensures Ordering.SortedDesc(r, UserId)
      ensures forall row | row in r :: row in db.users && SUPER_ADMIN_ROLE !in row.roles
      ensures forall row | row in db.users && SUPER_ADMIN_ROLE !in row.roles :: row in r
      ensures multiset(r) == multiset(Ordering.Filter(db.users, NotSuperAdmin))
    {
      Ordering.SortedSelectionMembers(db.users, UserId, NotSuperAdmin);
      Ordering.SortDesc(Ordering.Filter(db.users, NotSuperAdmin), UserId)
    }

    /** `queryByRole`: every user whose roles include `role`, highest id first. */
    function QueryByRole(role: string): (r: seq<UserRow>)
      reads db
      ensures Ordering.SortedDesc(r, UserId)
      ensures forall row | row in r :: row in db.users && role in row.roles
      ensures forall row | row in db.users && role in row.roles :: row in r
      ensures multiset(r) == multiset(Ordering.Filter(db.users, HasRole(role)))
    {
      Ordering.SortedSelectionMembers(db.users, UserId, HasRole(role));
      Ordering.SortDesc(Ordering.Filter(db.users, HasRole(role)), UserId)
    }

    /**
     * `queryAll` and `queryByRole('ROLE_SUPER_ADMIN')` split the user table
     * between them: together they hold every row exactly as often as the
     * table does.
     */
    lemma QueryAllAndSuperAdminsPartition()
      ensures multiset(QueryAll()) + multiset(QueryByRole(SUPER_ADMIN_ROLE)) == multiset(db.users)
      ensures |QueryAll()| + |QueryByRole(SUPER_ADMIN_ROLE)| == |db.users|
    {
      Ordering.FilterSplit(db.users, NotSuperAdmin, HasRole(SUPER_ADMIN_ROLE));
    }

    /** The primary key a flush gives `user`: its own, or the next identity value. */
    function KeyFor(user: Users.User): nat
      reads db, user
    {
      if user.id.Some? then user.id.value else db.nextUserId
    }

    /**
     * `save`: persist, and flush when asked to. After a flush the user has
     * a key and exactly one row carries it, holding the user's fields; no
     * other row changed. Without a flush the table is as it was.
     */
    method Save(user: Users.User, flush: bool)
      requires db.Valid()
      modifies db, user`id
      ensures db.Valid()
      ensures db.recipes == old(db.recipes) && db.categories == old(db.categories)
      ensures user.email == old(user.email) && user.password == old(user.password) && user.roles == old(user.roles)
      ensures !flush ==> db.users == old(db.users) && user.id == old(user.id)
      ensures flush ==>
        && user.id == Some(old(KeyFor(user)))
        && db.users == Tables.Upsert(old(db.users), RowOf(user, user.id.value), UserKey)
        && Tables.Find(db.users, user.id.value, UserKey) == Some(RowOf(user, user.id.value))
        && (forall row | row in db.users && row.id == user.id.value :: row == RowOf(user, user.id.value))
        && (forall k | k != user.id.value :: Tables.Find(db.users, k, UserKey) == Tables.Find(old(db.users), k, UserKey))
    {
      if flush {
        var key := KeyFor(user);
        var row := RowOf(user, key);
        UserUpsertConsistent(db.recipes, db.categories, db.users, db.nextRecipeId, db.nextCategoryId, db.nextUserId, row);
        Tables.UpsertSingleRow(db.users, row, UserKey);
        Tables.FindAfterUpsert(db.users, row, UserKey);
        forall k | k != key
          ensures Tables.Find(Tables.Upsert(db.users, row, UserKey), k, UserKey) == Tables.Find(db.users, k, UserKey)
        {
          Tables.FindOtherAfterUpsert(db.users, row, k, UserKey);
        }
        db.users := Tables.Upsert(db.users, row, UserKey);
        db.nextUserId := NextAfter(db.nextUserId, key);
        user.id := Some(key);
      }
    }

    /**
     * `upgradePassword`: a `User` gets the new hash as its password and is
     * saved with a flush; any other principal is refused with
     * UnsupportedUserException and nothing changes.
     */
    method UpgradePassword(principal: Principal, newHashedPassword: string) returns (result: Outcome<string>)
      requires db.Valid()
      modifies db, if principal.AppUser? then {principal.user} else {}
      ensures db.Valid()
      ensures db.recipes == old(db.recipes) && db.categories == old(db.categories)
      ensures principal.OtherPrincipal? ==>
        result == Fail(UnsupportedMessage(principal.className)) && db.users == old(db.users)
      ensures principal.AppUser? ==>
        && result == Pass
        && principal.user.password == Some(newHashedPassword)
        && principal.user.email == old(principal.user.email)
        && principal.user.roles == old(principal.user.roles)
        && principal.user.id == Some(old(KeyFor(principal.user)))
        && Tables.Find(db.users, principal.user.id.value, UserKey) == Some(RowOf(principal.user, principal.user.id.value))
        && (forall k | k != principal.user.id.value :: Tables.Find(db.users, k, UserKey) == Tables.Find(old(db.users), k, UserKey))
    {
      if principal.OtherPrincipal? {
        return Fail(UnsupportedMessage(principal.className));
      }
      var user := principal.user;
      user.SetPassword(newHashedPassword);
      Save(user, true);
      result := Pass;
    }
  }
}
