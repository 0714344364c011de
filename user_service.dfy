/**
 * UserService: the paginated user listing and `save`, which hashes the
 * given plain password, resets the roles and stores the user. The password
 * hasher is a parameter of the service: the model knows nothing about it
 * beyond its being a function of the user and the plain password.
 */
module UserServices {
  import opened Wrappers
  import opened Store
  import Tables
  import Ordering
  import Pagination
  import UserRoles
  import Users
  import UserRepositories

  class UserService {
    const userRepository: UserRepositories.UserRepository
    /** UserPasswordHasherInterface::hashPassword. */
    const hashPassword: (Users.User, string) -> string

    constructor(userRepository: UserRepositories.UserRepository, hashPassword: (Users.User, string) -> string)
      ensures this.userRepository == userRepository && this.hashPassword == hashPassword
    {
      this.userRepository := userRepository;
      this.hashPassword := hashPassword;
    }

    /**
     * `createPaginationList`: the requested page of the repository's
     * `queryAll`, ten users per page; no super-admin is listed.
     */
    function CreatePaginationList(page: int): (p: Pagination.PageRequest<UserRow>)
      reads userRepository.db
      ensures p.page == page && p.perPage == 10
      ensures Ordering.SortedDesc(p.items, UserRepositories.UserId)
      ensures forall row | row in p.items :: row in userRepository.db.users && UserRepositories.SUPER_ADMIN_ROLE !in row.roles
      ensures forall row | row in userRepository.db.users && UserRepositories.SUPER_ADMIN_ROLE !in row.roles :: row in p.items
    {
      Pagination.PageRequest(userRepository.QueryAll(), page, UserRepositories.PAGINATOR_ITEMS_PER_PAGE)
    }

    /**
     * `save`: the password becomes the hash of `password`, the roles become
     * exactly ROLE_USER whatever they were, and the user is stored with a
     * flush under its key.
     */
    method Save(user: Users.User, password: string)
      requires userRepository.db.Valid()
      modifies userRepository.db, user`password, user`roles, user`id
      ensures userRepository.db.Valid()
      ensures user.password == Some(hashPassword(user, password))
      ensures user.roles == [UserRoles.Value(UserRoles.RoleUser)]
      ensures UserRoles.Value(UserRoles.RoleAdmin) !in user.roles
      ensures user.email == old(user.email)
      ensures user.id == Some(old(userRepository.KeyFor(user)))
      ensures Tables.Find(userRepository.db.users, user.id.value, UserKey) == Some(UserRepositories.RowOf(user, user.id.value))
      ensures userRepository.db.users
           == Tables.Upsert(old(userRepository.db.users), UserRepositories.RowOf(user, user.id.value), UserKey)
      ensures forall k | k != user.id.value ::
        Tables.Find(userRepository.db.users, k, UserKey) == Tables.Find(old(userRepository.db.users), k, UserKey)
      ensures userRepository.db.recipes == old(userRepository.db.recipes)
      ensures userRepository.db.categories == old(userRepository.db.categories)
    {
      user.SetPassword(hashPassword(user, password));
      user.SetRoles(["ROLE_USER"]);
      userRepository.Save(user, true);
    }
  }
}
