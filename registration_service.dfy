/**
 * RegistrationService: `register` fills in a new user's email, encoded
 * password and roles from the submitted form data and stores the user;
 * `save` stores a user as it is. The password encoder is a parameter of
 * the service.
 */
module RegistrationServices {
  import opened Wrappers
  import opened Store
  import Tables
  import UserRoles
  import Users
  import UserRepositories

  class RegistrationService {
    const userRepository: UserRepositories.UserRepository
    /** UserPasswordEncoderInterface::encodePassword. */
    const encodePassword: (Users.User, string) -> string

    constructor(userRepository: UserRepositories.UserRepository, encodePassword: (Users.User, string) -> string)
      ensures this.userRepository == userRepository && this.encodePassword == encodePassword
    {
      this.userRepository := userRepository;
      this.encodePassword := encodePassword;
    }

    /**
     * `save`: the repository's `save` with its default flush. Only the
     * generated id is written on the user; the stored row holds its fields.
     */
    method Save(user: Users.User)
      requires userRepository.db.Valid()
      modifies userRepository.db, user`id
      ensures userRepository.db.Valid()
      ensures user.email == old(user.email) && user.password == old(user.password) && user.roles == old(user.roles)
      ensures old(user.id).Some? ==> user.id == old(user.id)
      ensures user.id == Some(old(userRepository.KeyFor(user)))
      ensures Tables.Find(userRepository.db.users, user.id.value, UserKey) == Some(UserRepositories.RowOf(user, user.id.value))
      ensures userRepository.db.users
           == Tables.Upsert(old(userRepository.db.users), UserRepositories.RowOf(user, user.id.value), UserKey)
      ensures forall k | k != user.id.value ::
        Tables.Find(userRepository.db.users, k, UserKey) == Tables.Find(old(userRepository.db.users), k, UserKey)
      ensures userRepository.db.recipes == old(userRepository.db.recipes)
      ensures userRepository.db.categories == old(userRepository.db.categories)
    {
      userRepository.Save(user, true);
    }

    /**
     * `register`: the email and the encoded password come from `data`, the
     * roles become exactly ROLE_USER, and the user is stored under its key.
     * The form always submits both fields.
     */
    method Register(data: map<string, string>, user: Users.User)
      requires "email" in data && "password" in data
      requires userRepository.db.Valid()
      modifies userRepository.db, user`email, user`password, user`roles, user`id
      ensures userRepository.db.Valid()
      ensures user.email == Some(data["email"])
      ensures user.password == Some(encodePassword(user, data["password"]))
      ensures user.roles == [UserRoles.Value(UserRoles.RoleUser)]
      ensures user.id == Some(old(userRepository.KeyFor(user)))
      ensures Tables.Find(userRepository.db.users, user.id.value, UserKey)
           == Some(UserRow(user.id.value, Some(data["email"]), Some(encodePassword(user, data["password"])), ["ROLE_USER"]))
      ensures userRepository.db.users
           == Tables.Upsert(old(userRepository.db.users), UserRepositories.RowOf(user, user.id.value), UserKey)
      ensures forall k | k != user.id.value ::
        Tables.Find(userRepository.db.users, k, UserKey) == Tables.Find(old(userRepository.db.users), k, UserKey)
      ensures userRepository.db.recipes == old(userRepository.db.recipes)
      ensures userRepository.db.categories == old(userRepository.db.categories)
    {
      user.SetEmail(data["email"]);
      user.SetPassword(encodePassword(user, data["password"]));
      user.SetRoles(["ROLE_USER"]);
      userRepository.Save(user, true);
    }
  }
}
