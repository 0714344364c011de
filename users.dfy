/**
 * The user entity, modelled only as far as the repositories and services
 * touch it: the generated id and the email, password and roles fields the
 * services write.
 */
module Users {
  import opened Wrappers

  class User {
    /** Primary key; `None` until the user is first flushed. */
    var id: Option<nat>
    var email: Option<string>
    /** The stored (hashed) password. */
    var password: Option<string>
    /** The JSON roles column, as a list of role names. */
    var roles: seq<string>

    constructor()
      ensures id == None && email == None && password == None && roles == []
    {
      id := None;
      email := None;
      password := None;
      roles := [];
    }

    method SetEmail(email: string)
      modifies this`email
      ensures this.email == Some(email)
    {
      this.email := Some(email);
    }

    method SetPassword(password: string)
      modifies this`password
      ensures this.password == Some(password)
    {
      this.password := Some(password);
    }

    method SetRoles(roles: seq<string>)
      modifies this`roles
      ensures this.roles == roles
    {
      this.roles := roles;
    }
  }
}
