/**
 * CategoryVoter: which category permissions a principal holds. Every
 * permission the voter knows comes down to the principal being granted
 * ROLE_ADMIN; the category itself plays no part.
 *
 * `isGranted` is modelled as membership in `grantedRoles`, the set of roles
 * the security layer reports for the current token.
 */
module CategoryVoters {
  import UserRoles
  import Entities

  const EDIT: string := "EDIT"
  const DELETE: string := "DELETE"
  const CREATE: string := "CREATE"

  /** What is being voted on: a Category instance, or anything else. */
  datatype Subject = CategoryObject(category: Entities.Category) | OtherSubject

  /** Symfony's three possible votes. */
  datatype Vote = Granted | Abstain | Denied

  /** `isGranted(role)` for the current token. */
  predicate IsGranted(grantedRoles: set<string>, role: string)
  {
    role in grantedRoles
  }

  /** `supports`: one of the three permissions, on a Category. */
  predicate Supports(attribute: string, subject: Subject)
  {
    (attribute == EDIT || attribute == DELETE || attribute == CREATE) && subject.CategoryObject?
  }

  predicate CanEdit(grantedRoles: set<string>)
  {
    IsGranted(grantedRoles, UserRoles.Value(UserRoles.RoleAdmin))
  }

  predicate CanDelete(grantedRoles: set<string>)
  {
    IsGranted(grantedRoles, UserRoles.Value(UserRoles.RoleAdmin))
  }

  predicate CanCreate(grantedRoles: set<string>)
  {
    IsGranted(grantedRoles, UserRoles.Value(UserRoles.RoleAdmin))
  }

  /**
   * `voteOnAttribute`: EDIT, DELETE and CREATE are each granted exactly to
   * an admin; any other attribute is refused.
   */
  function VoteOnAttribute(attribute: string, subject: Subject, grantedRoles: set<string>): (granted: bool)
    ensures attribute == EDIT ==> (granted <==> "ROLE_ADMIN" in grantedRoles)
    ensures attribute == DELETE ==> (granted <==> "ROLE_ADMIN" in grantedRoles)
    ensures attribute == CREATE ==> (granted <==> "ROLE_ADMIN" in grantedRoles)
    ensures attribute != EDIT && attribute != DELETE && attribute != CREATE ==> !granted
  {
    if attribute == EDIT then CanEdit(grantedRoles)
    else if attribute == DELETE then CanDelete(grantedRoles)
    else if attribute == CREATE then CanCreate(grantedRoles)
    else false
  }

  /**
   * The vote the Voter base class casts for one attribute: abstain when
   * the voter does not support it, otherwise grant or deny by
   * `voteOnAttribute`.
   */
  function Decide(attribute: string, subject: Subject, grantedRoles: set<string>): (v: Vote)
    ensures v == Abstain <==> !Supports(attribute, subject)
    ensures v == Granted <==> Supports(attribute, subject) && "ROLE_ADMIN" in grantedRoles
    ensures v == Denied <==> Supports(attribute, subject) && "ROLE_ADMIN" !in grantedRoles
  {
    if !Supports(attribute, subject) then Abstain
    else if VoteOnAttribute(attribute, subject, grantedRoles) then Granted
    else Denied
  }

  /** The vote does not depend on which category, or whether any, is the subject. */
  lemma VoteIgnoresSubject(attribute: string, s1: Subject, s2: Subject, grantedRoles: set<string>)
    ensures VoteOnAttribute(attribute, s1, grantedRoles) == VoteOnAttribute(attribute, s2, grantedRoles)
  {
  }

  /** A principal without ROLE_ADMIN is granted nothing on a category. */
  lemma NonAdminNeverGranted(attribute: string, subject: Subject, grantedRoles: set<string>)
    requires "ROLE_ADMIN" !in grantedRoles
    ensures !VoteOnAttribute(attribute, subject, grantedRoles)
    ensures Decide(attribute, subject, grantedRoles) != Granted
  {
  }
}
