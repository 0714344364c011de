/** The backed enum `UserRole` and its translation label. */
module UserRoles {
  import opened Wrappers

  datatype UserRole = RoleUser | RoleAdmin

  /** The string each case is backed by: the case name itself. */
  function Value(role: UserRole): string
  {
    match role
    case RoleUser => "ROLE_USER"
    case RoleAdmin => "ROLE_ADMIN"
  }

  /** PHP's `UserRole::tryFrom`: the case backed by `s`, if there is one. */
  function TryFrom(s: string): (r: Option<UserRole>)
    ensures r.Some? ==> Value(r.value) == s
    ensures r.None? ==> forall role: UserRole :: Value(role) != s
  {
    if s == "ROLE_USER" then Some(RoleUser)
    else if s == "ROLE_ADMIN" then Some(RoleAdmin)
    else None
  }

  /** `label()`: the translation key shown for a role. */
  function Label(role: UserRole): string
  {
    match role
    case RoleUser => "label.role_user"
    case RoleAdmin => "label.role_admin"
  }

  /** Every case is recovered from its backing value. */
  lemma ValueRoundTrip(role: UserRole)
    ensures TryFrom(Value(role)) == Some(role)
  {
  }

  /** Distinct roles have distinct backing values and distinct labels. */
  lemma ValueAndLabelInjective(a: UserRole, b: UserRole)
    ensures Value(a) == Value(b) ==> a == b
    ensures Label(a) == Label(b) ==> a == b
  {
  }

  /** The two translation labels. */
  lemma Labels()
    ensures Label(RoleUser) == "label.role_user"
    ensures Label(RoleAdmin) == "label.role_admin"
  {
  }
}
