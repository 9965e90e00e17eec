/** Data shapes of Conditional Access policies as the analysis reads them
    (app/models.py). Only the fields that the graph normaliser and the
    applicability evaluator inspect are kept. */
module Models {

  datatype Option<+T> = None | Some(value: T)

  /** The built-in grant controls of a policy ("mfa", "compliantDevice", ...),
      in the order the directory lists them. */
  datatype GrantControls = GrantControls(builtInControls: seq<string>)

  /** The `users` condition is a free-form dictionary; the analysis reads only
      the keys "includeUsers", "includeGroups", "excludeUsers" and
      "excludeGroups", each holding a list of identifiers. The dictionary
      itself may be null. */
  datatype Conditions = Conditions(users: Option<map<string, seq<string>>>)

  /** A Conditional Access policy. `state` is a free string
      ("enabled", "disabled", "enabledForReportingButNotEnforced", or anything
      else the directory sends). */
  datatype CAPolicy = CAPolicy(
    id: string,
    displayName: string,
    state: string,
    conditions: Conditions,
    grantControls: Option<GrantControls>)

  const IncludeUsersKey: string := "includeUsers"
  const IncludeGroupsKey: string := "includeGroups"
  const ExcludeUsersKey: string := "excludeUsers"
  const ExcludeGroupsKey: string := "excludeGroups"

  /** The sentinel that stands for every user inside "includeUsers". */
  const AllSentinel: string := "All"

  /** `(conditions.users or {}).get(key, [])`: a missing dictionary or a
      missing key reads as the empty list. */
  function UsersList(p: CAPolicy, key: string): seq<string> {
    match p.conditions.users
    case None => []
    case Some(m) => if key in m then m[key] else []
  }
}
