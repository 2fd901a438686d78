/** The client route guard: where a visitor with the stored role lands. */
module PrivateRoute {
  import opened Common

  datatype Outcome = ToLogin | ToDashboard | ShowOutlet

  /** `localStorage.getItem('role')` is `None` when nothing is stored; an empty
      stored role is falsy as well. `adminOnly` is false when the prop is absent. */
  function Decide(role: Option<string>, adminOnly: bool): (r: Outcome)
    ensures r == ToLogin <==> !TruthyOpt(role)
    ensures r == ToDashboard <==> TruthyOpt(role) && adminOnly && role.value != "admin"
    ensures r == ShowOutlet <==> TruthyOpt(role) && (!adminOnly || role.value == "admin")
  {
    if !TruthyOpt(role) then ToLogin
    else if adminOnly && role.value != "admin" then ToDashboard
    else ShowOutlet
  }

  /** The admin role reaches every route; any other role reaches exactly the
      routes that are not admin-only; no role, stored or empty, goes to the login. */
  lemma GuardLaws(adminOnly: bool, role: string)
    ensures Decide(Some("admin"), adminOnly) == ShowOutlet
    ensures Truthy(role) ==> (Decide(Some(role), adminOnly) == ShowOutlet <==> !adminOnly || role == "admin")
    ensures Decide(None, adminOnly) == Decide(Some(""), adminOnly) == ToLogin
  {
  }
}
