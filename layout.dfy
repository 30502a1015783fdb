/** The navigation links of the application shell, chosen by the logged-in
    user's role. */
module Layout {
  import opened Outcomes
  import Models
  import Permissions
  import Access

  datatype Link = Link(href: string, caption: string)

  const AnimalsLink := Link("/animals", "Animals")
  const AdoptionsLink := Link("/adoptions", "Adoptions")
  const UsersLink := Link("/users", "Users")

  /** The logged-in user as the shell sees it: only the role matters here. */
  datatype SessionUser = SessionUser(username: string, role: string)

  /** Whether no two links share an href (the href is each link's key). */
  predicate HrefsDistinct(links: seq<Link>) {
    forall i, j :: 0 <= i < j < |links| ==> links[i].href != links[j].href
  }

  /** The links for `user`: everybody gets Animals; the role, compared exactly,
      adds Adoptions and Users for ADMIN and Users and Adoptions for VOLUNTEER. */
  function GetLinks(user: Option<SessionUser>): (links: seq<Link>)
    ensures |links| >= 1 && links[0] == AnimalsLink
    ensures HrefsDistinct(links)
    ensures forall l :: l in links ==> l in {AnimalsLink, AdoptionsLink, UsersLink}
  {
    var common := [AnimalsLink];
    if user.None? then common
    else if user.value.role == "ADMIN" then common + [AdoptionsLink, UsersLink]
    else if user.value.role == "VOLUNTEER" then common + [UsersLink, AdoptionsLink]
    else if user.value.role == "ADOPTER" then common
    else common
  }

  /** The link list of each role, in order. */
  lemma LinksByRole(name: string, role: string)
    ensures GetLinks(None) == [AnimalsLink]
    ensures GetLinks(Some(SessionUser(name, "ADMIN"))) == [AnimalsLink, AdoptionsLink, UsersLink]
    ensures GetLinks(Some(SessionUser(name, "VOLUNTEER"))) == [AnimalsLink, UsersLink, AdoptionsLink]
    ensures role != "ADMIN" && role != "VOLUNTEER" ==> GetLinks(Some(SessionUser(name, role))) == [AnimalsLink]
  {
  }

  /** Admins and volunteers get the same links in a different order. */
  lemma SameLinksOtherOrder(a: string, v: string)
    ensures multiset(GetLinks(Some(SessionUser(a, "ADMIN")))) == multiset(GetLinks(Some(SessionUser(v, "VOLUNTEER"))))
    ensures GetLinks(Some(SessionUser(a, "ADMIN"))) != GetLinks(Some(SessionUser(v, "VOLUNTEER")))
  {
    var admin, volunteer := GetLinks(Some(SessionUser(a, "ADMIN"))), GetLinks(Some(SessionUser(v, "VOLUNTEER")));
    assert admin[1] != volunteer[1];
  }

  /** For every stored role code the shell offers the Users page exactly when
      the backend lets that role list users, and the Adoptions page exactly
      when it lets that role list adoptions. */
  lemma LinksMatchListPermissions(name: string, r: Models.Role)
    ensures var links := GetLinks(Some(SessionUser(name, Models.RoleCode(r))));
      var requester := Permissions.Member(Models.RoleCode(r));
      && (UsersLink in links <==> Access.UserPermission("list", requester))
      && (AdoptionsLink in links <==> Access.AdoptionPermission("list", requester))
  {
    Permissions.RoleCodesLowered();
  }

  /** The shell compares roles exactly while the backend ignores case: a user
      stored as `admin` may list users and adoptions but is offered Animals only. */
  lemma LowerCaseAdminSeesAnimalsOnly(name: string)
    ensures GetLinks(Some(SessionUser(name, "admin"))) == [AnimalsLink]
    ensures Access.UserPermission("list", Permissions.Member("admin"))
    ensures Access.AdoptionPermission("list", Permissions.Member("admin"))
  {
    Permissions.LowerAdmin();
  }
}
