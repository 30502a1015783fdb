/** The per-action permission tables of the three viewsets and the user listing filter. */
module Access {
  import opened Permissions
  import Models

  const RoleAdmin := "ADMIN"
  const RoleVolunteer := "VOLUNTEER"

  /** The user viewset: sign-up is open, listing needs admin or volunteer,
      per-user actions are admin-only, anything else needs a login. */
  predicate UserPermission(action: string, u: Requester)
    ensures action == "create" ==> UserPermission(action, u)
    ensures action != "create" && UserPermission(action, u) ==> IsAuthenticated(u)
  {
    if action == "create" then true
    else if action == "list" then IsAdminUser(u) || IsVolunteerUser(u)
    else if action in ["retrieve", "update", "partial_update", "destroy"] then IsAdminUser(u)
    else IsAuthenticated(u)
  }

  /** The animal viewset. The `change_status` action falls in the last branch:
      the permission classes named on its decorator are not consulted. */
  predicate AnimalPermission(action: string, u: Requester)
    ensures AnimalPermission(action, u) ==> IsAuthenticated(u)
  {
    if action in ["list", "retrieve"] then IsAuthenticated(u)
    else IsAdminUser(u) || IsVolunteerUser(u)
  }

  /** The adoption viewset. */
  predicate AdoptionPermission(action: string, u: Requester)
    ensures AdoptionPermission(action, u) ==> IsAuthenticated(u)
  {
    if action == "create" then IsAdopterUser(u)
    else if action in ["list", "retrieve", "partial_update"] then IsAdminUser(u) || IsVolunteerUser(u)
    else IsAdminUser(u)
  }

  /** The user table by stored role: sign-up is open, listing is for admins and
      volunteers, per-user actions are for admins, and any other action is open
      to every logged-in user. */
  lemma UserActionsByRole(action: string, r: Models.Role)
    ensures UserPermission(action, Member(Models.RoleCode(r))) <==>
      if action == "create" then true
      else if action == "list" then r == Models.Admin || r == Models.Volunteer
      else if action in ["retrieve", "update", "partial_update", "destroy"] then r == Models.Admin
      else true
  {
    RoleCodesLowered();
  }

  /** The animal table by stored role: everybody logged in may list and
      retrieve; every other action, status change included, is for admins and volunteers. */
  lemma AnimalActionsByRole(action: string, r: Models.Role)
    ensures AnimalPermission(action, Member(Models.RoleCode(r))) <==>
      action in ["list", "retrieve"] || r == Models.Admin || r == Models.Volunteer
  {
    RoleCodesLowered();
  }

  /** The adoption table by stored role: adopters alone may create; admins and
      volunteers may list, retrieve and partially update; the rest is for admins. */
  lemma AdoptionActionsByRole(action: string, r: Models.Role)
    ensures AdoptionPermission(action, Member(Models.RoleCode(r))) <==>
      if action == "create" then r == Models.Adopter
      else if action in ["list", "retrieve", "partial_update"] then r == Models.Admin || r == Models.Volunteer
      else r == Models.Admin
  {
    RoleCodesLowered();
  }

  /** Without a login only signing up is possible. */
  lemma AnonymousMaySignUpOnly(action: string)
    ensures UserPermission(action, Anonymous) <==> action == "create"
    ensures !AnimalPermission(action, Anonymous)
    ensures !AdoptionPermission(action, Anonymous)
  {
  }

  /** Whatever a volunteer may do in any viewset, the stored admin role may do too. */
  lemma VolunteerRightsAreAdminRights(action: string, role: string)
    requires Lower(role) == "volunteer"
    ensures UserPermission(action, Member(role)) ==> UserPermission(action, Member(RoleAdmin))
    ensures AnimalPermission(action, Member(role)) ==> AnimalPermission(action, Member(RoleAdmin))
    ensures AdoptionPermission(action, Member(role)) ==> AdoptionPermission(action, Member(RoleAdmin))
  {
    LowerAdmin();
  }

  /** An adopter may create adoptions and nothing else on them; in particular
      a partial update is refused (403). */
  lemma AdopterMayOnlyRequestAdoptions(action: string)
    ensures AdoptionPermission(action, Member(Models.RoleCode(Models.Adopter))) <==> action == "create"
  {
    RoleCodesLowered();
  }

  /** The status-change action admits admins even though its decorator names volunteers only. */
  lemma ChangeStatusAdmitsAdmins()
    ensures AnimalPermission("change_status", Member(RoleAdmin))
  {
    LowerAdmin();
  }

  /** Listing and reading animals needs only a login; every other animal action
      is closed to an adopter. */
  lemma AdopterReadsAnimalsOnly(action: string)
    ensures AnimalPermission(action, Member(Models.RoleCode(Models.Adopter))) <==> action in ["list", "retrieve"]
  {
    RoleCodesLowered();
  }

  // ---------------------------------------------------------------------------
  // User listing
  // ---------------------------------------------------------------------------

  /** The users whose role is ADOPTER, each kept as often as it occurs. */
  function AdoptersOnly(users: seq<Models.User>): (r: seq<Models.User>)
    ensures forall u :: multiset(r)[u] == if u.role == Models.Adopter then multiset(users)[u] else 0
    ensures forall i :: 0 <= i < |r| ==> r[i].role == Models.Adopter
  {
    if users == [] then []
    else
      var rest := AdoptersOnly(users[1..]);
      assert users == [users[0]] + users[1..];
      if users[0].role == Models.Adopter then [users[0]] + rest else rest
  }

  /** What the user listing returns: a requester whose role is exactly
      VOLUNTEER sees the adopters only; every other role sees everybody. */
  function VisibleUsers(requester: Requester, users: seq<Models.User>): (r: seq<Models.User>)
    requires requester.Member?
    ensures multiset(r) <= multiset(users)
  {
    if requester.role == RoleVolunteer then AdoptersOnly(users) else users
  }

  /** A volunteer sees exactly the adopters; admins and adopters see all users. */
  lemma ListingByRole(users: seq<Models.User>, u: Models.User)
    ensures u in VisibleUsers(Member(RoleVolunteer), users) <==> u in users && u.role == Models.Adopter
    ensures VisibleUsers(Member(RoleAdmin), users) == users
    ensures VisibleUsers(Member(Models.RoleCode(Models.Adopter)), users) == users
  {
    var r := AdoptersOnly(users);
    assert u in r <==> multiset(r)[u] > 0;
    assert u in users <==> multiset(users)[u] > 0;
  }

  /** The listing filter compares the role exactly, unlike the permission
      predicates: a lower-case `volunteer` passes the list permission and sees
      everybody. The user table of this model stores roles as the enumeration,
      so such a requester can only stem from a row written past the serializer's
      choice validation. */
  lemma LowerCaseVolunteerSeesAll(users: seq<Models.User>)
    ensures UserPermission("list", Member("volunteer"))
    ensures VisibleUsers(Member("volunteer"), users) == users
  {
    var lowered := Lower("volunteer");
    assert lowered[0] == 'v' && lowered[1] == 'o' && lowered[2] == 'l' && lowered[3] == 'u' && lowered[4] == 'n';
    assert lowered[5] == 't' && lowered[6] == 'e' && lowered[7] == 'e' && lowered[8] == 'r';
  }
}
