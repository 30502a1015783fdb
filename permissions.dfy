/** Role-based permission predicates. Each one holds only for an authenticated
    requester and compares the role without regard to letter case. */
module Permissions {
  import opened Outcomes
  import Models

  /** Who sends a request: nobody logged in, or a user with the given stored role. */
  datatype Requester = Anonymous | Member(role: string)

  function LowerChar(c: char): char {
    if 'A' <= c <= 'Z' then (c as int + 32) as char else c
  }

  /** Lower-casing of a role (ASCII letters only). */
  function Lower(s: string): (r: string)
    ensures |r| == |s|
    ensures forall i :: 0 <= i < |s| ==> r[i] == LowerChar(s[i])
  {
    seq(|s|, i requires 0 <= i < |s| => LowerChar(s[i]))
  }

  /** Lower-casing twice is lower-casing once. */
  lemma {:induction false} LowerIdempotent(s: string)
    ensures Lower(Lower(s)) == Lower(s)
  {
    var l := Lower(s);
    var ll := Lower(l);
    assert |ll| == |l|;
    forall i | 0 <= i < |l| ensures ll[i] == l[i] {
      assert ll[i] == LowerChar(l[i]);
    }
  }

  /** Two roles that differ only in letter case lower-case to the same text. */
  lemma {:induction false} LowerIgnoresCase(s: string, t: string)
    requires |s| == |t|
    requires forall i :: 0 <= i < |s| ==> LowerChar(s[i]) == LowerChar(t[i])
    ensures Lower(s) == Lower(t)
  {
    var ls, lt := Lower(s), Lower(t);
    forall i | 0 <= i < |s| ensures ls[i] == lt[i] {
    }
  }

  /** Stored role `ADMIN` passes the check against `admin`. */
  lemma LowerAdmin()
    ensures Lower("ADMIN") == "admin"
    ensures Lower("Admin") == "admin"
    ensures Lower("admin") == "admin"
  {
    var upper, mixed, lower := Lower("ADMIN"), Lower("Admin"), Lower("admin");
    assert upper[0] == 'a' && upper[1] == 'd' && upper[2] == 'm' && upper[3] == 'i' && upper[4] == 'n';
    assert mixed[0] == 'a' && mixed[1] == 'd' && mixed[2] == 'm' && mixed[3] == 'i' && mixed[4] == 'n';
    assert lower[0] == 'a' && lower[1] == 'd' && lower[2] == 'm' && lower[3] == 'i' && lower[4] == 'n';
  }

  /** The stored role codes lower-case to the names the predicates compare with. */
  lemma RoleCodesLowered()
    ensures Lower(Models.RoleCode(Models.Admin)) == "admin"
    ensures Lower(Models.RoleCode(Models.Volunteer)) == "volunteer"
    ensures Lower(Models.RoleCode(Models.Adopter)) == "adopter"
  {
    LowerAdmin();
    var v, a := Lower("VOLUNTEER"), Lower("ADOPTER");
    assert v[0] == 'v' && v[1] == 'o' && v[2] == 'l' && v[3] == 'u' && v[4] == 'n';
    assert v[5] == 't' && v[6] == 'e' && v[7] == 'e' && v[8] == 'r';
    assert a[0] == 'a' && a[1] == 'd' && a[2] == 'o' && a[3] == 'p';
    assert a[4] == 't' && a[5] == 'e' && a[6] == 'r';
  }

  predicate IsAuthenticated(u: Requester) {
    u.Member?
  }

  /** An admin is logged in and holds none of the other two roles. */
  predicate IsAdminUser(u: Requester)
    ensures IsAdminUser(u) ==> IsAuthenticated(u) && !IsVolunteerUser(u) && !IsAdopterUser(u)
  {
    u.Member? && Lower(u.role) == "admin"
  }

  predicate IsUser(u: Requester)
    ensures IsUser(u) ==> IsAuthenticated(u)
  {
    u.Member? && Lower(u.role) == "user"
  }

  /** Not defined in the permission module of the source; modelled by analogy with IsAdminUser. */
  predicate IsVolunteerUser(u: Requester)
    ensures IsVolunteerUser(u) ==> IsAuthenticated(u) && !IsAdopterUser(u)
  {
    u.Member? && Lower(u.role) == "volunteer"
  }

  /** Not defined in the permission module of the source; modelled by analogy with IsAdminUser. */
  predicate IsAdopterUser(u: Requester)
    ensures IsAdopterUser(u) ==> IsAuthenticated(u)
  {
    u.Member? && Lower(u.role) == "adopter"
  }

  /** Whether some entry of `roles`, lower-cased, equals `x`. */
  predicate InLowered(x: string, roles: seq<string>)
    decreases |roles|
  {
    roles != [] && (Lower(roles[0]) == x || InLowered(x, roles[1..]))
  }

  /** `allowedRoles` is None when the view declares no `allowed_roles`. */
  predicate IsSpecificRole(u: Requester, allowedRoles: Option<seq<string>>)
    ensures IsSpecificRole(u, allowedRoles) ==> u.Member? && allowedRoles.Some? && |allowedRoles.value| > 0
  {
    u.Member? && InLowered(Lower(u.role), allowedRoles.GetOr([]))
  }

  /** InLowered is case-insensitive membership. */
  lemma {:induction false} InLoweredMeansSomeEntry(x: string, roles: seq<string>)
    ensures InLowered(x, roles) <==> exists i :: 0 <= i < |roles| && Lower(roles[i]) == x
    decreases |roles|
  {
    if roles != [] {
      InLoweredMeansSomeEntry(x, roles[1..]);
      if InLowered(x, roles[1..]) {
        var i :| 0 <= i < |roles[1..]| && Lower(roles[1..][i]) == x;
        assert Lower(roles[i + 1]) == x;
      }
      if exists i :: 0 <= i < |roles| && Lower(roles[i]) == x {
        var i :| 0 <= i < |roles| && Lower(roles[i]) == x;
        if i > 0 {
          assert Lower(roles[1..][i - 1]) == x;
        }
      }
    }
  }

  /** IsSpecificRole admits exactly the authenticated requesters whose role
      matches some allowed role up to letter case. */
  lemma SpecificRoleMeaning(u: Requester, allowedRoles: Option<seq<string>>)
    ensures IsSpecificRole(u, allowedRoles) <==>
      u.Member? && allowedRoles.Some? &&
      exists i :: 0 <= i < |allowedRoles.value| && Lower(allowedRoles.value[i]) == Lower(u.role)
  {
    if u.Member? {
      InLoweredMeansSomeEntry(Lower(u.role), allowedRoles.GetOr([]));
    }
  }

  /** A view without `allowed_roles` grants nobody. */
  lemma NoAllowedRolesGrantsNobody(u: Requester)
    ensures !IsSpecificRole(u, None)
  {
  }

  /** No predicate ever holds for an anonymous requester. */
  lemma AnonymousGetsNothing(allowedRoles: Option<seq<string>>)
    ensures !IsAuthenticated(Anonymous)
    ensures !IsAdminUser(Anonymous) && !IsUser(Anonymous) && !IsSpecificRole(Anonymous, allowedRoles)
    ensures !IsVolunteerUser(Anonymous) && !IsAdopterUser(Anonymous)
  {
  }

  /** The stored admin code passes IsAdminUser, in any letter case. */
  lemma AdminCodeIsAdmin()
    ensures IsAdminUser(Member(Models.RoleCode(Models.Admin)))
    ensures IsAdminUser(Member("Admin")) && IsAdminUser(Member("admin"))
  {
    LowerAdmin();
  }

  /** IsUser compares against `user`, which is no role of the enumeration. */
  lemma IsUserHoldsForNoDeclaredRole(r: Models.Role)
    ensures !IsUser(Member(Models.RoleCode(r)))
  {
  }

  /** Roles that lower-case alike get identical answers from every predicate. */
  lemma {:induction false} CaseInsensitive(r1: string, r2: string, allowedRoles: Option<seq<string>>)
    requires Lower(r1) == Lower(r2)
    ensures IsAdminUser(Member(r1)) == IsAdminUser(Member(r2))
    ensures IsUser(Member(r1)) == IsUser(Member(r2))
    ensures IsVolunteerUser(Member(r1)) == IsVolunteerUser(Member(r2))
    ensures IsAdopterUser(Member(r1)) == IsAdopterUser(Member(r2))
    ensures IsSpecificRole(Member(r1), allowedRoles) == IsSpecificRole(Member(r2), allowedRoles)
  {
  }
}
