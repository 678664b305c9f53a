/** The querysets that narrow `for_user`: performers, their assignments and wireless units. */
module ModelQuerysets {
  import opened Options
  import opened Tenancy

  // Of each model's attributes, those that the lookup tables ask for.
  const PERFORMER := Model("micboard.performer", {"assignments"})
  const PERFORMER_ASSIGNMENT := Model("micboard.performerassignment", {"wireless_unit"})
  const WIRELESS_UNIT := Model("micboard.wirelessunit", {"base_chassis"})

  const ALL: QuerySet := Filtered([])

  // ---------------------------------------------------------------- assignments

  /** Stored assignments by primary key. */
  type Assignments = map<int, Row>

  /** The assignment belongs to an active monitoring group of the user. */
  predicate Managed(user: User, row: Row) {
    exists join :: join in row.joins
      && "monitoring_group__users" in join && join["monitoring_group__users"] == user.id
      && "monitoring_group__is_active" in join && join["monitoring_group__is_active"] == 1
  }

  ghost predicate AssignmentKept(deployment: Deployment, tenancyInstalled: bool, memberships: seq<Membership>,
                                 user: User, row: Row) {
    && KeptFor(PERFORMER_ASSIGNMENT, deployment, tenancyInstalled, memberships, user, row)
    && (user.isSuperuser || Managed(user, row))
  }

  /** `PerformerAssignmentQuerySet.for_user` */
  method AssignmentsForUser(queryset: QuerySet, deployment: Deployment, tenancyInstalled: bool,
                            memberships: seq<Membership>, user: User) returns (r: QuerySet)
    ensures forall row :: r.Returns(row) <==>
              queryset.Returns(row) && AssignmentKept(deployment, tenancyInstalled, memberships, user, row)
  {
    hide KeptFor;
    var base := ForUser(queryset, PERFORMER_ASSIGNMENT, deployment, tenancyInstalled, memberships, user);
    if !user.isAuthenticated || user.isSuperuser {
      OnlyAuthenticated(PERFORMER_ASSIGNMENT, deployment, tenancyInstalled, memberships, user);
      return base;
    }
    var q := And(Equals("monitoring_group__users", user.id), Equals("monitoring_group__is_active", 1));
    r := base.Filter(q);
    forall row ensures r.Returns(row) <==>
        queryset.Returns(row) && AssignmentKept(deployment, tenancyInstalled, memberships, user, row) {
      FilterReturns(base, q, row);
      ManagedMatches(user, row);
    }
  }

  lemma OnlyAuthenticated(model: Model, deployment: Deployment, tenancyInstalled: bool,
                          memberships: seq<Membership>, user: User)
    ensures forall row :: KeptFor(model, deployment, tenancyInstalled, memberships, user, row) ==> user.isAuthenticated
  {
  }

  lemma ManagedMatches(user: User, row: Row)
    ensures Matches(And(Equals("monitoring_group__users", user.id), Equals("monitoring_group__is_active", 1)), row)
            <==> Managed(user, row)
  {
    var users, active := Equals("monitoring_group__users", user.id), Equals("monitoring_group__is_active", 1);
    assert forall join :: Holds(And(users, active), join) <==> Holds(users, join) && Holds(active, join);
  }

  // ----------------------------------------------------------------- performers

  /** The join goes to an assignment that the user may see. */
  ghost predicate ThroughVisible(assignments: Assignments, deployment: Deployment, tenancyInstalled: bool,
                                 memberships: seq<Membership>, user: User, join: Join) {
    && "assignments" in join && join["assignments"] in assignments
    && AssignmentKept(deployment, tenancyInstalled, memberships, user, assignments[join["assignments"]])
  }

  /** The performer has an assignment that the user may see or, outside the membership mode, none at all. */
  ghost predicate Assigned(assignments: Assignments, deployment: Deployment, tenancyInstalled: bool,
                           memberships: seq<Membership>, user: User, row: Row) {
    exists join :: join in row.joins
      && (ThroughVisible(assignments, deployment, tenancyInstalled, memberships, user, join)
          || (!deployment.mspEnabled && "assignments" !in join))
  }

  ghost predicate PerformerKept(assignments: Assignments, deployment: Deployment, tenancyInstalled: bool,
                                memberships: seq<Membership>, user: User, row: Row) {
    && KeptFor(PERFORMER, deployment, tenancyInstalled, memberships, user, row)
    && (user.isSuperuser || Assigned(assignments, deployment, tenancyInstalled, memberships, user, row))
  }

  function Returned(assignments: Assignments, queryset: QuerySet): set<int> {
    set pk | pk in assignments && queryset.Returns(assignments[pk])
  }

  /** `PerformerQuerySet.for_user` */
  method PerformersForUser(queryset: QuerySet, assignments: Assignments, deployment: Deployment,
                           tenancyInstalled: bool, memberships: seq<Membership>, user: User) returns (r: QuerySet)
    ensures forall row :: r.Returns(row) <==>
              queryset.Returns(row) && PerformerKept(assignments, deployment, tenancyInstalled, memberships, user, row)
  {
    hide KeptFor, AssignmentKept, Assigned;
    var base := ForUser(queryset, PERFORMER, deployment, tenancyInstalled, memberships, user);
    OnlyAuthenticated(PERFORMER, deployment, tenancyInstalled, memberships, user);
    if !user.isAuthenticated || user.isSuperuser {
      return base;
    }
    var visibleAssignments := AssignmentsForUser(ALL, deployment, tenancyInstalled, memberships, user);
    var visible := Returned(assignments, visibleAssignments);
    assert forall pk :: pk in visible <==>
        (pk in assignments && AssignmentKept(deployment, tenancyInstalled, memberships, user, assignments[pk]));
    var visibility := OneOf("assignments", visible);
    if !deployment.mspEnabled {
      visibility := Or(visibility, IsNull("assignments"));
    }
    r := base.Filter(visibility);
    forall row ensures r.Returns(row) <==>
        queryset.Returns(row) && PerformerKept(assignments, deployment, tenancyInstalled, memberships, user, row) {
      FilterReturns(base, visibility, row);
      AssignedMatches(assignments, visible, deployment, tenancyInstalled, memberships, user, row);
    }
  }

  lemma AssignedMatches(assignments: Assignments, visible: set<int>, deployment: Deployment, tenancyInstalled: bool,
                        memberships: seq<Membership>, user: User, row: Row)
    requires forall pk :: pk in visible <==>
               (pk in assignments && AssignmentKept(deployment, tenancyInstalled, memberships, user, assignments[pk]))
    ensures Matches(if deployment.mspEnabled then OneOf("assignments", visible)
                    else Or(OneOf("assignments", visible), IsNull("assignments")), row)
            <==> Assigned(assignments, deployment, tenancyInstalled, memberships, user, row)
  {
    var through, unassigned := OneOf("assignments", visible), IsNull("assignments");
    forall join: Join
      ensures Holds(through, join)
              <==> ThroughVisible(assignments, deployment, tenancyInstalled, memberships, user, join)
      ensures Holds(Or(through, unassigned), join) <==> Holds(through, join) || "assignments" !in join
    {
      if "assignments" in join {
        var pk := join["assignments"];
        assert pk in visible <==> Holds(through, join);
        assert pk in visible <==>
            (pk in assignments && AssignmentKept(deployment, tenancyInstalled, memberships, user, assignments[pk]));
      } else {
        assert !Holds(through, join);
      }
    }
  }

  // ---------------------------------------------------------------------- units

  /** A location, a whole building or the channel of the unit belongs to one of the user's active groups. */
  ghost predicate UnitMonitored(monitoring: (set<int>, set<int>), row: Row) {
    exists join :: join in row.joins
      && (Holds(OneOf("base_chassis__location__monitoring_groups", monitoring.0), join)
          || Holds(OneOf("base_chassis__location__building_id", monitoring.1), join)
          || Holds(OneOf("assigned_resource__monitoring_groups", monitoring.0), join))
  }

  ghost predicate UnitKept(deployment: Deployment, tenancyInstalled: bool, memberships: seq<Membership>,
                           user: User, row: Row) {
    && KeptFor(WIRELESS_UNIT, deployment, tenancyInstalled, memberships, user, row)
    && (user.isSuperuser || (user.monitoring.Some? && UnitMonitored(user.monitoring.value, row)))
  }

  /** `WirelessUnitQuerySet.for_user`; a signed-in account always has its relation to monitoring groups. */
  method UnitsForUser(queryset: QuerySet, deployment: Deployment, tenancyInstalled: bool,
                      memberships: seq<Membership>, user: User) returns (r: QuerySet)
    requires user.isAuthenticated && !user.isSuperuser ==> user.monitoring.Some?
    ensures forall row :: r.Returns(row) <==>
              queryset.Returns(row) && UnitKept(deployment, tenancyInstalled, memberships, user, row)
  {
    hide KeptFor, UnitMonitored;
    var base := ForUser(queryset, WIRELESS_UNIT, deployment, tenancyInstalled, memberships, user);
    OnlyAuthenticated(WIRELESS_UNIT, deployment, tenancyInstalled, memberships, user);
    if !user.isAuthenticated || user.isSuperuser {
      return base;
    }
    var (groups, buildings) := user.monitoring.value;
    var q := Or(Or(OneOf("base_chassis__location__monitoring_groups", groups),
                   OneOf("base_chassis__location__building_id", buildings)),
                OneOf("assigned_resource__monitoring_groups", groups));
    r := base.Filter(q);
    forall row ensures r.Returns(row) <==>
        queryset.Returns(row) && UnitKept(deployment, tenancyInstalled, memberships, user, row) {
      FilterReturns(base, q, row);
      UnitMatches(groups, buildings, row);
    }
  }

  lemma UnitMatches(groups: set<int>, buildings: set<int>, row: Row)
    ensures Matches(Or(Or(OneOf("base_chassis__location__monitoring_groups", groups),
                          OneOf("base_chassis__location__building_id", buildings)),
                       OneOf("assigned_resource__monitoring_groups", groups)), row)
            <==> UnitMonitored((groups, buildings), row)
  {
    var a, b := OneOf("base_chassis__location__monitoring_groups", groups),
                OneOf("base_chassis__location__building_id", buildings);
    var c := OneOf("assigned_resource__monitoring_groups", groups);
    forall join: Join ensures Holds(Or(Or(a, b), c), join) <==> Holds(a, join) || Holds(b, join) || Holds(c, join) {
      assert Holds(Or(a, b), join) <==> Holds(a, join) || Holds(b, join);
    }
  }

  // ------------------------------------------------- one assignment or several

  /** The joins of a performer show of each assignment the place that the assignment itself shows. */
  ghost predicate Linked(assignments: Assignments, row: Row) {
    forall join :: join in row.joins && "assignments" in join && join["assignments"] in assignments ==>
      OnePlace(PERFORMER_ASSIGNMENT, assignments[join["assignments"]], PlaceOf(PERFORMER, join))
  }

  lemma PerformerTenantPath()
    ensures TenantLookups(PERFORMER) == Some(RELATIONSHIP_TENANT_LOOKUPS[5].1)
  {
    FirstPresentAt(RELATIONSHIP_TENANT_LOOKUPS, PERFORMER.attributes, 5);
    hide FirstPresent;
  }

  lemma PerformerSitePath()
    ensures SiteLookup(PERFORMER) == Some(RELATIONSHIP_SITE_LOOKUPS[5].1)
  {
    FirstPresentAt(RELATIONSHIP_SITE_LOOKUPS, PERFORMER.attributes, 5);
    hide FirstPresent;
  }

  lemma AssignmentTenantPath()
    ensures TenantLookups(PERFORMER_ASSIGNMENT) == Some(RELATIONSHIP_TENANT_LOOKUPS[4].1)
  {
    FirstPresentAt(RELATIONSHIP_TENANT_LOOKUPS, PERFORMER_ASSIGNMENT.attributes, 4);
    hide FirstPresent;
  }

  lemma AssignmentSitePath()
    ensures SiteLookup(PERFORMER_ASSIGNMENT) == Some(RELATIONSHIP_SITE_LOOKUPS[4].1)
  {
    FirstPresentAt(RELATIONSHIP_SITE_LOOKUPS, PERFORMER_ASSIGNMENT.attributes, 4);
    hide FirstPresent;
  }

  /** Joins of two models that show one place are covered by the same memberships and at the same site. */
  lemma CoverageByPlace(a: Model, b: Model, keys: seq<Scope>, there: Join, here: Join)
    requires TenantLookups(a).Some? && TenantLookups(a).value.campus.Some?
    requires TenantLookups(b).Some? && TenantLookups(b).value.campus.Some?
    requires PlaceOf(a, there) == PlaceOf(b, here)
    ensures CoveredBySome(TenantLookups(a).value, keys, there) <==> CoveredBySome(TenantLookups(b).value, keys, here)
  {
    hide TenantLookups, SiteLookup;
    forall key ensures Covers(TenantLookups(a).value, key, there) <==> Covers(TenantLookups(b).value, key, here) {
    }
  }

  lemma SameSite(a: Model, b: Model, siteId: int, there: Join, here: Join)
    requires SiteLookup(a).Some? && SiteLookup(b).Some? && PlaceOf(a, there) == PlaceOf(b, here)
    ensures Holds(Equals(SiteLookup(a).value, siteId), there) <==> Holds(Equals(SiteLookup(b).value, siteId), here)
  {
    hide TenantLookups, SiteLookup;
    assert Lookup(there, SiteLookup(a).value) == Lookup(here, SiteLookup(b).value);
  }

  /** A join to a visible assignment is itself inside the user's tenant and at the site. */
  lemma VisibleJoinQualifies(assignments: Assignments, deployment: Deployment, tenancyInstalled: bool,
                             memberships: seq<Membership>, user: User, row: Row, join: Join)
    requires deployment.mspEnabled && !user.isSuperuser && Linked(assignments, row)
    requires join in row.joins && ThroughVisible(assignments, deployment, tenancyInstalled, memberships, user, join)
    ensures tenancyInstalled && TenantLookups(PERFORMER).Some? && SiteLookup(PERFORMER).Some?
    ensures CoveredBySome(TenantLookups(PERFORMER).value, MembershipKeys(memberships, user.id), join)
    ensures deployment.multiSite ==> Holds(Equals(SiteLookup(PERFORMER).value, deployment.siteId), join)
  {
    PerformerTenantPath();
    PerformerSitePath();
    AssignmentTenantPath();
    AssignmentSitePath();
    hide TenantLookups, SiteLookup, PlaceOf, Holds, MembershipKeys;
    var keys := MembershipKeys(memberships, user.id);
    var assignment := assignments[join["assignments"]];
    var i :| i in assignment.joins && CoveredBySome(TenantLookups(PERFORMER_ASSIGNMENT).value, keys, i);
    CoverageByPlace(PERFORMER_ASSIGNMENT, PERFORMER, keys, i, join);
    if deployment.multiSite {
      var j :| j in assignment.joins && Holds(Equals(SiteLookup(PERFORMER_ASSIGNMENT).value, deployment.siteId), j);
      SameSite(PERFORMER_ASSIGNMENT, PERFORMER, deployment.siteId, j, join);
    }
  }

  /**
   * For an ordinary user in membership mode the narrowing closes the gap: a performer is returned exactly when one
   * assignment of theirs is visible, and that one assignment meets the tenant and the site restriction together.
   */
  lemma OrdinaryPerformersUnsplit(assignments: Assignments, deployment: Deployment, tenancyInstalled: bool,
                                  memberships: seq<Membership>, user: User, row: Row)
    requires deployment.mspEnabled && !user.isSuperuser && Linked(assignments, row)
    ensures PerformerKept(assignments, deployment, tenancyInstalled, memberships, user, row)
            <==> exists join :: join in row.joins
                   && ThroughVisible(assignments, deployment, tenancyInstalled, memberships, user, join)
    ensures PerformerKept(assignments, deployment, tenancyInstalled, memberships, user, row) && deployment.multiSite ==>
              CoveredAtSite(PERFORMER, MembershipKeys(memberships, user.id), deployment.siteId, row)
  {
    hide TenantLookups, SiteLookup, Holds, MembershipKeys;
    if join :| join in row.joins && ThroughVisible(assignments, deployment, tenancyInstalled, memberships, user, join) {
      VisibleJoinQualifies(assignments, deployment, tenancyInstalled, memberships, user, row, join);
    }
  }

  function JoinTo(pk: int, lookups: Lookups, site: string, organization: int, siteId: int): Join {
    map["assignments" := pk, lookups.organization := organization, site := siteId]
  }

  /** Two joins, one in organization 7 and the other at site 1, meet both filters and yet not together. */
  lemma SplitJoinsPass(model: Model, keys: seq<Scope>, row: Row)
    requires TenantLookups(model).Some? && SiteLookup(model).Some?
    requires var organization, site := TenantLookups(model).value.organization, SiteLookup(model).value;
             organization != site && organization != "assignments" && site != "assignments"
    requires row == Row({JoinTo(1, TenantLookups(model).value, SiteLookup(model).value, 7, 2),
                         JoinTo(2, TenantLookups(model).value, SiteLookup(model).value, 8, 1)})
    requires Scope(7, None) in keys && forall k :: k in keys ==> k == Scope(7, None)
    ensures InScope(model, keys, row) && AtSite(model, 1, row) && !CoveredAtSite(model, keys, 1, row)
  {
    hide TenantLookups, SiteLookup;
    var lookups, site := TenantLookups(model).value, SiteLookup(model).value;
    var own, other := JoinTo(1, lookups, site, 7, 2), JoinTo(2, lookups, site, 8, 1);
    assert Covers(lookups, Scope(7, None), own) && CoveredBySome(lookups, keys, own);
    assert own in row.joins && other in row.joins && Holds(Equals(site, 1), other);
  }

  /**
   * A superuser without the cross-organization view gets the plain queryset: a performer with one assignment in the
   * superuser's organization at another site and one of another organization at this site is returned, although
   * neither assignment meets both restrictions.
   */
  lemma SuperuserPerformerSplits() returns (assignments: Assignments, deployment: Deployment,
                                            memberships: seq<Membership>, user: User, row: Row)
    ensures user.isSuperuser && deployment == Deployment(true, true, false, 1) && Linked(assignments, row)
    ensures PerformerKept(assignments, deployment, true, memberships, user, row)
    ensures !CoveredAtSite(PERFORMER, MembershipKeys(memberships, user.id), 1, row)
  {
    PerformerTenantPath();
    PerformerSitePath();
    AssignmentTenantPath();
    AssignmentSitePath();
    hide TenantLookups, SiteLookup, InScope, AtSite, CoveredAtSite;
    var near, nearSite := TenantLookups(PERFORMER).value, SiteLookup(PERFORMER).value;
    var far, farSite := TenantLookups(PERFORMER_ASSIGNMENT).value, SiteLookup(PERFORMER_ASSIGNMENT).value;
    deployment, user := Deployment(true, true, false, 1), User(5, true, true, Some(({}, {})));
    memberships := [Membership(5, true, Organization(7, true, Some(1)), None)];
    assert memberships[0].IsValidFor(5) && memberships[0].Key() == Scope(7, None);
    row := Row({JoinTo(1, near, nearSite, 7, 2), JoinTo(2, near, nearSite, 8, 1)});
    assignments := map[1 := Row({map[far.organization := 7, farSite := 2]}),
                       2 := Row({map[far.organization := 8, farSite := 1]})];
    SplitJoinsPass(PERFORMER, MembershipKeys(memberships, 5), row);
  }
}
