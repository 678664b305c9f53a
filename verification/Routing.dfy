/** Event routing: who is granted the groups of an event, compared with what the same user may query. */
module Routing {
  import opened Options
  import opened Tenancy
  import opened Consumers
  import opened ModelQuerysets

  /** `groups_for_scope`: the groups that an event about one row is published to. */
  function GroupsForScope(deployment: Deployment, organization: Option<int>, campus: Option<int>, site: Option<int>)
    : seq<Group>
  {
    if !deployment.mspEnabled then
      if !deployment.multiSite then [Everyone]
      else
        var resolved := if site.Some? && site.value != 0 then site.value
                        else if deployment.siteId > 0 then deployment.siteId else 0;
        if resolved != 0 then [OfSite(resolved)] else []
    else if organization.None? then []
    else if campus.None? then [OfOrganization(organization.value)]
    else [OfOrganization(organization.value), OfCampus(organization.value, campus.value)]
  }

  /** The groups that events about this place go to. */
  function GroupsAt(store: Store, place: Place): seq<Group> {
    GroupsForScope(store.deployment, place.organization, place.campus, place.site)
  }

  /** One of them is granted to the user at this moment; what an open connection is sent is another matter. */
  ghost predicate Granted(store: Store, user: int, place: Place) {
    exists g :: g in GroupsAt(store, place) && Authorized(store, user, g)
  }

  /** In membership mode events are granted to the members of their organization and to those of their campus. */
  lemma GrantedByScope(store: Store, user: int, place: Place)
    requires store.deployment.mspEnabled && user in store.activeUsers
    ensures Granted(store, user, place) <==>
              place.organization.Some?
              && (HasMembership(store, user, Scope(place.organization.value, None))
                  || (place.campus.Some? && HasMembership(store, user, Scope(place.organization.value, place.campus))))
  {
    if place.organization.Some? {
      var groups := GroupsAt(store, place);
      assert groups[0] == OfOrganization(place.organization.value) && groups[0] in groups;
      assert place.campus.Some? ==>
          groups[1] == OfCampus(place.organization.value, place.campus.value) && groups[1] in groups;
    }
  }

  /** What `for_user` keeps for a connected user, as `Tenancy.ForUser` proves. */
  ghost predicate Visible(store: Store, model: Model, user: User, row: Row) {
    KeptFor(model, store.deployment, true, store.memberships, user, row)
  }

  // ------------------------------------------------------------ membership mode

  /** The queryset's filter: a valid membership that covers rows at this place. */
  ghost predicate Covering(store: Store, model: Model, user: int, place: Place, m: Membership) {
    && m in store.memberships && m.IsValidFor(user) && TenantLookups(model).Some?
    && place.organization == Some(m.organization.id)
    && (m.campus.None? || place.campus == Some(m.campus.value.id)
        || (TenantLookups(model).value.campus.None? && TenantLookups(model).value.organization == "pk"))
  }

  /** The socket's routes: a valid membership of the organization, or of the campus, at this place. */
  ghost predicate Routes(store: Store, user: int, place: Place, m: Membership) {
    && m in store.memberships && m.IsValidFor(user) && place.organization == Some(m.organization.id)
    && (m.campus.None? || place.campus == Some(m.campus.value.id))
  }

  ghost predicate Covered(store: Store, model: Model, user: int, place: Place) {
    exists m :: Covering(store, model, user, place, m)
  }

  ghost predicate Routable(store: Store, user: int, place: Place) {
    exists m :: Routes(store, user, place, m)
  }

  /** The stored site of the organization with this id: memberships refer to one record. */
  ghost predicate HomeSite(store: Store, organization: Option<int>, home: Option<int>) {
    forall m :: m in store.memberships && Some(m.organization.id) == organization ==> m.organization.siteId == home
  }

  predicate AtCurrentSite(store: Store, site: Option<int>) {
    store.deployment.multiSite ==> site == Some(store.deployment.siteId)
  }

  lemma CoversAtPlace(model: Model, key: Scope, join: Join)
    requires TenantLookups(model).Some?
    ensures Covers(TenantLookups(model).value, key, join) <==>
              PlaceOf(model, join).organization == Some(key.organizationId)
              && (key.campusId.None? || PlaceOf(model, join).campus == key.campusId
                  || (TenantLookups(model).value.campus.None? && TenantLookups(model).value.organization == "pk"))
  {
    hide TenantLookups, SiteLookup;
  }

  lemma VisibleThrough(store: Store, model: Model, user: User, row: Row, place: Place)
    requires store.deployment.mspEnabled && user.isAuthenticated && OnePlace(model, row, place)
    ensures Visible(store, model, user, row) <==>
              (BypassesTenancy(user, store.deployment) || Covered(store, model, user.id, place))
              && AtCurrentSite(store, place.site)
  {
    ScopeThrough(store, model, user.id, row, place);
    SiteThrough(model, store.deployment.siteId, row, place);
  }

  lemma ScopeThrough(store: Store, model: Model, user: int, row: Row, place: Place)
    requires OnePlace(model, row, place)
    ensures InScope(model, MembershipKeys(store.memberships, user), row) <==> Covered(store, model, user, place)
  {
    hide TenantLookups, SiteLookup, PlaceOf, Covers;
    var keys := MembershipKeys(store.memberships, user);
    if InScope(model, keys, row) {
      var join :| join in row.joins && CoveredBySome(TenantLookups(model).value, keys, join);
      var key :| key in keys && Covers(TenantLookups(model).value, key, join);
      var m :| m in store.memberships && m.IsValidFor(user) && m.Key() == key;
      CoversAtPlace(model, key, join);
      assert Covering(store, model, user, place, m);
    }
    if m :| Covering(store, model, user, place, m) {
      var join :| join in row.joins;
      CoversAtPlace(model, m.Key(), join);
      assert m.Key() in keys && CoveredBySome(TenantLookups(model).value, keys, join);
    }
  }

  lemma SiteThrough(model: Model, siteId: int, row: Row, place: Place)
    requires OnePlace(model, row, place)
    ensures AtSite(model, siteId, row) <==> place.site == Some(siteId)
  {
    hide TenantLookups, SiteLookup;
    var join :| join in row.joins;
    assert PlaceOf(model, join) == place;
  }

  lemma GrantedThrough(store: Store, user: int, place: Place, home: Option<int>)
    requires store.deployment.mspEnabled && user in store.activeUsers && HomeSite(store, place.organization, home)
    ensures Granted(store, user, place) <==> Routable(store, user, place) && AtCurrentSite(store, home)
  {
    GrantedByScope(store, user, place);
    if m :| Routes(store, user, place, m) && AtCurrentSite(store, home) {
      assert HasMembership(store, user, m.Key());
    }
    if Granted(store, user, place) {
      var key := if HasMembership(store, user, Scope(place.organization.value, None))
                 then Scope(place.organization.value, None) else Scope(place.organization.value, place.campus);
      var m :| m in store.memberships && m.IsValidFor(user) && m.Key() == key
               && (store.deployment.multiSite ==> m.organization.siteId == Some(store.deployment.siteId));
      assert Routes(store, user, place, m);
    }
  }

  /** For every model and user: when events about a row are granted just as the row is queried. */
  lemma GrantedAgainstVisible(store: Store, model: Model, user: User, row: Row, place: Place, home: Option<int>)
    requires store.deployment.mspEnabled && user.isAuthenticated && user.id in store.activeUsers
    requires OnePlace(model, row, place) && HomeSite(store, place.organization, home)
    ensures (Visible(store, model, user, row) <==> Granted(store, user.id, place)) <==>
              (BypassesTenancy(user, store.deployment) || Covered(store, model, user.id, place) ==>
                 (AtCurrentSite(store, place.site)
                  <==> Routable(store, user.id, place) && AtCurrentSite(store, home)))
  {
    hide TenantLookups, SiteLookup, OnePlace, HomeSite;
    VisibleThrough(store, model, user, row, place);
    GrantedThrough(store, user.id, place, home);
    RoutableIsCovered(store, model, user.id, row, place);
  }

  lemma RoutableIsCovered(store: Store, model: Model, user: int, row: Row, place: Place)
    requires OnePlace(model, row, place)
    ensures Routable(store, user, place) ==> Covered(store, model, user, place)
    ensures (TenantLookups(model).Some? && TenantLookups(model).value.organization == "pk")
            || (Routable(store, user, place) <==> Covered(store, model, user, place))
  {
    var join :| join in row.joins;
    assert PlaceOf(model, join) == place;
    hide TenantLookups, SiteLookup;
    if m :| Routes(store, user, place, m) {
      assert Covering(store, model, user, place, m);
    }
    if m :| Covering(store, model, user, place, m) && TenantLookups(model).value.organization != "pk" {
      assert Routes(store, user, place, m);
    }
  }

  /**
   * Without the cross-organization view and for every model but the organization itself, events about a row are granted
   * exactly when it is queried, except for covered rows whose site and whose organization's site disagree about being
   * the current one. Outside multi-site mode there is no exception.
   */
  lemma GrantedExactlyWhenVisible(store: Store, model: Model, user: User, row: Row, place: Place, home: Option<int>)
    requires store.deployment.mspEnabled && user.isAuthenticated && user.id in store.activeUsers
    requires !BypassesTenancy(user, store.deployment)
    requires TenantLookups(model).Some? ==> TenantLookups(model).value.organization != "pk"
    requires OnePlace(model, row, place) && HomeSite(store, place.organization, home)
    ensures (Visible(store, model, user, row) <==> Granted(store, user.id, place)) <==>
              (store.deployment.multiSite && Covered(store, model, user.id, place) ==>
                 (place.site == Some(store.deployment.siteId) <==> home == Some(store.deployment.siteId)))
  {
    hide TenantLookups, SiteLookup, OnePlace, HomeSite, Visible, Granted, Covered, Routable;
    GrantedAgainstVisible(store, model, user, row, place, home);
    RoutableIsCovered(store, model, user.id, row, place);
  }

  // ------------------------------------------------------- where the two sites differ

  /** The model that events are about; `location` is the attribute that the lookup tables ask for. */
  const CHASSIS := Model("micboard.wirelesschassis", {"location"})

  lemma ChassisTenantPath()
    ensures TenantLookups(CHASSIS) == Some(RELATIONSHIP_TENANT_LOOKUPS[1].1)
  {
    FirstPresentAt(RELATIONSHIP_TENANT_LOOKUPS, CHASSIS.attributes, 1);
    hide FirstPresent;
  }

  lemma ChassisSitePath()
    ensures SiteLookup(CHASSIS) == Some(RELATIONSHIP_SITE_LOOKUPS[1].1)
  {
    FirstPresentAt(RELATIONSHIP_SITE_LOOKUPS, CHASSIS.attributes, 1);
    hide FirstPresent;
  }

  /** User 5 belongs to organization 7, whose site is `home`; the current site is 1. */
  function StoreWithHome(home: int): Store {
    Store(Deployment(true, true, false, 1), {5}, {}, [Membership(5, true, Organization(7, true, Some(home)), None)])
  }

  const MEMBER: User := User(5, true, false, Some(({}, {})))

  /** A chassis in a building of this organization at `site`. */
  function ChassisAt(organization: int, site: int): (r: Row)
    ensures OnePlace(CHASSIS, r, Place(Some(organization), None, Some(site)))
  {
    ChassisTenantPath();
    ChassisSitePath();
    Row({map["location__building__organization_id" := organization, "location__building__site_id" := site]})
  }

  lemma MemberOfSeven(home: int, site: int)
    ensures Visible(StoreWithHome(home), CHASSIS, MEMBER, ChassisAt(7, site)) <==> site == 1
    ensures Granted(StoreWithHome(home), MEMBER.id, Place(Some(7), None, Some(site))) <==> home == 1
  {
    var store, place := StoreWithHome(home), Place(Some(7), None, Some(site));
    ChassisTenantPath();
    hide TenantLookups, SiteLookup, OnePlace, ChassisAt;
    VisibleThrough(store, CHASSIS, MEMBER, ChassisAt(7, site), place);
    GrantedThrough(store, 5, place, Some(home));
    var m := store.memberships[0];
    assert Covering(store, CHASSIS, 5, place, m) && Routes(store, 5, place, m);
  }

  /** A building's site is stored apart from its organization's: events are granted about rows not queried... */
  lemma GrantedButNotVisible() returns (store: Store, row: Row, place: Place)
    ensures OnePlace(CHASSIS, row, place) && HomeSite(store, place.organization, Some(1))
    ensures store.deployment == Deployment(true, true, false, 1)
    ensures place.site == Some(2) && Granted(store, MEMBER.id, place) && !Visible(store, CHASSIS, MEMBER, row)
  {
    store, row, place := StoreWithHome(1), ChassisAt(7, 2), Place(Some(7), None, Some(2));
    MemberOfSeven(1, 2);
  }

  /** ... and rows that are queried without a grant of their events. */
  lemma VisibleButNotGranted() returns (store: Store, row: Row, place: Place)
    ensures OnePlace(CHASSIS, row, place) && HomeSite(store, place.organization, Some(2))
    ensures store.deployment == Deployment(true, true, false, 1)
    ensures place.site == Some(1) && !Granted(store, MEMBER.id, place) && Visible(store, CHASSIS, MEMBER, row)
  {
    store, row, place := StoreWithHome(2), ChassisAt(7, 1), Place(Some(7), None, Some(1));
    MemberOfSeven(2, 1);
  }

  // ----------------------------------------------------------------- wireless units

  /** Units ask for monitoring as well, events about them do not. */
  lemma UnitGrantedExactlyWhenVisible(store: Store, user: User, row: Row, place: Place, home: Option<int>)
    requires store.deployment.mspEnabled && user.isAuthenticated && user.id in store.activeUsers
    requires !BypassesTenancy(user, store.deployment)
    requires OnePlace(WIRELESS_UNIT, row, place) && HomeSite(store, place.organization, home)
    ensures (UnitKept(store.deployment, true, store.memberships, user, row) <==> Granted(store, user.id, place)) <==>
              (Covered(store, WIRELESS_UNIT, user.id, place) ==>
                 (AtCurrentSite(store, place.site)
                  && (user.isSuperuser || (user.monitoring.Some? && UnitMonitored(user.monitoring.value, row)))
                  <==> AtCurrentSite(store, home)))
  {
    UnitTenantPath();
    hide TenantLookups, SiteLookup, OnePlace, HomeSite, Granted, Covered, Routable, UnitMonitored;
    VisibleThrough(store, WIRELESS_UNIT, user, row, place);
    GrantedThrough(store, user.id, place, home);
    RoutableIsCovered(store, WIRELESS_UNIT, user.id, row, place);
  }

  lemma UnitTenantPath()
    ensures TenantLookups(WIRELESS_UNIT) == Some(RELATIONSHIP_TENANT_LOOKUPS[2].1)
  {
    FirstPresentAt(RELATIONSHIP_TENANT_LOOKUPS, WIRELESS_UNIT.attributes, 2);
    hide FirstPresent;
  }

  // -------------------------------------------------------------------- other modes

  /**
   * By sites alone the two agree on every row with a site, except on rows of the current site if `SITE_ID` is not
   * positive. An event without a site, which producers hold back, would reach the current site's users, who cannot
   * query the row.
   */
  lemma GrantedExactlyWhenVisibleBySite(store: Store, model: Model, user: User, row: Row, place: Place)
    requires !store.deployment.mspEnabled && store.deployment.multiSite
    requires user.isAuthenticated && user.id in store.activeUsers && OnePlace(model, row, place)
    ensures place.site.Some? && place.site.value != 0 ==>
              ((Visible(store, model, user, row) <==> Granted(store, user.id, place))
               <==> (place.site.value == store.deployment.siteId ==> store.deployment.siteId > 0))
    ensures place.site.None? || place.site.value == 0 ==>
              (Granted(store, user.id, place) <==> store.deployment.siteId > 0)
    ensures Visible(store, model, user, row) <==> place.site == Some(store.deployment.siteId)
  {
    hide TenantLookups, SiteLookup, OnePlace;
    SiteThrough(model, store.deployment.siteId, row, place);
    var groups := GroupsAt(store, place);
    assert groups != [] ==> groups[0] in groups;
  }

  /** At a single site everything or nothing is granted, by one permission, whatever the user may query. */
  lemma GrantedByPermission(store: Store, model: Model, user: User, row: Row, place: Place)
    requires !store.deployment.mspEnabled && !store.deployment.multiSite
    requires user.isAuthenticated && user.id in store.activeUsers
    ensures Granted(store, user.id, place) <==> user.id in store.globalViewers
    ensures (Visible(store, model, user, row) <==> Granted(store, user.id, place)) <==>
              (user.id in store.globalViewers
               <==> (BypassesTenancy(user, store.deployment) || "location" !in model.attributes
                     || user.monitoring.None? || Monitored(user.monitoring.value, row)))
  {
    hide Monitored;
    var groups := GroupsAt(store, place);
    assert groups[0] in groups;
  }
}
