/** Tenant-scoped querysets: lookups, membership filters and the per-user restriction. */
module Tenancy {
  import opened Options

  // ------------------------------------------------------------ persisted state

  datatype Organization = Organization(id: int, isActive: bool, siteId: Option<int>)

  datatype Campus = Campus(id: int, organizationId: int, isActive: bool)

  datatype Membership = Membership(userId: int, isActive: bool, organization: Organization, campus: Option<Campus>)
  {
    /** Active and internally consistent, as both the querysets and the socket routes require. */
    predicate IsValidFor(user: int) {
      && userId == user && isActive && organization.isActive
      && (campus.Some? ==> campus.value.isActive && campus.value.organizationId == organization.id)
    }

    /** `values_list("organization_id", "campus_id")` */
    function Key(): Scope {
      Scope(organization.id, if campus.Some? then Some(campus.value.id) else None)
    }
  }

  datatype Scope = Scope(organizationId: int, campusId: Option<int>)

  datatype Deployment = Deployment(mspEnabled: bool, multiSite: bool, crossOrgView: bool, siteId: int)

  function MembershipKeys(memberships: seq<Membership>, user: int): (keys: seq<Scope>)
    ensures forall k :: k in keys <==> exists m :: m in memberships && m.IsValidFor(user) && m.Key() == k
  {
    if memberships == [] then [] else
      var rest := MembershipKeys(memberships[1..], user);
      assert memberships == [memberships[0]] + memberships[1..];
      if memberships[0].IsValidFor(user) then [memberships[0].Key()] + rest else rest
  }

  // ------------------------------------------------------------------ querysets

  /** A `Q` object over lookup paths. */
  datatype Q =
    | Equals(lookup: string, value: int)
    | OneOf(lookup: string, values: set<int>)
    | IsNull(lookup: string)
    | And(left: Q, right: Q)
    | Or(left: Q, right: Q)

  /** The values that one combination of joined rows gives to lookup paths; an absent path is NULL. */
  type Join = map<string, int>

  /** A row with every combination of related rows that its joins can produce. */
  datatype Row = Row(joins: set<Join>)

  predicate Holds(q: Q, join: Join) {
    match q
    case Equals(lookup, value) => lookup in join && join[lookup] == value
    case OneOf(lookup, values) => lookup in join && join[lookup] in values
    case IsNull(lookup) => lookup !in join
    case And(left, right) => Holds(left, join) && Holds(right, join)
    case Or(left, right) => Holds(left, join) || Holds(right, join)
  }

  /** `none()`, or a chain of `filter` calls; each call may use a join of its own. */
  datatype QuerySet = Nothing | Filtered(filters: seq<Q>)
  {
    function Filter(q: Q): QuerySet {
      match this
      case Nothing => Nothing
      case Filtered(filters) => Filtered(filters + [q])
    }

    predicate Returns(row: Row) {
      Filtered? && forall q :: q in filters ==> Matches(q, row)
    }
  }

  predicate Matches(q: Q, row: Row) {
    exists join :: join in row.joins && Holds(q, join)
  }

  lemma FilterReturns(queryset: QuerySet, q: Q, row: Row)
    ensures queryset.Filter(q).Returns(row) <==> queryset.Returns(row) && Matches(q, row)
  {
    if queryset.Filtered? {
      assert q in queryset.filters + [q];
      assert forall p :: p in queryset.filters ==> p in queryset.filters + [q];
    }
  }

  // -------------------------------------------------------------------- lookups

  datatype Model = Model(labelLower: string, attributes: set<string>)

  datatype Lookups = Lookups(organization: string, campus: Option<string>)

  const EXPLICIT_TENANT_LOOKUPS: map<string, Lookups> := map[
    "micboard_multitenancy.organization" := Lookups("pk", None),
    "micboard_multitenancy.campus" := Lookups("organization_id", Some("pk")),
    "micboard.alert" := Lookups("channel__chassis__location__building__organization_id",
                                Some("channel__chassis__location__building__campus_id")),
    "micboard.chargerslot" := Lookups("charger__location__building__organization_id",
                                      Some("charger__location__building__campus_id")),
    "micboard.devicemovementlog" := Lookups("device__location__building__organization_id",
                                            Some("device__location__building__campus_id")),
    "micboard.wallsection" := Lookups("wall__location__building__organization_id",
                                      Some("wall__location__building__campus_id"))
  ]

  const EXPLICIT_SITE_LOOKUPS: map<string, string> := map[
    "micboard.alert" := "channel__chassis__location__building__site_id",
    "micboard.chargerslot" := "charger__location__building__site_id",
    "micboard.devicemovementlog" := "device__location__building__site_id",
    "micboard.wallsection" := "wall__location__building__site_id"
  ]

  const RELATIONSHIP_TENANT_LOOKUPS: seq<(string, Lookups)> := [
    ("building", Lookups("building__organization_id", Some("building__campus_id"))),
    ("location", Lookups("location__building__organization_id", Some("location__building__campus_id"))),
    ("base_chassis", Lookups("base_chassis__location__building__organization_id",
                             Some("base_chassis__location__building__campus_id"))),
    ("chassis", Lookups("chassis__location__building__organization_id",
                        Some("chassis__location__building__campus_id"))),
    ("wireless_unit", Lookups("wireless_unit__base_chassis__location__building__organization_id",
                              Some("wireless_unit__base_chassis__location__building__campus_id"))),
    ("assignments", Lookups("assignments__wireless_unit__base_chassis__location__building__organization_id",
                            Some("assignments__wireless_unit__base_chassis__location__building__campus_id"))),
    ("campus", Lookups("campus__organization_id", Some("campus_id")))
  ]

  const RELATIONSHIP_SITE_LOOKUPS: seq<(string, string)> := [
    ("building", "building__site_id"),
    ("location", "location__building__site_id"),
    ("base_chassis", "base_chassis__location__building__site_id"),
    ("chassis", "chassis__location__building__site_id"),
    ("wireless_unit", "wireless_unit__base_chassis__location__building__site_id"),
    ("assignments", "assignments__wireless_unit__base_chassis__location__building__site_id"),
    ("organization", "organization__site_id"),
    ("campus", "campus__organization__site_id")
  ]

  function FirstPresent<T>(table: seq<(string, T)>, attributes: set<string>): Option<T> {
    if table == [] then None
    else if table[0].0 in attributes then Some(table[0].1)
    else FirstPresent(table[1..], attributes)
  }

  function TenantLookups(model: Model): Option<Lookups> {
    if model.labelLower in EXPLICIT_TENANT_LOOKUPS then Some(EXPLICIT_TENANT_LOOKUPS[model.labelLower])
    else if "organization_id" in model.attributes then
      Some(Lookups("organization_id", if "campus_id" in model.attributes then Some("campus_id") else None))
    else FirstPresent(RELATIONSHIP_TENANT_LOOKUPS, model.attributes)
  }

  function SiteLookup(model: Model): Option<string> {
    if "site_id" in model.attributes then Some("site_id")
    else if model.labelLower in EXPLICIT_SITE_LOOKUPS then Some(EXPLICIT_SITE_LOOKUPS[model.labelLower])
    else FirstPresent(RELATIONSHIP_SITE_LOOKUPS, model.attributes)
  }

  // ----------------------------------------------------------- the restrictions

  /** The row belongs to this Django Site. */
  ghost predicate AtSite(model: Model, siteId: int, row: Row) {
    SiteLookup(model).Some? && Matches(Equals(SiteLookup(model).value, siteId), row)
  }

  method ForSite(queryset: QuerySet, model: Model, deployment: Deployment, requested: Option<int>)
    returns (r: QuerySet)
    ensures !deployment.multiSite ==> r == queryset
    ensures deployment.multiSite ==>
              var siteId := if requested.Some? && requested.value != 0 then requested.value else deployment.siteId;
              forall row :: r.Returns(row) <==> queryset.Returns(row) && AtSite(model, siteId, row)
  {
    if !deployment.multiSite {
      return queryset;
    }
    var siteId := if requested.Some? && requested.value != 0 then requested.value else deployment.siteId;
    var lookup := SiteLookup(model);
    if lookup.None? {
      return Nothing;
    }
    r := queryset.Filter(Equals(lookup.value, siteId));
    forall row ensures r.Returns(row) <==> queryset.Returns(row) && AtSite(model, siteId, row) {
      FilterReturns(queryset, Equals(lookup.value, siteId), row);
    }
  }

  /** One combination of joined rows is covered by one membership key. */
  predicate Covers(lookups: Lookups, key: Scope, join: Join) {
    && lookups.organization in join && join[lookups.organization] == key.organizationId
    && match key.campusId
       case None => true
       case Some(campus) =>
         match lookups.campus
         case Some(lookup) => lookup in join && join[lookup] == campus
         case None => lookups.organization == "pk"
  }

  ghost predicate CoveredBySome(lookups: Lookups, keys: seq<Scope>, join: Join) {
    exists key :: key in keys && Covers(lookups, key, join)
  }

  /** Some joined row is covered by some membership. */
  ghost predicate InScope(model: Model, keys: seq<Scope>, row: Row) {
    && TenantLookups(model).Some?
    && exists join :: join in row.joins && CoveredBySome(TenantLookups(model).value, keys, join)
  }

  /** `None` is the filter of a loop that has not yet met a usable membership. */
  predicate Selects(filter: Option<Q>, join: Join) {
    filter.Some? && Holds(filter.value, join)
  }

  ghost predicate FoldOf(lookups: Lookups, keys: seq<Scope>, filter: Option<Q>) {
    forall join {:trigger Selects(filter, join)} {:trigger CoveredBySome(lookups, keys, join)} ::
      Selects(filter, join) <==> CoveredBySome(lookups, keys, join)
  }

  lemma CoveredByOneMore(lookups: Lookups, keys: seq<Scope>, key: Scope, join: Join)
    ensures CoveredBySome(lookups, keys + [key], join)
            <==> CoveredBySome(lookups, keys, join) || Covers(lookups, key, join)
  {
    assert key in keys + [key];
    assert forall k :: k in keys + [key] <==> k in keys || k == key;
  }

  function Disjoin(filter: Option<Q>, scope: Q): Q {
    if filter.None? then scope else Or(filter.value, scope)
  }

  lemma FoldScope(lookups: Lookups, keys: seq<Scope>, key: Scope, filter: Option<Q>, scope: Q)
    requires FoldOf(lookups, keys, filter)
    requires forall join :: Holds(scope, join) <==> Covers(lookups, key, join)
    ensures FoldOf(lookups, keys + [key], Some(Disjoin(filter, scope)))
  {
    var after := Some(Disjoin(filter, scope));
    forall join ensures Selects(after, join) <==> CoveredBySome(lookups, keys + [key], join) {
      CoveredByOneMore(lookups, keys, key, join);
      assert Selects(filter, join) <==> CoveredBySome(lookups, keys, join);
    }
  }

  lemma FoldSkip(lookups: Lookups, keys: seq<Scope>, key: Scope, filter: Option<Q>)
    requires FoldOf(lookups, keys, filter)
    requires forall join :: !Covers(lookups, key, join)
    ensures FoldOf(lookups, keys + [key], filter)
  {
    forall join ensures Selects(filter, join) <==> CoveredBySome(lookups, keys + [key], join) {
      CoveredByOneMore(lookups, keys, key, join);
    }
  }

  method ForMemberships(queryset: QuerySet, model: Model, keys: seq<Scope>) returns (r: QuerySet)
    ensures forall row :: r.Returns(row) <==> queryset.Returns(row) && InScope(model, keys, row)
  {
    var found := TenantLookups(model);
    if found.None? {
      return Nothing;
    }
    hide TenantLookups;
    var lookups := found.value;
    var tenantFilter: Option<Q> := None;
    for i := 0 to |keys|
      invariant FoldOf(lookups, keys[..i], tenantFilter)
    {
      var key := keys[i];
      assert keys[..i + 1] == keys[..i] + [key];
      var scope := Equals(lookups.organization, key.organizationId);
      if key.campusId.Some? {
        if lookups.campus.None? {
          if lookups.organization != "pk" {
            FoldSkip(lookups, keys[..i], key, tenantFilter);
            continue;
          }
        } else {
          scope := And(scope, Equals(lookups.campus.value, key.campusId.value));
        }
      }
      FoldScope(lookups, keys[..i], key, tenantFilter, scope);
      tenantFilter := Some(Disjoin(tenantFilter, scope));
    }
    assert keys[..|keys|] == keys;
    if tenantFilter.None? {
      assert forall join :: !Selects(tenantFilter, join);
      return Nothing;
    }
    r := queryset.Filter(tenantFilter.value);
    forall row ensures r.Returns(row) <==> queryset.Returns(row) && InScope(model, keys, row) {
      FilterReturns(queryset, tenantFilter.value, row);
      assert forall join :: Holds(tenantFilter.value, join) <==> Selects(tenantFilter, join);
    }
  }

  // ------------------------------------------------------------------- per user

  /** `monitoring` holds the active groups' ids and their whole-building ids, when the user has such groups. */
  datatype User = User(id: int, isAuthenticated: bool, isSuperuser: bool, monitoring: Option<(set<int>, set<int>)>)

  predicate BypassesTenancy(user: User, deployment: Deployment) {
    user.isSuperuser && deployment.crossOrgView
  }

  /** The row is at a location of one of the groups, or in a building that some group covers whole. */
  ghost predicate Monitored(monitoring: (set<int>, set<int>), row: Row) {
    exists join :: join in row.joins
      && (("location__monitoring_groups" in join && join["location__monitoring_groups"] in monitoring.0)
          || ("location__building_id" in join && join["location__building_id"] in monitoring.1))
  }

  lemma MonitoredMatches(groups: set<int>, buildings: set<int>, row: Row)
    ensures Matches(Or(OneOf("location__monitoring_groups", groups), OneOf("location__building_id", buildings)), row)
            <==> Monitored((groups, buildings), row)
  {
    var atLocation := OneOf("location__monitoring_groups", groups);
    var inBuilding := OneOf("location__building_id", buildings);
    forall join: Join
      ensures Holds(Or(atLocation, inBuilding), join) <==> Holds(atLocation, join) || Holds(inBuilding, join)
    {
    }
    forall join: Join ensures Holds(atLocation, join) <==>
        "location__monitoring_groups" in join && join["location__monitoring_groups"] in groups {
    }
    forall join: Join ensures Holds(inBuilding, join) <==>
        "location__building_id" in join && join["location__building_id"] in buildings {
    }
  }

  /** The rows a signed-in user may have, by the modes; `ForUser` is proved to keep exactly these. */
  ghost predicate KeptFor(model: Model, deployment: Deployment, tenancyInstalled: bool,
                          memberships: seq<Membership>, user: User, row: Row) {
    && user.isAuthenticated
    && (deployment.multiSite ==> AtSite(model, deployment.siteId, row))
    && (BypassesTenancy(user, deployment)
        || if deployment.mspEnabled then tenancyInstalled && InScope(model, MembershipKeys(memberships, user.id), row)
           else deployment.multiSite || "location" !in model.attributes || user.monitoring.None?
                || Monitored(user.monitoring.value, row))
  }

  method ForUser(queryset: QuerySet, model: Model, deployment: Deployment, tenancyInstalled: bool,
                 memberships: seq<Membership>, user: User) returns (r: QuerySet)
    ensures forall row :: r.Returns(row) <==>
              queryset.Returns(row) && KeptFor(model, deployment, tenancyInstalled, memberships, user, row)
    ensures !user.isAuthenticated ==> r.Nothing?
    ensures forall row :: r.Returns(row) ==> queryset.Returns(row)
    // Site isolation, whatever the user and the other modes.
    ensures deployment.multiSite ==> forall row :: r.Returns(row) ==> AtSite(model, deployment.siteId, row)
    // Tenant isolation, exactly.
    ensures user.isAuthenticated && deployment.mspEnabled && tenancyInstalled && !BypassesTenancy(user, deployment) ==>
              forall row :: r.Returns(row) <==>
                queryset.Returns(row)
                && InScope(model, MembershipKeys(memberships, user.id), row)
                && (deployment.multiSite ==> AtSite(model, deployment.siteId, row))
    ensures deployment.mspEnabled && !tenancyInstalled && !BypassesTenancy(user, deployment) ==> r.Nothing?
    // The remaining modes, exactly.
    ensures user.isAuthenticated && deployment.multiSite
            && (BypassesTenancy(user, deployment) || !deployment.mspEnabled) ==>
              forall row :: r.Returns(row) <==> queryset.Returns(row) && AtSite(model, deployment.siteId, row)
    ensures user.isAuthenticated && BypassesTenancy(user, deployment) && !deployment.multiSite ==> r == queryset
    ensures user.isAuthenticated && !BypassesTenancy(user, deployment)
            && !deployment.mspEnabled && !deployment.multiSite ==>
              if "location" in model.attributes && user.monitoring.Some?
              then forall row :: r.Returns(row) <==> queryset.Returns(row) && Monitored(user.monitoring.value, row)
              else r == queryset
  {
    hide TenantLookups, SiteLookup, Matches, Holds;
    if !user.isAuthenticated {
      return Nothing;
    }
    if BypassesTenancy(user, deployment) {
      if deployment.multiSite {
        r := ForSite(queryset, model, deployment, None);
        return;
      }
      return queryset;
    }
    if deployment.mspEnabled {
      if !tenancyInstalled {
        return Nothing;
      }
      var keys := MembershipKeys(memberships, user.id);
      if keys == [] {
        return Nothing;
      }
      r := ForMemberships(queryset, model, keys);
      if deployment.multiSite {
        r := ForSite(r, model, deployment, None);
      }
      return;
    }
    if deployment.multiSite {
      r := ForSite(queryset, model, deployment, None);
      return;
    }
    if "location" in model.attributes && user.monitoring.Some? {
      var (groups, buildings) := user.monitoring.value;
      var q := Or(OneOf("location__monitoring_groups", groups), OneOf("location__building_id", buildings));
      r := queryset.Filter(q);
      forall row ensures r.Returns(row) <==> queryset.Returns(row) && Monitored(user.monitoring.value, row) {
        FilterReturns(queryset, q, row);
        MonitoredMatches(groups, buildings, row);
      }
      return;
    }
    return queryset;
  }

  function Lookup(join: Join, path: string): Option<int> {
    if path in join then Some(join[path]) else None
  }

  /**
   * By fields: what a user gets in membership mode is what some active membership of that very user covers, in an
   * active organization and, if limited to a campus, to an active one of that organization. Only superusers with the
   * cross-organization view need none.
   */
  lemma TenantIsolation(model: Model, deployment: Deployment, tenancyInstalled: bool, memberships: seq<Membership>,
                        user: User, row: Row)
    requires user.isAuthenticated && deployment.mspEnabled
    ensures KeptFor(model, deployment, tenancyInstalled, memberships, user, row) <==>
              (deployment.multiSite ==> AtSite(model, deployment.siteId, row))
              && ((user.isSuperuser && deployment.crossOrgView)
                  || (tenancyInstalled && TenantLookups(model).Some?
                      && exists m, join :: m in memberships && join in row.joins
                           && m.userId == user.id && m.isActive && m.organization.isActive
                           && (m.campus.Some? ==> m.campus.value.isActive
                                                  && m.campus.value.organizationId == m.organization.id)
                           && Lookup(join, TenantLookups(model).value.organization) == Some(m.organization.id)
                           && (m.campus.None?
                               || (if TenantLookups(model).value.campus.Some?
                                   then Lookup(join, TenantLookups(model).value.campus.value) == Some(m.campus.value.id)
                                   else TenantLookups(model).value.organization == "pk"))))
  {
    hide TenantLookups, SiteLookup, AtSite;
    var keys := MembershipKeys(memberships, user.id);
    if TenantLookups(model).Some? {
      var lookups := TenantLookups(model).value;
      if InScope(model, keys, row) {
        var join :| join in row.joins && CoveredBySome(lookups, keys, join);
        var key :| key in keys && Covers(lookups, key, join);
        var m :| m in memberships && m.IsValidFor(user.id) && m.Key() == key;
        assert m in memberships && join in row.joins;
      }
      forall m, join | m in memberships && join in row.joins && m.IsValidFor(user.id) && Covers(lookups, m.Key(), join)
        ensures InScope(model, keys, row)
      {
        assert m.Key() in keys && CoveredBySome(lookups, keys, join);
      }
    }
  }

  /** A membership that is another user's, inactive or inconsistent may as well be absent. */
  lemma {:induction false} KeysWithout(a: seq<Membership>, m: Membership, b: seq<Membership>, user: int)
    requires m.userId != user || !m.isActive || !m.organization.isActive
             || (m.campus.Some? && (!m.campus.value.isActive || m.campus.value.organizationId != m.organization.id))
    ensures MembershipKeys(a + [m] + b, user) == MembershipKeys(a + b, user)
  {
    if a == [] {
      assert a + [m] + b == [m] + b && ([m] + b)[1..] == b && a + b == b;
    } else {
      KeysWithout(a[1..], m, b, user);
      assert (a + [m] + b)[1..] == a[1..] + [m] + b && (a + b)[1..] == a[1..] + b;
    }
  }

  lemma KeptWithout(model: Model, deployment: Deployment, tenancyInstalled: bool, a: seq<Membership>, m: Membership,
                    b: seq<Membership>, user: User, row: Row)
    requires m.userId != user.id || !m.isActive || !m.organization.isActive
             || (m.campus.Some? && (!m.campus.value.isActive || m.campus.value.organizationId != m.organization.id))
    ensures KeptFor(model, deployment, tenancyInstalled, a + [m] + b, user, row)
            <==> KeptFor(model, deployment, tenancyInstalled, a + b, user, row)
  {
    hide MembershipKeys, InScope, AtSite, Monitored;
    KeysWithout(a, m, b, user.id);
  }

  // ------------------------------------------------------ tenant and site together

  /** One and the same combination of joined rows meets both restrictions. */
  ghost predicate CoveredAtSite(model: Model, keys: seq<Scope>, siteId: int, row: Row) {
    && TenantLookups(model).Some? && SiteLookup(model).Some?
    && exists join :: join in row.joins && CoveredBySome(TenantLookups(model).value, keys, join)
                      && Holds(Equals(SiteLookup(model).value, siteId), join)
  }

  /** `j` carries all that `i` says about the owner. */
  predicate SameOwner(lookups: Lookups, i: Join, j: Join) {
    && lookups.organization in i && lookups.organization in j && j[lookups.organization] == i[lookups.organization]
    && (lookups.campus.Some? && lookups.campus.value in i
        ==> lookups.campus.value in j && j[lookups.campus.value] == i[lookups.campus.value])
  }

  /** Each owner and each site that the row shows is shown by one and the same combination of joined rows. */
  ghost predicate Combines(model: Model, row: Row) {
    TenantLookups(model).Some? && SiteLookup(model).Some? ==>
      forall i, j {:trigger JoinedAt(model, row, i, j)} ::
        (i in row.joins && TenantLookups(model).value.organization in i
         && j in row.joins && SiteLookup(model).value in j)
        ==> JoinedAt(model, row, i, j)
  }

  ghost predicate JoinedAt(model: Model, row: Row, i: Join, j: Join)
    requires TenantLookups(model).Some? && SiteLookup(model).Some? && SiteLookup(model).value in j
  {
    exists k :: k in row.joins && SameOwner(TenantLookups(model).value, i, k)
                && Holds(Equals(SiteLookup(model).value, j[SiteLookup(model).value]), k)
  }

  /** Both filters apply: membership mode at several sites, and no cross-organization view. */
  predicate FiltersBoth(deployment: Deployment, user: User) {
    user.isAuthenticated && deployment.mspEnabled && deployment.multiSite && !BypassesTenancy(user, deployment)
  }

  /** Whoever asks, at whatever site: the row is kept exactly when one join meets both restrictions. */
  ghost predicate FiltersCombine(model: Model, row: Row) {
    forall deployment, memberships, user | FiltersBoth(deployment, user) ::
      KeptFor(model, deployment, true, memberships, user, row)
      <==> CoveredAtSite(model, MembershipKeys(memberships, user.id), deployment.siteId, row)
  }

  lemma FiltersCombineExactly(model: Model, row: Row)
    ensures FiltersCombine(model, row) <==> Combines(model, row)
  {
    hide TenantLookups, SiteLookup, MembershipKeys, BypassesTenancy;
    if Combines(model, row) {
      forall deployment, memberships, user | FiltersBoth(deployment, user)
        ensures KeptFor(model, deployment, true, memberships, user, row)
                <==> CoveredAtSite(model, MembershipKeys(memberships, user.id), deployment.siteId, row)
      {
        CombinedCovers(model, MembershipKeys(memberships, user.id), deployment.siteId, row);
      }
    }
    if FiltersCombine(model, row) && TenantLookups(model).Some? && SiteLookup(model).Some? {
      forall i, j | i in row.joins && TenantLookups(model).value.organization in i
                    && j in row.joins && SiteLookup(model).value in j
        ensures JoinedAt(model, row, i, j)
      {
        CoveredCombines(model, row, i, j);
      }
    }
  }

  lemma CombinedCovers(model: Model, keys: seq<Scope>, siteId: int, row: Row)
    requires Combines(model, row)
    ensures InScope(model, keys, row) && AtSite(model, siteId, row) <==> CoveredAtSite(model, keys, siteId, row)
  {
    hide TenantLookups, SiteLookup;
    if InScope(model, keys, row) && AtSite(model, siteId, row) {
      var lookups, site := TenantLookups(model).value, SiteLookup(model).value;
      var i :| i in row.joins && CoveredBySome(lookups, keys, i);
      var j :| j in row.joins && Holds(Equals(site, siteId), j);
      var key :| key in keys && Covers(lookups, key, i);
      assert JoinedAt(model, row, i, j);
      var k :| k in row.joins && SameOwner(lookups, i, k) && Holds(Equals(site, j[site]), k);
      assert Covers(lookups, key, k);
    }
  }

  /** A user whose one membership is exactly this scope. */
  function MemberOf(key: Scope): (m: Membership)
    ensures m.IsValidFor(0) && m.Key() == key
  {
    Membership(0, true, Organization(key.organizationId, true, None),
               if key.campusId.Some? then Some(Campus(key.campusId.value, key.organizationId, true)) else None)
  }

  lemma CoveredCombines(model: Model, row: Row, i: Join, j: Join)
    requires TenantLookups(model).Some? && SiteLookup(model).Some? && FiltersCombine(model, row)
    requires i in row.joins && TenantLookups(model).value.organization in i
    requires j in row.joins && SiteLookup(model).value in j
    ensures JoinedAt(model, row, i, j)
  {
    hide TenantLookups, SiteLookup;
    var lookups, site := TenantLookups(model).value, SiteLookup(model).value;
    var key := Scope(i[lookups.organization],
                     if lookups.campus.Some? && lookups.campus.value in i then Some(i[lookups.campus.value]) else None);
    var memberships, user := [MemberOf(key)], User(0, true, false, None);
    var deployment := Deployment(true, true, false, j[site]);
    var keys := MembershipKeys(memberships, 0);
    assert memberships[0] in memberships;
    assert key in keys && forall k :: k in keys ==> k == key;
    assert Covers(lookups, key, i) && CoveredBySome(lookups, keys, i);
    assert Holds(Equals(site, j[site]), j);
    assert FiltersBoth(deployment, user) && KeptFor(model, deployment, true, memberships, user, row);
    assert CoveredAtSite(model, keys, j[site], row);
    var k :| k in row.joins && CoveredBySome(lookups, keys, k) && Holds(Equals(site, j[site]), k);
    assert SameOwner(lookups, i, k);
  }

  /** The organization, campus and site that one combination of joined rows shows. */
  datatype Place = Place(organization: Option<int>, campus: Option<int>, site: Option<int>)

  function PlaceOf(model: Model, join: Join): Place {
    var lookups, site := TenantLookups(model), SiteLookup(model);
    Place(if lookups.Some? then Lookup(join, lookups.value.organization) else None,
          if lookups.Some? && lookups.value.campus.Some? then Lookup(join, lookups.value.campus.value) else None,
          if site.Some? then Lookup(join, site.value) else None)
  }

  /** All joins show one place, as over forward relations. */
  ghost predicate OnePlace(model: Model, row: Row, place: Place) {
    row.joins != {} && forall join :: join in row.joins ==> PlaceOf(model, join) == place
  }

  /** So only a to-many path, which is `assignments` alone, can split the filters. */
  lemma OnePlaceCombines(model: Model, row: Row, place: Place)
    requires OnePlace(model, row, place)
    ensures FiltersCombine(model, row)
  {
    hide TenantLookups, SiteLookup, FiltersCombine;
    if TenantLookups(model).Some? && SiteLookup(model).Some? {
      var lookups, site := TenantLookups(model).value, SiteLookup(model).value;
      forall i, j | i in row.joins && lookups.organization in i && j in row.joins && site in j
        ensures JoinedAt(model, row, i, j)
      {
        assert PlaceOf(model, i) == PlaceOf(model, j);
        assert SameOwner(lookups, i, j) && Holds(Equals(site, j[site]), j);
      }
    }
    FiltersCombineExactly(model, row);
  }

  lemma {:induction false} FirstPresentAt<T>(table: seq<(string, T)>, attributes: set<string>, k: nat)
    requires k < |table| && table[k].0 in attributes && forall j :: 0 <= j < k ==> table[j].0 !in attributes
    ensures FirstPresent(table, attributes) == Some(table[k].1)
  {
    if k > 0 {
      FirstPresentAt(table[1..], attributes, k - 1);
    }
  }
}
