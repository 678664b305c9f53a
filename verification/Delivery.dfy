/** What an open connection is sent about a row, compared with what the same user may query at that moment. */
module Delivery {
  import opened Options
  import opened Tenancy
  import opened Consumers
  import opened ModelQuerysets
  import opened Routing

  // ------------------------------------------------------------ publishing to groups

  /** `_send_to_groups`: the event goes to each group in turn. */
  function Publications(groups: seq<Group>, event: Event, store: Store): seq<(Op, Store)> {
    seq(|groups|, i requires 0 <= i < |groups| => (Publish(groups[i], event), store))
  }

  /** One copy for each of the groups that is joined. */
  function Copies(groups: seq<Group>, joined: seq<Group>, event: Event, store: Store): seq<Sent> {
    if groups == [] then []
    else
      var n := |groups| - 1;
      Copies(groups[..n], joined, event, store)
      + (if groups[n] in joined then [Sent(PayloadOf(event), Some(groups[n]), joined, store)] else [])
  }

  predicate SomeJoined(groups: seq<Group>, joined: seq<Group>) {
    exists g :: g in groups && g in joined
  }

  /** After any run: a copy for each joined group if all joined groups are granted, otherwise nothing and revocation. */
  lemma {:induction false} PublishedExactly(user: Option<ScopeUser>, steps: seq<(Op, Store)>, groups: seq<Group>,
                                            event: Event, store: Store)
    requires Lifecycle(steps + Publications(groups, event, store))
    ensures var s, t := Run(user, steps), Run(user, steps + Publications(groups, event, store));
            if MayReceive(user, store, s.joined) then t == s.(sent := s.sent + Copies(groups, s.joined, event, store))
            else if SomeJoined(groups, s.joined) then t.sent == s.sent && t.joined == [] && t.inLayer == {}
            else t == s
  {
    hide MayReceive, Run;
    if groups == [] {
      assert steps + Publications(groups, event, store) == steps;
    } else {
      var n := |groups| - 1;
      var front := steps + Publications(groups[..n], event, store);
      assert steps + Publications(groups, event, store) == front + [(Publish(groups[n], event), store)];
      LifecyclePrefix(front + [(Publish(groups[n], event), store)], |front|);
      assert (front + [(Publish(groups[n], event), store)])[..|front|] == front;
      PublishedExactly(user, steps, groups[..n], event, store);
      ForwardedExactly(user, front, groups[n], event, store);
      assert groups == groups[..n] + [groups[n]];
    }
  }

  // ------------------------------------------------------------------ one event, one row

  /** The run with one event about this place published at its end. */
  function Published(steps: seq<(Op, Store)>, place: Place, event: Event, store: Store): seq<(Op, Store)> {
    steps + Publications(GroupsAt(store, place), event, store)
  }

  /** The client is sent the event. */
  ghost predicate Delivered(user: Option<ScopeUser>, steps: seq<(Op, Store)>, place: Place, event: Event,
                            store: Store) {
    |Run(user, Published(steps, place, event, store)).sent| > |Run(user, steps).sent|
  }

  /** The connection's groups are all still granted, and one of them gets the events about this place. */
  ghost predicate Reached(user: Option<ScopeUser>, store: Store, joined: seq<Group>, place: Place) {
    MayReceive(user, store, joined) && SomeJoined(GroupsAt(store, place), joined)
  }

  lemma {:induction false} CopiesCount(groups: seq<Group>, joined: seq<Group>, event: Event, store: Store)
    ensures |Copies(groups, joined, event, store)| > 0 <==> SomeJoined(groups, joined)
    ensures |Copies(groups, joined, event, store)| <= |groups|
    ensures |Copies(groups, joined, event, store)| == |groups| <==> forall g :: g in groups ==> g in joined
  {
    if groups != [] {
      var n := |groups| - 1;
      CopiesCount(groups[..n], joined, event, store);
      assert groups == groups[..n] + [groups[n]];
    }
  }

  lemma DeliveredExactly(user: Option<ScopeUser>, steps: seq<(Op, Store)>, place: Place, event: Event, store: Store)
    requires Lifecycle(Published(steps, place, event, store))
    ensures Delivered(user, steps, place, event, store) <==> Reached(user, store, Run(user, steps).joined, place)
  {
    hide MayReceive, Run, GroupsAt, Lifecycle;
    PublishedExactly(user, steps, GroupsAt(store, place), event, store);
    CopiesCount(GroupsAt(store, place), Run(user, steps).joined, event, store);
  }

  /** An event about a campus is sent twice exactly to those who joined both it and its organization. */
  lemma SentTwiceExactly(user: Option<ScopeUser>, steps: seq<(Op, Store)>, place: Place, event: Event, store: Store)
    requires Lifecycle(Published(steps, place, event, store))
    ensures var s, t := Run(user, steps), Run(user, Published(steps, place, event, store));
            && |t.sent| <= |s.sent| + 2
            && (|t.sent| == |s.sent| + 2 <==>
                  store.deployment.mspEnabled && place.organization.Some? && place.campus.Some?
                  && MayReceive(user, store, s.joined) && OfOrganization(place.organization.value) in s.joined
                  && OfCampus(place.organization.value, place.campus.value) in s.joined)
  {
    hide MayReceive, Run, Lifecycle;
    var groups := GroupsAt(store, place);
    PublishedExactly(user, steps, groups, event, store);
    CopiesCount(groups, Run(user, steps).joined, event, store);
    if |groups| == 2 {
      assert forall g :: g in groups <==> g == groups[0] || g == groups[1];
    }
  }

  // -------------------------------------------------------------- delivery and grants

  lemma ReachedIsGranted(user: Option<ScopeUser>, store: Store, joined: seq<Group>, place: Place)
    requires Reached(user, store, joined, place)
    ensures user.Some? && user.value.pk.Some? && Granted(store, user.value.pk.value, place)
  {
    hide Authorized, GroupsAt;
  }

  /** All joined groups are granted, and whatever is granted is joined, itself or as part of its organization. */
  ghost predicate UpToDate(user: Option<ScopeUser>, store: Store, joined: seq<Group>) {
    && MayReceive(user, store, joined)
    && forall g :: Authorized(store, user.value.pk.value, g) ==> Within(g, joined)
  }

  predicate Within(g: Group, joined: seq<Group>) {
    g in joined || (g.OfCampus? && OfOrganization(g.organizationId) in joined)
  }

  function PlaceFor(g: Group): Place {
    match g
    case Everyone => Place(None, None, None)
    case OfSite(site) => Place(None, None, Some(site))
    case OfOrganization(organization) => Place(Some(organization), None, None)
    case OfCampus(organization, campus) => Place(Some(organization), Some(campus), None)
  }

  lemma GroupOfItsPlace(store: Store, user: int, g: Group)
    requires Authorized(store, user, g)
    ensures GroupsAt(store, PlaceFor(g)) == if g.OfCampus? then [OfOrganization(g.organizationId), g] else [g]
  {
    hide HasMembership;
  }

  lemma WithinReaches(store: Store, user: int, g: Group, joined: seq<Group>, place: Place)
    requires Authorized(store, user, g) && g in GroupsAt(store, place) && Within(g, joined)
    ensures SomeJoined(GroupsAt(store, place), joined)
  {
    hide HasMembership;
    if g !in joined {
      assert GroupsAt(store, place)[0] == OfOrganization(g.organizationId);
      assert GroupsAt(store, place)[0] in GroupsAt(store, place);
    }
  }

  /** When a connection falls short of nothing that is granted: exactly while it is up to date. */
  lemma NeverShortExactly(user: Option<ScopeUser>, pk: int, store: Store, joined: seq<Group>)
    requires user.Some? && user.value.pk == Some(pk)
    ensures (forall place :: Granted(store, pk, place) ==> Reached(user, store, joined, place))
            <==> (forall g :: !Authorized(store, pk, g)) || UpToDate(user, store, joined)
  {
    hide Authorized, GroupsAt, MayReceive, Within;
    if UpToDate(user, store, joined) {
      forall place | Granted(store, pk, place) ensures Reached(user, store, joined, place) {
        var g :| g in GroupsAt(store, place) && Authorized(store, pk, g);
        WithinReaches(store, pk, g, joined, place);
      }
    }
    if forall place :: Granted(store, pk, place) ==> Reached(user, store, joined, place) {
      forall g | Authorized(store, pk, g) ensures Within(g, joined) && MayReceive(user, store, joined) {
        GroupOfItsPlace(store, pk, g);
        assert Granted(store, pk, PlaceFor(g)) by {
          assert GroupsAt(store, PlaceFor(g))[|GroupsAt(store, PlaceFor(g))| - 1] == g;
        }
        assert Reached(user, store, joined, PlaceFor(g));
        OnlyItself(g, GroupsAt(store, PlaceFor(g)), joined);
      }
    }
  }

  lemma OnlyItself(g: Group, groups: seq<Group>, joined: seq<Group>)
    requires groups == if g.OfCampus? then [OfOrganization(g.organizationId), g] else [g]
    requires SomeJoined(groups, joined)
    ensures Within(g, joined)
  {
  }

  /** Just after connecting, delivery is admission and the grant. */
  lemma FreshDelivery(user: Option<ScopeUser>, pk: int, place: Place, event: Event, store: Store)
    requires user.Some? && user.value.pk == Some(pk)
    ensures Delivered(user, [(Connect, store)], place, event, store)
            <==> AdmissionOf(user, store).Admit? && Granted(store, pk, place)
  {
    var steps := [(Connect, store)];
    JoinedExactly(user, steps);
    DeliveredExactly(user, steps, place, event, store);
    hide Delivered, Lifecycle, Run;
    if AdmissionOf(user, store).Admit? {
      var groups := AdmissionOf(user, store).groups;
      AcceptedMayReceive(user, store);
      if Granted(store, pk, place) {
        var g :| g in GroupsAt(store, place) && Authorized(store, pk, g);
        GrantedIsAdmitted(user, pk, store, g);
      }
    }
    if Reached(user, store, Run(user, steps).joined, place) {
      ReachedIsGranted(user, store, Run(user, steps).joined, place);
    }
  }

  lemma GrantedIsAdmitted(user: Option<ScopeUser>, pk: int, store: Store, g: Group)
    requires user.Some? && user.value.pk == Some(pk) && AdmissionOf(user, store).Admit? && Authorized(store, pk, g)
    ensures g in AdmissionOf(user, store).groups && MayReceive(user, store, AdmissionOf(user, store).groups)
  {
    AcceptedMayReceive(user, store);
    CurrentGroupsAreAuthorized(store, pk, g);
  }

  // ----------------------------------------------------------- delivery and queries

  /** The connection is the querying user's. */
  predicate SameAccount(connection: Option<ScopeUser>, user: User) {
    connection.Some? && connection.value.pk == Some(user.id) && user.isAuthenticated
  }

  /**
   * In membership mode, after any run, for every model and user: an event about a row is sent exactly when the row is
   * queried, if and only if, where the query's filter covers the row, its site is current exactly when the connection
   * is reached.
   */
  lemma DeliveredAgainstVisible(connection: Option<ScopeUser>, steps: seq<(Op, Store)>, event: Event, store: Store,
                                model: Model, user: User, row: Row, place: Place)
    requires store.deployment.mspEnabled && SameAccount(connection, user) && OnePlace(model, row, place)
    requires Lifecycle(Published(steps, place, event, store))
    ensures (Visible(store, model, user, row) <==> Delivered(connection, steps, place, event, store)) <==>
              (BypassesTenancy(user, store.deployment) || Covered(store, model, user.id, place) ==>
                 (AtCurrentSite(store, place.site)
                  <==> Reached(connection, store, Run(connection, steps).joined, place)))
  {
    hide OnePlace, Lifecycle, Visible, Delivered, Covered, Run, Reached;
    DeliveredExactly(connection, steps, place, event, store);
    VisibleThrough(store, model, user, row, place);
    ReachedIsCovered(connection, store, Run(connection, steps).joined, model, user, row, place);
  }

  lemma ReachedIsCovered(connection: Option<ScopeUser>, store: Store, joined: seq<Group>, model: Model, user: User,
                         row: Row, place: Place)
    requires store.deployment.mspEnabled && SameAccount(connection, user) && OnePlace(model, row, place)
    ensures Reached(connection, store, joined, place) ==> Covered(store, model, user.id, place)
  {
    hide OnePlace, Covered, Routable, Reached, Granted;
    if Reached(connection, store, joined, place) {
      ReachedIsGranted(connection, store, joined, place);
      GrantedIsRoutable(store, user.id, place);
      RoutableIsCovered(store, model, user.id, row, place);
    }
  }

  lemma GrantedIsRoutable(store: Store, user: int, place: Place)
    requires store.deployment.mspEnabled && Granted(store, user, place)
    ensures Routable(store, user, place)
  {
    var key := if Authorized(store, user, OfOrganization(place.organization.value))
               then Scope(place.organization.value, None) else Scope(place.organization.value, place.campus);
    var m :| m in store.memberships && m.IsValidFor(user) && m.Key() == key
             && (store.deployment.multiSite ==> m.organization.siteId == Some(store.deployment.siteId));
    assert Routes(store, user, place, m);
  }

  /**
   * While the connection is up to date the exact condition of the grants is that of delivery: for users without the
   * cross-organization view, only rows whose site and whose organization's site disagree are sent and not queried, or
   * queried and not sent.
   */
  lemma DeliveredExactlyWhenVisible(connection: Option<ScopeUser>, steps: seq<(Op, Store)>, event: Event, store: Store,
                                    model: Model, user: User, row: Row, place: Place, home: Option<int>)
    requires store.deployment.mspEnabled && SameAccount(connection, user) && user.id in store.activeUsers
    requires Lifecycle(Published(steps, place, event, store))
    requires UpToDate(connection, store, Run(connection, steps).joined) && !BypassesTenancy(user, store.deployment)
    requires TenantLookups(model).Some? ==> TenantLookups(model).value.organization != "pk"
    requires OnePlace(model, row, place) && HomeSite(store, place.organization, home)
    ensures (Visible(store, model, user, row) <==> Delivered(connection, steps, place, event, store)) <==>
              (store.deployment.multiSite && Covered(store, model, user.id, place) ==>
                 (place.site == Some(store.deployment.siteId) <==> home == Some(store.deployment.siteId)))
  {
    hide TenantLookups, OnePlace, Lifecycle, Visible, Delivered, Covered, Run, Reached, UpToDate, Granted, HomeSite;
    var joined := Run(connection, steps).joined;
    DeliveredExactly(connection, steps, place, event, store);
    GrantedExactlyWhenVisible(store, model, user, row, place, home);
    NeverShortExactly(connection, user.id, store, joined);
    if Reached(connection, store, joined, place) {
      ReachedIsGranted(connection, store, joined, place);
    }
  }

  /** Units ask for monitoring as well, and their events do not. */
  lemma UnitDeliveredExactlyWhenVisible(connection: Option<ScopeUser>, steps: seq<(Op, Store)>, event: Event,
                                        store: Store, user: User, row: Row, place: Place)
    requires store.deployment.mspEnabled && SameAccount(connection, user) && OnePlace(WIRELESS_UNIT, row, place)
    requires Lifecycle(Published(steps, place, event, store))
    ensures (UnitKept(store.deployment, true, store.memberships, user, row)
             <==> Delivered(connection, steps, place, event, store)) <==>
              (BypassesTenancy(user, store.deployment) || Covered(store, WIRELESS_UNIT, user.id, place) ==>
                 (AtCurrentSite(store, place.site)
                  && (user.isSuperuser || (user.monitoring.Some? && UnitMonitored(user.monitoring.value, row)))
                  <==> Reached(connection, store, Run(connection, steps).joined, place)))
  {
    hide OnePlace, Lifecycle, Delivered, Covered, Run, Reached, UnitMonitored, BypassesTenancy;
    DeliveredExactly(connection, steps, place, event, store);
    VisibleThrough(store, WIRELESS_UNIT, user, row, place);
    ReachedIsCovered(connection, store, Run(connection, steps).joined, WIRELESS_UNIT, user, row, place);
  }

  /**
   * By sites alone: on a row with a site the two agree unless it is queried and the connection is not reached; on one
   * without a site they agree exactly when nothing is sent.
   */
  lemma DeliveredExactlyWhenVisibleBySite(connection: Option<ScopeUser>, steps: seq<(Op, Store)>, event: Event,
                                          store: Store, model: Model, user: User, row: Row, place: Place)
    requires !store.deployment.mspEnabled && store.deployment.multiSite
    requires SameAccount(connection, user) && OnePlace(model, row, place)
    requires Lifecycle(Published(steps, place, event, store))
    ensures var reached := Reached(connection, store, Run(connection, steps).joined, place);
            (Visible(store, model, user, row) <==> Delivered(connection, steps, place, event, store)) <==>
              if place.site.None? then !reached
              else if place.site.value == 0 then !reached && store.deployment.siteId != 0
              else place.site.value == store.deployment.siteId ==> reached
  {
    hide OnePlace, Lifecycle, Delivered, Run, Reached, Granted, GroupsAt, Visible;
    var joined := Run(connection, steps).joined;
    DeliveredExactly(connection, steps, place, event, store);
    if Reached(connection, store, joined, place) {
      ReachedIsGranted(connection, store, joined, place);
      GrantedIsActive(store, user.id, place);
    }
    VisibleBySite(store, model, user, row, place);
  }

  lemma GrantedIsActive(store: Store, user: int, place: Place)
    requires Granted(store, user, place)
    ensures user in store.activeUsers
    ensures !store.deployment.mspEnabled && store.deployment.multiSite ==> store.deployment.siteId > 0
    ensures !store.deployment.mspEnabled && store.deployment.multiSite && place.site.Some? && place.site.value != 0
            ==> place.site.value == store.deployment.siteId
  {
  }

  lemma VisibleBySite(store: Store, model: Model, user: User, row: Row, place: Place)
    requires !store.deployment.mspEnabled && store.deployment.multiSite && user.isAuthenticated
    requires OnePlace(model, row, place)
    ensures Visible(store, model, user, row) <==> place.site == Some(store.deployment.siteId)
  {
    hide OnePlace;
    SiteThrough(model, store.deployment.siteId, row, place);
  }

  /** At a single site one group carries everything, whatever the user may query. */
  lemma DeliveredByPermission(connection: Option<ScopeUser>, steps: seq<(Op, Store)>, event: Event, store: Store,
                              model: Model, user: User, row: Row, place: Place)
    requires !store.deployment.mspEnabled && !store.deployment.multiSite && SameAccount(connection, user)
    requires Lifecycle(Published(steps, place, event, store))
    ensures var joined := Run(connection, steps).joined;
            (Visible(store, model, user, row) <==> Delivered(connection, steps, place, event, store)) <==>
              (MayReceive(connection, store, joined) && Everyone in joined
               <==> (BypassesTenancy(user, store.deployment) || "location" !in model.attributes
                     || user.monitoring.None? || Monitored(user.monitoring.value, row)))
  {
    hide Lifecycle, Delivered, Run, Monitored, MayReceive;
    DeliveredExactly(connection, steps, place, event, store);
    assert GroupsAt(store, place) == [Everyone];
    assert GroupsAt(store, place)[0] in GroupsAt(store, place);
  }

  // ------------------------------------------------------ what open connections miss

  function MemberOfOrganization(organization: int): Membership {
    Membership(5, true, Organization(organization, true, Some(1)), None)
  }

  /** User 5 with these memberships, in membership mode at one site. */
  function StoreWith(memberships: seq<Membership>): Store {
    Store(Deployment(true, false, false, 1), {5}, {}, memberships)
  }

  const CONNECTION: Option<ScopeUser> := Some(ScopeUser(Some(5), true, true, false))

  lemma MemberSees(memberships: seq<Membership>, organization: int)
    requires MemberOfOrganization(organization) in memberships
    ensures Visible(StoreWith(memberships), CHASSIS, MEMBER, ChassisAt(organization, 1))
    ensures Granted(StoreWith(memberships), MEMBER.id, Place(Some(organization), None, Some(1)))
  {
    var store, place := StoreWith(memberships), Place(Some(organization), None, Some(1));
    var m := MemberOfOrganization(organization);
    ChassisTenantPath();
    hide TenantLookups, SiteLookup, OnePlace, ChassisAt;
    VisibleThrough(store, CHASSIS, MEMBER, ChassisAt(organization, 1), place);
    assert Covering(store, CHASSIS, 5, place, m) && Routes(store, 5, place, m);
    assert HasMembership(store, 5, Scope(organization, None));
    GrantedByScope(store, 5, place);
  }

  lemma FreshLifecycle(before: Store, place: Place, event: Event, store: Store)
    ensures Lifecycle(Published([(Connect, before)], place, event, store))
  {
    hide GroupsAt;
  }

  /** A connection opened by user 5 joins the groups of the memberships. */
  lemma FreshlyJoined(store: Store)
    requires store.deployment.mspEnabled && MembershipGroups(store, store.memberships, 5) != []
    ensures Run(CONNECTION, [(Connect, store)]).joined == MembershipGroups(store, store.memberships, 5)
  {
    hide MembershipGroups;
    JoinedExactly(CONNECTION, [(Connect, store)]);
  }

  lemma GroupsOfTwo(store: Store, a: Membership, b: Membership)
    requires Routed(store, 5, a) && Routed(store, 5, b)
    ensures MembershipGroups(store, [a], 5) == [GroupOf(a.Key())]
    ensures MembershipGroups(store, [a, b], 5) == [GroupOf(a.Key()), GroupOf(b.Key())]
  {
    hide Routed, GroupOf;
    assert [a][1..] == [] && [b][1..] == [] && [a, b][1..] == [b];
    assert MembershipGroups(store, [b], 5) == [GroupOf(b.Key())];
  }

  /** One joined group that is not granted ends the connection; none that the event goes to leaves it alone. */
  lemma NotReached(before: Store, joined: seq<Group>, store: Store, place: Place, event: Event)
    requires Run(CONNECTION, [(Connect, before)]).joined == joined
    requires !Reached(CONNECTION, store, joined, place)
    ensures Lifecycle(Published([(Connect, before)], place, event, store))
    ensures !Delivered(CONNECTION, [(Connect, before)], place, event, store)
    ensures Run(CONNECTION, Published([(Connect, before)], place, event, store)).joined
         == if SomeJoined(GroupsAt(store, place), joined) then [] else joined
  {
    FreshLifecycle(before, place, event, store);
    hide Run, Lifecycle, Delivered, MayReceive, GroupsAt;
    var steps := [(Connect, before)];
    DeliveredExactly(CONNECTION, steps, place, event, store);
    PublishedExactly(CONNECTION, steps, GroupsAt(store, place), event, store);
    CopiesCount(GroupsAt(store, place), joined, event, store);
  }

  /** What is granted after connecting is not joined: the row is queried, and its events are not sent. */
  lemma GainedIsNotDelivered(event: Event) returns (steps: seq<(Op, Store)>, store: Store, row: Row, place: Place)
    ensures OnePlace(CHASSIS, row, place) && Lifecycle(Published(steps, place, event, store))
    ensures !store.deployment.multiSite && Visible(store, CHASSIS, MEMBER, row) && Granted(store, MEMBER.id, place)
    ensures !Delivered(CONNECTION, steps, place, event, store)
    ensures Run(CONNECTION, Published(steps, place, event, store)).joined == [OfOrganization(7)]
  {
    var before := StoreWith([MemberOfOrganization(7)]);
    store := StoreWith([MemberOfOrganization(7), MemberOfOrganization(8)]);
    steps, row, place := [(Connect, before)], ChassisAt(8, 1), Place(Some(8), None, Some(1));
    GroupsOfTwo(before, MemberOfOrganization(7), MemberOfOrganization(7));
    hide Run, Lifecycle, Visible, Granted, OnePlace, ChassisAt, MembershipGroups, Authorized, Delivered;
    MemberSees(store.memberships, 8);
    FreshlyJoined(before);
    assert GroupsAt(store, place) == [OfOrganization(8)];
    NotReached(before, [OfOrganization(7)], store, place, event);
  }

  /** Losing one grant ends the connection: rows of the others are still queried, and their events are not sent. */
  lemma LostElsewhereIsNotDelivered(event: Event)
    returns (steps: seq<(Op, Store)>, store: Store, row: Row, place: Place)
    ensures OnePlace(CHASSIS, row, place) && Lifecycle(Published(steps, place, event, store))
    ensures !store.deployment.multiSite && Visible(store, CHASSIS, MEMBER, row) && Granted(store, MEMBER.id, place)
    ensures !Delivered(CONNECTION, steps, place, event, store)
    ensures Run(CONNECTION, Published(steps, place, event, store)).joined == []
  {
    var before := StoreWith([MemberOfOrganization(7), MemberOfOrganization(8)]);
    store := StoreWith([MemberOfOrganization(7)]);
    steps, row, place := [(Connect, before)], ChassisAt(7, 1), Place(Some(7), None, Some(1));
    GroupsOfTwo(before, MemberOfOrganization(7), MemberOfOrganization(8));
    assert !Authorized(store, 5, OfOrganization(8));
    hide Run, Lifecycle, Visible, Granted, OnePlace, ChassisAt, MembershipGroups, Authorized, Delivered;
    MemberSees(store.memberships, 7);
    FreshlyJoined(before);
    var joined := [OfOrganization(7), OfOrganization(8)];
    assert GroupsAt(store, place) == [OfOrganization(7)];
    assert joined[0] in joined && joined[1] in joined && joined[0] in GroupsAt(store, place);
    NotReached(before, joined, store, place, event);
  }

  /** A member of an organization and of one of its campuses is sent each event of the campus twice. */
  lemma CampusEventIsSentTwice(event: Event) returns (steps: seq<(Op, Store)>, store: Store, place: Place)
    ensures place == Place(Some(7), Some(70), Some(1)) && Lifecycle(Published(steps, place, event, store))
    ensures Run(CONNECTION, steps).sent == [] && |Run(CONNECTION, Published(steps, place, event, store)).sent| == 2
  {
    var whole, campus := MemberOfOrganization(7), MemberOfOrganization(7).(campus := Some(Campus(70, 7, true)));
    store, place := StoreWith([whole, campus]), Place(Some(7), Some(70), Some(1));
    steps := [(Connect, store)];
    var groups := [OfOrganization(7), OfCampus(7, 70)];
    GroupsOfTwo(store, whole, campus);
    FreshlyJoined(store);
    FreshLifecycle(store, place, event, store);
    AcceptedMayReceive(CONNECTION, store);
    assert Run(CONNECTION, []).sent == [];
    RunOneMore(CONNECTION, [], (Connect, store));
    assert [] + [(Connect, store)] == steps;
    hide Run, Lifecycle, MembershipGroups, Authorized, MayReceive;
    assert groups[0] in groups && groups[1] in groups;
    SentTwiceExactly(CONNECTION, steps, place, event, store);
  }

  /** Just after connecting, an event about a row that the user cannot query: its building's site is another one. */
  lemma SentButNotVisible(event: Event) returns (store: Store, row: Row, place: Place)
    ensures OnePlace(CHASSIS, row, place) && Delivered(CONNECTION, [(Connect, store)], place, event, store)
    ensures !Visible(store, CHASSIS, MEMBER, row)
  {
    store, row, place := StoreWithHome(1), ChassisAt(7, 2), Place(Some(7), None, Some(2));
    MemberOfSeven(1, 2);
    GroupsOfTwo(store, store.memberships[0], store.memberships[0]);
    assert AdmissionOf(CONNECTION, store).Admit?;
    hide Visible, Delivered, OnePlace, ChassisAt, AdmissionOf;
    FreshDelivery(CONNECTION, 5, place, event, store);
  }
}
