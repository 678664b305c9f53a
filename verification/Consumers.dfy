/** The WebSocket consumer: group membership, revalidation of every payload, and its runs. */
module Consumers {
  import opened Options
  import opened Tenancy

  /** Channel-layer groups; distinct constructors stand for distinct group names. */
  datatype Group =
    | Everyone
    | OfSite(siteId: int)
    | OfOrganization(organizationId: int)
    | OfCampus(organizationId: int, campusId: int)

  /** What the database and the settings say at one moment. */
  datatype Store = Store(
    deployment: Deployment,
    activeUsers: set<int>,
    globalViewers: set<int>,
    memberships: seq<Membership>)

  /** The user object in the connection's scope. */
  datatype ScopeUser = ScopeUser(pk: Option<int>, isAuthenticated: bool, isActive: bool, mayViewAll: bool)

  // ---------------------------------------------------------- route resolution

  function GroupOf(key: Scope): Group {
    match key.campusId
    case Some(campus) => OfCampus(key.organizationId, campus)
    case None => OfOrganization(key.organizationId)
  }

  predicate Routed(store: Store, user: int, m: Membership) {
    && m.IsValidFor(user) && user in store.activeUsers
    && (store.deployment.multiSite ==> m.organization.siteId == Some(store.deployment.siteId))
  }

  /** `_membership_group_names`, over rows already in the query's order. */
  function MembershipGroups(store: Store, memberships: seq<Membership>, user: int): (groups: seq<Group>)
    ensures forall g :: g in groups <==> exists m :: m in memberships && Routed(store, user, m) && GroupOf(m.Key()) == g
  {
    if memberships == [] then [] else
      var rest := MembershipGroups(store, memberships[1..], user);
      assert memberships == [memberships[0]] + memberships[1..];
      if Routed(store, user, memberships[0]) then [GroupOf(memberships[0].Key())] + rest else rest
  }

  /** `_current_group_names` */
  function CurrentGroups(store: Store, user: int): seq<Group> {
    if user !in store.activeUsers then []
    else if store.deployment.mspEnabled then MembershipGroups(store, store.memberships, user)
    else if store.deployment.multiSite then
      if store.deployment.siteId > 0 then [OfSite(store.deployment.siteId)] else []
    else if user in store.globalViewers then [Everyone] else []
  }

  /** The right of a user to a group's events, group by group. */
  ghost predicate Authorized(store: Store, user: int, group: Group) {
    && user in store.activeUsers
    && match group
       case Everyone => !store.deployment.mspEnabled && !store.deployment.multiSite && user in store.globalViewers
       case OfSite(siteId) => !store.deployment.mspEnabled && store.deployment.multiSite
                              && siteId == store.deployment.siteId && siteId > 0
       case OfOrganization(organization) =>
         store.deployment.mspEnabled && HasMembership(store, user, Scope(organization, None))
       case OfCampus(organization, campus) =>
         store.deployment.mspEnabled && HasMembership(store, user, Scope(organization, Some(campus)))
  }

  /** An active membership of exactly this scope, in an organization of the current site in multi-site mode. */
  ghost predicate HasMembership(store: Store, user: int, key: Scope) {
    exists m :: m in store.memberships && m.IsValidFor(user) && m.Key() == key
                && (store.deployment.multiSite ==> m.organization.siteId == Some(store.deployment.siteId))
  }

  lemma CurrentGroupsAreAuthorized(store: Store, user: int, group: Group)
    ensures group in CurrentGroups(store, user) <==> Authorized(store, user, group)
  {
    if store.deployment.mspEnabled && user in store.activeUsers {
      match group
      case Everyone =>
      case OfSite(_) =>
      case OfOrganization(organization) => MembershipRoutes(store, user, Scope(organization, None));
      case OfCampus(organization, campus) => MembershipRoutes(store, user, Scope(organization, Some(campus)));
    }
  }

  lemma MembershipRoutes(store: Store, user: int, key: Scope)
    requires user in store.activeUsers
    ensures GroupOf(key) in MembershipGroups(store, store.memberships, user) <==> HasMembership(store, user, key)
  {
    if HasMembership(store, user, key) {
      var m :| m in store.memberships && m.IsValidFor(user) && m.Key() == key
               && (store.deployment.multiSite ==> m.organization.siteId == Some(store.deployment.siteId));
      assert Routed(store, user, m);
    }
  }

  // ------------------------------------------------------------------- payloads

  /** JSON objects by key; values are kept as text. */
  type Fields = map<string, string>

  datatype Event = DeviceUpdate(data: string) | StatusUpdate(message: string) | Typed(kind: string, rest: Fields)

  /** The event as the channel layer delivers it, with its dispatch key. */
  function Wire(event: Event): Fields {
    match event
    case DeviceUpdate(data) => map["type" := "device_update", "data" := data]
    case StatusUpdate(message) => map["type" := "status_update", "message" := message]
    case Typed(kind, rest) => rest["type" := kind]
  }

  function PayloadOf(event: Event): Fields {
    match event
    case DeviceUpdate(data) => map["type" := "device_update", "data" := data]
    case StatusUpdate(message) => map["type" := "status", "message" := message]
    case Typed(kind, rest) => map["type" := kind] + (Wire(event) - {"type"})
  }

  const PONG: Fields := map["type" := "pong"]

  /** The client sees the event as the layer carries it, but that a status update is called `status`. */
  lemma ClientSeesWire(event: Event)
    ensures PayloadOf(event) == if event.StatusUpdate? then Wire(event)["type" := "status"] else Wire(event)
    ensures "type" in Wire(event)
    ensures event.DeviceUpdate? ==> Wire(event)["type"] == "device_update" && Wire(event).Keys == {"type", "data"}
                                    && Wire(event)["data"] == event.data
    ensures event.StatusUpdate? ==> Wire(event)["type"] == "status_update" && Wire(event).Keys == {"type", "message"}
                                    && Wire(event)["message"] == event.message
    ensures event.Typed? ==> Wire(event)["type"] == event.kind && Wire(event) - {"type"} == event.rest - {"type"}
  {
    if event.Typed? {
      ForwardedUnchanged(event.kind, event.rest);
    }
  }

  /** `_forward_event` drops the dispatch key and puts it back: the client sees the event itself. */
  lemma ForwardedUnchanged(kind: string, rest: Fields)
    ensures PayloadOf(Typed(kind, rest)) == Wire(Typed(kind, rest))
  {
    assert map["type" := kind] + (rest["type" := kind] - {"type"}) == rest["type" := kind];
  }

  // -------------------------------------------------------------- state and steps

  /** One sent payload, the group it came through if any, and what was true when it was sent. */
  datatype Sent = Sent(payload: Fields, origin: Option<Group>, joined: seq<Group>, store: Store)

  datatype State = State(joined: seq<Group>, inLayer: set<Group>, sent: seq<Sent>, accepted: bool, closes: seq<int>)

  const UNAUTHENTICATED: int := 4401
  const UNAUTHORIZED: int := 4403
  const TOO_LARGE: int := 1009
  const MAX_COMMAND_BYTES: int := 4096

  datatype Parsed = Malformed | NotObject | Object(isPing: bool)

  datatype Frame = Frame(binary: Option<nat>, text: Option<(nat, Parsed)>)

  function Groups(names: seq<Group>): set<Group> {
    set g | g in names
  }

  /** The groups that `connect` resolves, or the code it closes with. */
  datatype Admission = Reject(code: int) | Admit(groups: seq<Group>)

  function AdmissionOf(user: Option<ScopeUser>, store: Store): Admission {
    if user.None? || !user.value.isAuthenticated then Reject(UNAUTHENTICATED)
    else if !user.value.isActive then Reject(UNAUTHORIZED)
    else if store.deployment.mspEnabled then
      var groups := if user.value.pk.Some? then MembershipGroups(store, store.memberships, user.value.pk.value) else [];
      if groups == [] then Reject(UNAUTHORIZED) else Admit(groups)
    else if store.deployment.multiSite then Admit([OfSite(store.deployment.siteId)])
    else if !user.value.mayViewAll then Reject(UNAUTHORIZED)
    else Admit([Everyone])
  }

  function Connected(user: Option<ScopeUser>, s: State, store: Store): State {
    match AdmissionOf(user, store)
    case Reject(code) => s.(joined := [], closes := s.closes + [code])
    case Admit(groups) => s.(joined := groups, inLayer := s.inLayer + Groups(groups), accepted := true)
  }

  function Revoked(s: State, code: int): State {
    s.(joined := [], inLayer := s.inLayer - Groups(s.joined), closes := s.closes + [code])
  }

  /** `None` when a payload may be forwarded, otherwise the code to close with. */
  function Refusal(user: Option<ScopeUser>, s: State, store: Store): Option<int> {
    if user.None? || !user.value.isAuthenticated || user.value.pk.None? then Some(UNAUTHENTICATED)
    else if s.joined == [] || !(Groups(s.joined) <= Groups(CurrentGroups(store, user.value.pk.value)))
    then Some(UNAUTHORIZED)
    else None
  }

  function Forwarded(user: Option<ScopeUser>, s: State, store: Store, payload: Fields, origin: Option<Group>): State {
    match Refusal(user, s, store)
    case Some(code) => Revoked(s, code)
    case None => s.(sent := s.sent + [Sent(payload, origin, s.joined, store)])
  }

  function Received(user: Option<ScopeUser>, s: State, store: Store, frame: Frame): State {
    if frame.binary.Some? then
      if frame.binary.value > MAX_COMMAND_BYTES then s.(closes := s.closes + [TOO_LARGE]) else s
    else if frame.text.None? then s
    else if frame.text.value.0 > MAX_COMMAND_BYTES then s.(closes := s.closes + [TOO_LARGE])
    else if frame.text.value.1.Object? && frame.text.value.1.isPing then Forwarded(user, s, store, PONG, None)
    else s
  }

  function Disconnected(s: State): State {
    s.(inLayer := s.inLayer - Groups(s.joined))
  }

  datatype Op = Connect | Disconnect | Receive(frame: Frame) | Publish(group: Group, event: Event)

  /** One handler run to completion. The layer hands a group's event only to the group's members. */
  function Step(user: Option<ScopeUser>, s: State, op: Op, store: Store): State {
    match op
    case Connect => Connected(user, s, store)
    case Disconnect => Disconnected(s)
    case Receive(frame) => Received(user, s, store, frame)
    case Publish(group, event) =>
      if group in s.inLayer then Forwarded(user, s, store, PayloadOf(event), Some(group)) else s
  }

  const INITIAL: State := State([], {}, [], false, [])

  /** A run: each operation meets whatever the persisted state is by then. */
  function Run(user: Option<ScopeUser>, steps: seq<(Op, Store)>): State {
    if steps == [] then INITIAL
    else
      var n := |steps| - 1;
      Step(user, Run(user, steps[..n]), steps[n].0, steps[n].1)
  }

  /** How Channels drives one consumer instance: connect once and first, nothing after disconnect. */
  ghost predicate Lifecycle(steps: seq<(Op, Store)>) {
    && (steps != [] ==> steps[0].0.Connect?)
    && (forall i :: 0 < i < |steps| ==> !steps[i].0.Connect?)
    && (forall i :: 0 <= i < |steps| - 1 ==> !steps[i].0.Disconnect?)
  }

  // ---------------------------------------------------------------- the consumer

  class ChannelLayer {
    var groups: map<Group, set<string>>

    constructor ()
      ensures groups == map[]
    {
      groups := map[];
    }

    ghost predicate Has(group: Group, channel: string)
      reads this
    {
      group in groups && channel in groups[group]
    }

    method GroupAdd(group: Group, channel: string)
      modifies this
      ensures forall g, c :: Has(g, c) <==> old(Has(g, c)) || (g == group && c == channel)
    {
      groups := groups[group := (if group in groups then groups[group] else {}) + {channel}];
    }

    method GroupDiscard(group: Group, channel: string)
      modifies this
      ensures forall g, c :: Has(g, c) <==> old(Has(g, c)) && !(g == group && c == channel)
    {
      if group in groups {
        groups := groups[group := groups[group] - {channel}];
      }
    }
  }

  class Consumer {
    const user: Option<ScopeUser>
    const layer: ChannelLayer
    const channelName: string
    var roomGroupNames: seq<Group>
    ghost var sent: seq<Sent>  // what the client has been sent
    var accepted: bool
    var closes: seq<int>

    constructor (user: Option<ScopeUser>, layer: ChannelLayer, channelName: string)
      requires forall g :: !layer.Has(g, channelName)
      ensures this.user == user && this.layer == layer && this.channelName == channelName
      ensures Now() == INITIAL
    {
      this.user, this.layer, this.channelName := user, layer, channelName;
      roomGroupNames, sent, accepted, closes := [], [], false, [];
    }

    ghost function Now(): State
      reads this, layer
    {
      State(roomGroupNames, InLayer(), sent, accepted, closes)
    }

    ghost function InLayer(): (r: set<Group>)
      reads layer
      ensures forall g :: g in r <==> layer.Has(g, channelName)
    {
      set g | g in layer.groups && layer.Has(g, channelName)
    }

    /** No handler touches another connection's membership. */
    twostate predicate OthersKept()
      reads this, layer
    {
      forall g, c :: c != channelName ==> (layer.Has(g, c) <==> old(layer.Has(g, c)))
    }

    method DiscardAll(names: seq<Group>)
      modifies layer
      ensures Now() == old(Now()).(inLayer := old(Now()).inLayer - Groups(names)) && OthersKept()
    {
      ghost var before := InLayer();
      for i := 0 to |names|
        invariant forall g, c :: layer.Has(g, c) <==> old(layer.Has(g, c)) && !(c == channelName && g in names[..i])
      {
        layer.GroupDiscard(names[i], channelName);
        assert names[..i + 1] == names[..i] + [names[i]];
      }
      assert names[..|names|] == names;
      assert InLayer() == before - Groups(names);
    }

    method Connect(store: Store)
      modifies this, layer
      ensures Now() == Step(user, old(Now()), Op.Connect, store) && OthersKept()
      ensures if MayConnect(user, store) then accepted && roomGroupNames != [] && closes == old(closes)
              else accepted == old(accepted) && roomGroupNames == []
                   && closes == old(closes) + [if user.Some? && user.value.isAuthenticated then 4403 else 4401]
    {
      hide MembershipGroups, MayConnect;
      ghost var before := Now();
      ConnectExactly(user, before, store);
      roomGroupNames := [];
      if user.None? || !user.value.isAuthenticated {
        closes := closes + [UNAUTHENTICATED];
        return;
      }
      if !user.value.isActive {
        closes := closes + [UNAUTHORIZED];
        return;
      }
      if store.deployment.mspEnabled {
        if user.value.pk.Some? {
          roomGroupNames := MembershipGroups(store, store.memberships, user.value.pk.value);
        }
        if roomGroupNames == [] {
          closes := closes + [UNAUTHORIZED];
          return;
        }
      } else if store.deployment.multiSite {
        roomGroupNames := [OfSite(store.deployment.siteId)];
      } else {
        if !user.value.mayViewAll {
          closes := closes + [UNAUTHORIZED];
          return;
        }
        roomGroupNames := [Everyone];
      }
      for i := 0 to |roomGroupNames|
        invariant AdmissionOf(user, store) == Admit(roomGroupNames)
        invariant sent == before.sent && accepted == before.accepted && closes == before.closes
        invariant forall g, c ::
          layer.Has(g, c) <==> old(layer.Has(g, c)) || (c == channelName && g in roomGroupNames[..i])
      {
        layer.GroupAdd(roomGroupNames[i], channelName);
        assert roomGroupNames[..i + 1] == roomGroupNames[..i] + [roomGroupNames[i]];
      }
      assert roomGroupNames[..|roomGroupNames|] == roomGroupNames;
      assert InLayer() == before.inLayer + Groups(roomGroupNames);
      accepted := true;
    }

    method CloseRevoked(code: int)
      modifies this, layer
      ensures Now() == Revoked(old(Now()), code) && OthersKept()
    {
      var names := roomGroupNames;
      roomGroupNames := [];
      DiscardAll(names);
      closes := closes + [code];
    }

    method CanForward(store: Store) returns (allowed: bool)
      modifies this, layer
      ensures allowed <==> Refusal(user, old(Now()), store).None?
      ensures Now() == match Refusal(user, old(Now()), store)
                       case Some(code) => Revoked(old(Now()), code)
                       case None => old(Now())
      ensures OthersKept()
    {
      if user.None? || !user.value.isAuthenticated || user.value.pk.None? {
        CloseRevoked(UNAUTHENTICATED);
        return false;
      }
      var current := CurrentGroups(store, user.value.pk.value);
      if roomGroupNames == [] || !(Groups(roomGroupNames) <= Groups(current)) {
        CloseRevoked(UNAUTHORIZED);
        return false;
      }
      return true;
    }

    method SendAuthorized(store: Store, payload: Fields, ghost origin: Option<Group>)
      modifies this, layer
      ensures Now() == Forwarded(user, old(Now()), store, payload, origin) && OthersKept()
    {
      var allowed := CanForward(store);
      if allowed {
        sent := sent + [Sent(payload, origin, roomGroupNames, store)];
      }
    }

    method Disconnect()
      modifies layer
      ensures Now() == Disconnected(old(Now())) && OthersKept()
    {
      DiscardAll(roomGroupNames);
    }

    method Receive(store: Store, frame: Frame)
      modifies this, layer
      ensures Now() == Received(user, old(Now()), store, frame) && OthersKept()
    {
      if frame.binary.Some? {
        if frame.binary.value > MAX_COMMAND_BYTES {
          closes := closes + [TOO_LARGE];
        }
        return;
      }
      if frame.text.None? {
        return;
      }
      var (size, parsed) := frame.text.value;
      if size > MAX_COMMAND_BYTES {
        closes := closes + [TOO_LARGE];
        return;
      }
      if !parsed.Object? {
        return;
      }
      if parsed.isPing {
        SendAuthorized(store, PONG, None);
      }
    }

    /** The event handlers: `device_update`, `status_update` and the two that forward the event itself. */
    method Handle(store: Store, event: Event, ghost origin: Group)
      modifies this, layer
      ensures Now() == Forwarded(user, old(Now()), store, PayloadOf(event), Some(origin)) && OthersKept()
    {
      SendAuthorized(store, PayloadOf(event), Some(origin));
    }
  }

  // -------------------------------------------------------------- who is admitted

  /** A membership routes the user: theirs, active, consistent and, in multi-site mode, of the current site. */
  ghost predicate SomeRoute(store: Store, user: int) {
    exists m :: m in store.memberships && m.userId == user && m.isActive && m.organization.isActive
                && (m.campus.Some? ==> m.campus.value.isActive && m.campus.value.organizationId == m.organization.id)
                && (store.deployment.multiSite ==> m.organization.siteId == Some(store.deployment.siteId))
  }

  /** Signed in, active, and what the mode asks for: a route, nothing more by sites, the permission at a single site. */
  ghost predicate MayConnect(user: Option<ScopeUser>, store: Store) {
    && user.Some? && user.value.isAuthenticated && user.value.isActive
    && if store.deployment.mspEnabled then
         user.value.pk.Some? && user.value.pk.value in store.activeUsers && SomeRoute(store, user.value.pk.value)
       else store.deployment.multiSite || user.value.mayViewAll
  }

  /** The groups of such memberships, by fields: the campus's for one limited to a campus, else the organization's. */
  lemma RoutesByFields(store: Store, user: int, g: Group)
    ensures g in MembershipGroups(store, store.memberships, user) <==>
              user in store.activeUsers
              && exists m :: m in store.memberships && m.userId == user && m.isActive && m.organization.isActive
                   && (m.campus.Some? ==> m.campus.value.isActive
                                          && m.campus.value.organizationId == m.organization.id)
                   && (store.deployment.multiSite ==> m.organization.siteId == Some(store.deployment.siteId))
                   && g == if m.campus.Some? then OfCampus(m.organization.id, m.campus.value.id)
                           else OfOrganization(m.organization.id)
  {
    forall m: Membership
      ensures GroupOf(m.Key()) == if m.campus.Some? then OfCampus(m.organization.id, m.campus.value.id)
                                  else OfOrganization(m.organization.id)
    {
    }
    if g in MembershipGroups(store, store.memberships, user) {
      var m :| m in store.memberships && Routed(store, user, m) && GroupOf(m.Key()) == g;
    }
    forall m | m in store.memberships && Routed(store, user, m)
      ensures GroupOf(m.Key()) in MembershipGroups(store, store.memberships, user)
    {
    }
  }

  lemma AdmissionExactly(user: Option<ScopeUser>, store: Store)
    ensures AdmissionOf(user, store).Admit? <==> MayConnect(user, store)
    ensures AdmissionOf(user, store).Admit? ==> AdmissionOf(user, store).groups != []
    ensures AdmissionOf(user, store).Reject? ==>
              AdmissionOf(user, store).code == if user.Some? && user.value.isAuthenticated then 4403 else 4401
  {
    if store.deployment.mspEnabled && user.Some? && user.value.pk.Some? {
      var pk := user.value.pk.value;
      var groups := MembershipGroups(store, store.memberships, pk);
      if groups != [] {
        assert groups[0] in groups;
        var m :| m in store.memberships && Routed(store, pk, m) && GroupOf(m.Key()) == groups[0];
      }
      if SomeRoute(store, pk) && pk in store.activeUsers {
        var m :| m in store.memberships && Routed(store, pk, m);
        assert GroupOf(m.Key()) in groups;
      }
    }
  }

  /** Connecting: accepted and joined exactly for those, and otherwise closed with nothing joined. */
  lemma ConnectExactly(user: Option<ScopeUser>, s: State, store: Store)
    ensures var t := Step(user, s, Op.Connect, store);
            && t.sent == s.sent
            && if MayConnect(user, store) then
                 t.accepted && t.joined != [] && t.closes == s.closes && t.inLayer == s.inLayer + Groups(t.joined)
                 && t.joined == (if store.deployment.mspEnabled
                                 then MembershipGroups(store, store.memberships, user.value.pk.value)
                                 else if store.deployment.multiSite then [OfSite(store.deployment.siteId)]
                                 else [Everyone])
               else
                 t.accepted == s.accepted && t.joined == [] && t.inLayer == s.inLayer
                 && t.closes == s.closes + [if user.Some? && user.value.isAuthenticated then 4403 else 4401]
  {
    AdmissionExactly(user, store);
    hide MembershipGroups, SomeRoute;
  }

  /** Where the connection's view of the account is the stored one, admission is having some group granted. */
  lemma AdmittedExactlyWhenAuthorized(user: Option<ScopeUser>, store: Store)
    requires user.Some? && user.value.isAuthenticated && user.value.pk.Some?
    requires user.value.isActive <==> user.value.pk.value in store.activeUsers
    requires user.value.mayViewAll <==> user.value.pk.value in store.globalViewers
    requires !store.deployment.mspEnabled && store.deployment.multiSite ==> store.deployment.siteId > 0
    ensures MayConnect(user, store) <==> exists g :: Authorized(store, user.value.pk.value, g)
  {
    var pk := user.value.pk.value;
    AdmissionExactly(user, store);
    if MayConnect(user, store) {
      AcceptedMayReceive(user, store);
      var groups := AdmissionOf(user, store).groups;
      assert groups[0] in groups && Authorized(store, pk, groups[0]);
    }
    if g :| Authorized(store, pk, g) {
      CurrentGroupsAreAuthorized(store, pk, g);
    }
  }

  /** A membership that is another user's, inactive or inconsistent gives no group. */
  lemma {:induction false} GroupsWithout(store: Store, a: seq<Membership>, m: Membership, b: seq<Membership>, user: int)
    requires m.userId != user || !m.isActive || !m.organization.isActive
             || (m.campus.Some? && (!m.campus.value.isActive || m.campus.value.organizationId != m.organization.id))
    ensures MembershipGroups(store, a + [m] + b, user) == MembershipGroups(store, a + b, user)
  {
    if a == [] {
      assert a + [m] + b == [m] + b && ([m] + b)[1..] == b && a + b == b;
    } else {
      GroupsWithout(store, a[1..], m, b, user);
      assert (a + [m] + b)[1..] == a[1..] + [m] + b && (a + b)[1..] == a[1..] + b;
    }
  }

  // ------------------------------------------------------------- safety over runs

  /** `user` is known, signed in, and in `store` entitled to each of `groups`. */
  ghost predicate MayReceive(user: Option<ScopeUser>, store: Store, groups: seq<Group>) {
    && user.Some? && user.value.isAuthenticated && user.value.pk.Some?
    && forall g :: g in groups ==> Authorized(store, user.value.pk.value, g)
  }

  lemma RefusalExact(user: Option<ScopeUser>, s: State, store: Store)
    ensures Refusal(user, s, store).None? <==> s.joined != [] && MayReceive(user, store, s.joined)
  {
    if user.Some? && user.value.pk.Some? {
      forall g ensures g in CurrentGroups(store, user.value.pk.value) <==> Authorized(store, user.value.pk.value, g) {
        CurrentGroupsAreAuthorized(store, user.value.pk.value, g);
      }
      assert (Groups(s.joined) <= Groups(CurrentGroups(store, user.value.pk.value)))
          <==> (forall g :: g in s.joined ==> g in CurrentGroups(store, user.value.pk.value)) by {
        assert forall g :: g in s.joined <==> g in Groups(s.joined);
      }
    }
  }

  /** The code tells the two refusals apart: 4401 for someone not signed in or not known, 4403 for missing grants. */
  lemma RefusalCodes(user: Option<ScopeUser>, s: State, store: Store)
    ensures Refusal(user, s, store) == Some(4401)
            <==> user.None? || !user.value.isAuthenticated || user.value.pk.None?
    ensures Refusal(user, s, store) == Some(4403)
            <==> user.Some? && user.value.isAuthenticated && user.value.pk.Some?
                 && (s.joined == [] || !MayReceive(user, store, s.joined))
  {
    RefusalExact(user, s, store);
    hide CurrentGroups, MayReceive;
  }

  /** A text frame within the limit that holds the ping command. */
  predicate IsPing(frame: Frame) {
    && frame.binary.None? && frame.text.Some? && frame.text.value.0 <= 4096
    && frame.text.value.1 == Object(true)
  }

  /** `e` is what step `k` sent, and sending it was right at that moment. */
  ghost predicate SentAt(user: Option<ScopeUser>, steps: seq<(Op, Store)>, k: nat, e: Sent) {
    && k < |steps|
    && e.store == steps[k].1 && e.joined == Run(user, steps[..k]).joined
    && e.joined != [] && MayReceive(user, e.store, e.joined)
    && match steps[k].0
       case Publish(group, event) => e.origin == Some(group) && group in e.joined && e.payload == PayloadOf(event)
       case Receive(frame) => IsPing(frame) && e.origin.None? && e.payload == PONG
       case _ => false
  }

  /** While connected the layer's membership is what was joined; afterwards there is none. */
  ghost predicate LayerAgrees(steps: seq<(Op, Store)>, s: State) {
    if steps != [] && steps[|steps| - 1].0.Disconnect? then s.inLayer == {} else s.inLayer == Groups(s.joined)
  }

  lemma LifecyclePrefix(steps: seq<(Op, Store)>, k: nat)
    requires Lifecycle(steps) && k <= |steps|
    ensures Lifecycle(steps[..k])
    ensures k < |steps| && k > 0 ==>
              steps[..k][k - 1] == steps[k - 1] && !steps[k - 1].0.Disconnect? && !steps[k].0.Connect?
  {
  }

  /** Main result: in every run every payload was authorized when sent, and the layer is left clean. */
  lemma {:induction false} RunIsSafe(user: Option<ScopeUser>, steps: seq<(Op, Store)>)
    requires Lifecycle(steps)
    ensures LayerAgrees(steps, Run(user, steps))
    ensures forall e :: e in Run(user, steps).sent ==> exists k: nat :: SentAt(user, steps, k, e)
  {
    if steps != [] {
      var n := |steps| - 1;
      var earlier := steps[..n];
      LifecyclePrefix(steps, n);
      RunIsSafe(user, earlier);
      var before, after := Run(user, earlier), Run(user, steps);
      RefusalExact(user, before, steps[n].1);
      StepKeepsLayer(user, steps);
      forall e | e in after.sent ensures exists k: nat :: SentAt(user, steps, k, e) {
        if e in before.sent {
          var k: nat :| SentAt(user, earlier, k, e);
          assert earlier[..k] == steps[..k];
          assert SentAt(user, steps, k, e);
        } else {
          assert SentAt(user, steps, n, e);
        }
      }
    }
  }

  lemma StepKeepsLayer(user: Option<ScopeUser>, steps: seq<(Op, Store)>)
    requires Lifecycle(steps) && steps != []
    requires LayerAgrees(steps[..|steps| - 1], Run(user, steps[..|steps| - 1]))
    ensures LayerAgrees(steps, Run(user, steps))
  {
    hide Step;
    var n := |steps| - 1;
    LifecyclePrefix(steps, n);
    assert n == 0 ==> Run(user, steps[..n]) == INITIAL;
    hide Run;
    assert steps == steps[..n] + [steps[n]];
    RunOneMore(user, steps[..n], steps[n]);
    LayerFollows(user, Run(user, steps[..n]), steps[n].0, steps[n].1);
  }

  lemma LayerFollows(user: Option<ScopeUser>, s: State, op: Op, store: Store)
    requires s.inLayer == Groups(s.joined) && (op.Connect? ==> s == INITIAL)
    ensures Step(user, s, op, store).inLayer
         == if op.Disconnect? then {} else Groups(Step(user, s, op, store).joined)
  {
    hide AdmissionOf, CurrentGroups, PayloadOf;
  }

  /** Handling this operation, a connection to these groups would send something. */
  predicate Attempts(op: Op, groups: seq<Group>) {
    match op
    case Publish(group, _) => group in groups
    case Receive(frame) => IsPing(frame)
    case _ => false
  }

  /** Step `k` is one that sends. */
  ghost predicate Sends(user: Option<ScopeUser>, steps: seq<(Op, Store)>, k: nat) {
    && k < |steps|
    && var joined := Run(user, steps[..k]).joined;
       joined != [] && Attempts(steps[k].0, joined) && MayReceive(user, steps[k].1, joined)
  }

  /** The log is what the sending steps sent, one entry for each, in the order of the steps. */
  lemma {:induction false} SentInOrder(user: Option<ScopeUser>, steps: seq<(Op, Store)>) returns (ks: seq<nat>)
    requires Lifecycle(steps)
    ensures |ks| == |Run(user, steps).sent|
    ensures forall i, j :: 0 <= i < j < |ks| ==> ks[i] < ks[j]
    ensures forall i :: 0 <= i < |ks| ==> SentAt(user, steps, ks[i], Run(user, steps).sent[i])
    ensures forall k: nat :: k in ks <==> Sends(user, steps, k)
  {
    hide Run, SentAt, Sends;
    if steps == [] {
      NothingSent(user);
      ks := [];
    } else {
      var n := |steps| - 1;
      LifecyclePrefix(steps, n);
      var before := SentInOrder(user, steps[..n]);
      LastStepSends(user, steps);
      forall k: nat
        ensures k in before ==> k < n
        ensures Sends(user, steps, k) <==> k in before || (k == n && Sends(user, steps, n))
      {
        SendsWithin(user, steps, n, k);
      }
      forall i | 0 <= i < |before| ensures SentAt(user, steps, before[i], Run(user, steps).sent[i]) {
        assert before[i] in before && before[i] < n;
        SameEarlier(user, steps, n, before[i], Run(user, steps).sent[i]);
      }
      ks := if Sends(user, steps, n) then before + [n] else before;
      forall i | 0 <= i < |before| ensures before[i] < n {
        assert before[i] in before;
      }
    }
  }

  lemma NothingSent(user: Option<ScopeUser>)
    ensures Run(user, []).sent == [] && forall k: nat :: !Sends(user, [], k)
  {
  }

  lemma SendsWithin(user: Option<ScopeUser>, steps: seq<(Op, Store)>, n: nat, k: nat)
    requires n + 1 == |steps|
    ensures Sends(user, steps[..n], k) <==> k < n && Sends(user, steps, k)
    ensures Sends(user, steps, k) ==> k <= n
  {
    hide Run;
    if k < n {
      assert steps[..n][..k] == steps[..k];
    }
  }

  lemma SameEarlier(user: Option<ScopeUser>, steps: seq<(Op, Store)>, n: nat, k: nat, e: Sent)
    requires k < n <= |steps|
    ensures SentAt(user, steps[..n], k, e) <==> SentAt(user, steps, k, e)
  {
    hide Run;
    assert steps[..n][..k] == steps[..k];
  }

  /** What a step after connecting sends and leaves joined. */
  lemma StepOutcome(user: Option<ScopeUser>, s: State, op: Op, store: Store)
    requires s.inLayer == Groups(s.joined) && !op.Connect?
    ensures var t := Step(user, s, op, store);
            var attempts, allowed := Attempts(op, s.joined), MayReceive(user, store, s.joined);
            && t.joined == (if attempts && !allowed then [] else s.joined)
            && t.sent == (if s.joined != [] && attempts && allowed
                          then s.sent + [Sent(SentPayload(op), SentOrigin(op), s.joined, store)] else s.sent)
  {
    RefusalExact(user, s, store);
    assert forall g :: g in s.joined <==> g in Groups(s.joined);
    hide Refusal, MayReceive, PayloadOf, Groups;
  }

  function SentPayload(op: Op): Fields {
    if op.Publish? then PayloadOf(op.event) else PONG
  }

  function SentOrigin(op: Op): Option<Group> {
    if op.Publish? then Some(op.group) else None
  }

  lemma LastStep(user: Option<ScopeUser>, steps: seq<(Op, Store)>)
    requires Lifecycle(steps) && steps != []
    ensures var n := |steps| - 1;
            var before := Run(user, steps[..n]);
            && Run(user, steps) == Step(user, before, steps[n].0, steps[n].1)
            && before.inLayer == Groups(before.joined)
            && (n == 0 ==> before == INITIAL && steps[n].0.Connect?) && (n > 0 ==> !steps[n].0.Connect?)
  {
    var n := |steps| - 1;
    LifecyclePrefix(steps, n);
    RunIsSafe(user, steps[..n]);
    assert steps == steps[..n] + [steps[n]];
    RunOneMore(user, steps[..n], steps[n]);
    hide Step;
    assert n == 0 ==> steps[..n] == [];
  }

  lemma LastStepSends(user: Option<ScopeUser>, steps: seq<(Op, Store)>)
    requires Lifecycle(steps) && steps != []
    ensures var n := |steps| - 1;
            var sent, before := Run(user, steps).sent, Run(user, steps[..n]).sent;
            if Sends(user, steps, n)
            then |sent| == |before| + 1 && before <= sent && SentAt(user, steps, n, sent[|before|])
            else sent == before
  {
    var n := |steps| - 1;
    LastStep(user, steps);
    if n == 0 {
      hide Run;
    } else {
      StepOutcome(user, Run(user, steps[..n]), steps[n].0, steps[n].1);
      hide Run, Step, MayReceive;
    }
  }

  /** The groups joined at connect stay joined until some attempt to send meets a group no longer granted. */
  ghost predicate StaysJoined(user: Option<ScopeUser>, steps: seq<(Op, Store)>, groups: seq<Group>) {
    forall k {:trigger steps[k]} ::
      0 < k < |steps| && Attempts(steps[k].0, groups) ==> MayReceive(user, steps[k].1, groups)
  }

  /** What is joined, from the history alone. */
  lemma {:induction false} JoinedExactly(user: Option<ScopeUser>, steps: seq<(Op, Store)>)
    requires Lifecycle(steps) && steps != []
    ensures Run(user, steps).joined ==
              match AdmissionOf(user, steps[0].1)
              case Reject(_) => []
              case Admit(groups) => if StaysJoined(user, steps, groups) then groups else []
  {
    hide Run, Step, MayReceive, Attempts, AdmissionOf;
    var n := |steps| - 1;
    LifecyclePrefix(steps, n);
    LastStep(user, steps);
    if n == 0 {
      ConnectJoins(user, INITIAL, steps[0].1);
    } else {
      JoinedExactly(user, steps[..n]);
      StepOutcome(user, Run(user, steps[..n]), steps[n].0, steps[n].1);
      if AdmissionOf(user, steps[0].1).Admit? {
        StaysOneMore(user, steps, AdmissionOf(user, steps[0].1).groups);
      }
    }
  }

  lemma ConnectJoins(user: Option<ScopeUser>, s: State, store: Store)
    ensures Step(user, s, Connect, store).joined
         == match AdmissionOf(user, store) case Reject(_) => [] case Admit(groups) => groups
  {
  }

  lemma StaysOneMore(user: Option<ScopeUser>, steps: seq<(Op, Store)>, groups: seq<Group>)
    requires |steps| > 1
    ensures var n := |steps| - 1;
            StaysJoined(user, steps, groups)
            <==> StaysJoined(user, steps[..n], groups)
                 && (Attempts(steps[n].0, groups) ==> MayReceive(user, steps[n].1, groups))
  {
    hide Attempts, MayReceive;
    var n := |steps| - 1;
    assert forall k :: 0 <= k < n ==> steps[..n][k] == steps[k];
  }

  /** Once nothing is joined after the connection attempt, nothing is ever sent or joined again. */
  lemma {:induction false} RevocationIsFinal(user: Option<ScopeUser>, steps: seq<(Op, Store)>, more: seq<(Op, Store)>)
    requires Lifecycle(steps + more) && steps != [] && Run(user, steps).joined == []
    ensures Run(user, steps + more).sent == Run(user, steps).sent
    ensures Run(user, steps + more).joined == [] && Run(user, steps + more).inLayer == {}
    decreases |more|
  {
    if more == [] {
      assert steps + more == steps;
      RunIsSafe(user, steps);
    } else {
      var m := |more| - 1;
      var shorter := steps + more[..m];
      assert steps + more == shorter + [more[m]];
      LifecyclePrefix(shorter + [more[m]], |shorter|);
      RevocationIsFinal(user, steps, more[..m]);
      StepAfterRevocation(user, shorter, more[m]);
    }
  }

  lemma StepAfterRevocation(user: Option<ScopeUser>, steps: seq<(Op, Store)>, step: (Op, Store))
    requires !step.0.Connect? && Run(user, steps).joined == [] && Run(user, steps).inLayer == {}
    ensures var s := Run(user, steps + [step]);
            s.joined == [] && s.inLayer == {} && s.sent == Run(user, steps).sent
  {
    assert (steps + [step])[..|steps|] == steps;
  }

  predicate IsTooLarge(frame: Frame) {
    if frame.binary.Some? then frame.binary.value > 4096
    else frame.text.Some? && frame.text.value.0 > 4096
  }

  /** An oversized frame closes with its code and, unlike a revocation, leaves membership and all later sends alone. */
  lemma {:induction false} TooLargeLeavesMembership(user: Option<ScopeUser>, steps: seq<(Op, Store)>,
                                                    frame: Frame, store: Store, more: seq<(Op, Store)>)
    requires IsTooLarge(frame)
    ensures Run(user, steps + [(Receive(frame), store)])
         == Run(user, steps).(closes := Run(user, steps).closes + [1009])
    ensures Run(user, steps + [(Receive(frame), store)] + more).(closes := [])
         == Run(user, steps + more).(closes := [])
    decreases |more|
  {
    hide Run, Step, IsTooLarge;
    var closing := steps + [(Receive(frame), store)];
    RunOneMore(user, steps, (Receive(frame), store));
    TooLargeStep(user, Run(user, steps), frame, store);
    if more == [] {
      assert closing + more == closing && steps + more == steps;
    } else {
      var m := |more| - 1;
      TooLargeLeavesMembership(user, steps, frame, store, more[..m]);
      assert closing + more == closing + more[..m] + [more[m]] && steps + more == steps + more[..m] + [more[m]];
      RunOneMore(user, closing + more[..m], more[m]);
      RunOneMore(user, steps + more[..m], more[m]);
      ClosesDoNotMatter(user, Run(user, closing + more[..m]), Run(user, steps + more[..m]), more[m]);
    }
  }

  lemma RunOneMore(user: Option<ScopeUser>, steps: seq<(Op, Store)>, step: (Op, Store))
    ensures Run(user, steps + [step]) == Step(user, Run(user, steps), step.0, step.1)
  {
    hide Step;
    assert (steps + [step])[..|steps|] == steps;
  }

  lemma TooLargeStep(user: Option<ScopeUser>, s: State, frame: Frame, store: Store)
    requires IsTooLarge(frame)
    ensures Step(user, s, Receive(frame), store) == s.(closes := s.closes + [TOO_LARGE])
  {
  }

  lemma ForwardingIgnoresCloses(user: Option<ScopeUser>, s: State, t: State, store: Store, payload: Fields,
                                origin: Option<Group>)
    requires s.(closes := []) == t.(closes := [])
    ensures Forwarded(user, s, store, payload, origin).(closes := [])
         == Forwarded(user, t, store, payload, origin).(closes := [])
  {
    hide CurrentGroups, Groups;
    assert s.joined == t.joined && s.sent == t.sent && s.inLayer == t.inLayer && s.accepted == t.accepted;
    assert Refusal(user, s, store) == Refusal(user, t, store);
  }

  /** No handler looks at earlier closes. */
  lemma ClosesDoNotMatter(user: Option<ScopeUser>, s: State, t: State, step: (Op, Store))
    requires s.(closes := []) == t.(closes := [])
    ensures Step(user, s, step.0, step.1).(closes := []) == Step(user, t, step.0, step.1).(closes := [])
  {
    hide AdmissionOf, Forwarded, PayloadOf, Groups;
    assert s.joined == t.joined && s.sent == t.sent && s.inLayer == t.inLayer && s.accepted == t.accepted;
    match step.0
    case Connect =>
    case Disconnect =>
    case Receive(frame) => ForwardingIgnoresCloses(user, s, t, step.1, PONG, None);
    case Publish(group, event) => ForwardingIgnoresCloses(user, s, t, step.1, PayloadOf(event), Some(group));
  }

  /** A published event is forwarded exactly when its group was joined and every joined group is still granted. */
  lemma ForwardedExactly(user: Option<ScopeUser>, steps: seq<(Op, Store)>, group: Group, event: Event, store: Store)
    requires Lifecycle(steps + [(Publish(group, event), store)])
    ensures var s := Run(user, steps);
            var next := Run(user, steps + [(Publish(group, event), store)]);
            next == s.(sent := s.sent + [Sent(PayloadOf(event), Some(group), s.joined, store)])
            <==> group in s.joined && MayReceive(user, store, s.joined)
    ensures var s := Run(user, steps);
            var next := Run(user, steps + [(Publish(group, event), store)]);
            if group !in s.joined then next == s
            else !MayReceive(user, store, s.joined) ==> next.joined == [] && next.inLayer == {} && next.sent == s.sent
  {
    var all := steps + [(Publish(group, event), store)];
    assert all[..|steps|] == steps;
    LifecyclePrefix(all, |steps|);
    RunIsSafe(user, steps);
    RefusalExact(user, Run(user, steps), store);
  }

  /**
   * An accepted connection can receive at once exactly when the persisted account is active and, outside the
   * membership mode, its one group passes the later check too: a positive site, or the stored view permission.
   */
  lemma AcceptedMayReceive(user: Option<ScopeUser>, store: Store)
    requires AdmissionOf(user, store).Admit?
    ensures MayReceive(user, store, AdmissionOf(user, store).groups) <==>
              && user.value.pk.Some? && user.value.pk.value in store.activeUsers
              && (!store.deployment.mspEnabled ==>
                    if store.deployment.multiSite then store.deployment.siteId > 0
                    else user.value.pk.value in store.globalViewers)
  {
    var groups := AdmissionOf(user, store).groups;
    assert groups[0] in groups;
    if user.value.pk.Some? {
      forall g ensures g in CurrentGroups(store, user.value.pk.value) <==> Authorized(store, user.value.pk.value, g) {
        CurrentGroupsAreAuthorized(store, user.value.pk.value, g);
      }
    }
  }

  /** A site group is joined without looking at the site's id, so a connection can be accepted and yet hear nothing. */
  lemma AcceptedMayNotReceive() returns (user: Option<ScopeUser>, store: Store)
    ensures AdmissionOf(user, store) == Admit([OfSite(0)])
    ensures !MayReceive(user, store, AdmissionOf(user, store).groups)
  {
    user := Some(ScopeUser(Some(5), true, true, false));
    store := Store(Deployment(false, true, false, 0), {5}, {}, []);
    AcceptedMayReceive(user, store);
  }
}
