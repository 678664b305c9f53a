# Verified model of django-micboard's checkers, streams and tenancy rules

This project models the parts of django-micboard whose correctness is not visible from any one function, and proves
what they promise.

- **Import architecture** (`Orders`, `Graphs`, `ComponentFinder`, `PathSearch`, `ImportReport`). The stateful recursive
  Tarjan finder is a class with the original's fields; the breadth-first search, the choice of a representative cycle,
  the graph builder and the report printer are methods with the original's loops. Proved: the finder returns exactly
  the strongly connected components of two modules or more; the search returns the walk that `(len, path)` puts first;
  the reported cycle is the first of all closed walks of its component; printing never misses a location; the exit
  status is 0 exactly for an acyclic package without forbidden edges, and the inputs determine every printed line.
- **Event stream** (`SseClient`). The chunk-fed, capped line reader equals a description of the whole stream that knows
  nothing of chunks, buffers or discarding; the messages passed on are those of the delivering lines, in order.
- **WebSocket consumer** (`Consumers`, `Routing`, `Delivery`). Every handler refines a step function; over all runs, with
  the stored authorization changing freely between steps, every payload sent was authorized when sent, the log is in
  step order and complete, and the channel layer is left clean. `Routing` says who is granted an event about a row: in
  membership mode without multi-site mode, for an ordinary user, exactly the rows that `for_user` returns; with it, the
  two differ exactly on covered rows whose own site and whose organization's site disagree about being the current one,
  which nothing in the source prevents. `Delivery` says what an open connection is sent: nothing while one of the groups
  joined at connect is not granted, and nothing through groups granted after connecting. So a row can be queried while
  its events are granted and not sent. Delivery follows the grants exactly while the connection is up to date or nothing
  is granted; just after connecting it does. Units and RF channels also ask for monitoring, which their events do not.
- **Tenant querysets** (`Tenancy`, `ModelQuerysets`). The filter folded from memberships selects exactly the covered
  rows; `for_user` is characterised exactly in every mode; its tenant and site filters speak of one related row exactly
  on the rows that combine each owner with each site. Performers, through their assignments, need not be such rows:
  their own `for_user` closes the gap for ordinary users and leaves it open for superusers.
- **Settings registry** (`Settings`). `clean` accepts a definition exactly when the registry stays consistent, and the
  override form does so for every value that is not empty; typed values round-trip exactly when they are of the
  definition's type; the partial unique constraints are uniqueness of (definition, target), which the plain constraint
  is not.
- Definitions that a method and its specification share (orders, the parsing of integers, valid memberships, admission,
  event types, line terminators) have lemmas of their own that describe them by other means.
- **Changelog promotion** (`Changelog`) from text to text, and **discovery lists** (`Discovery`).
- `Texts` holds what the others share: stripping, and the characters that Python counts as space.

Where the source updates fields or variables in loops, the model is a class or a method with a loop, proved against a
specification function or a predicate; where the source is an expression, the model is a function. A `hide` statement in
a proof only keeps definitions away from the solver. Exceptions become `None` or an error set. The findings that a
caller should know about are lemmas of their own. These give an input: `Delivery.GainedIsNotDelivered`,
`Delivery.LostElsewhereIsNotDelivered`, `Delivery.CampusEventIsSentTwice`, `Delivery.SentButNotVisible`,
`Routing.VisibleButNotGranted`, `ModelQuerysets.SuperuserPerformerSplits`, `Consumers.AcceptedMayNotReceive`,
`Settings.EmptySecretIsNotParsed`, `Discovery.FailedReadingLosesEntry`, `Changelog.QuotedHeadingSplits`. These hold of
every input: `Consumers.TooLargeLeavesMembership`, `Settings.TogetherNeverRejects`.

Parameters stand for what the model cannot see: the module set and the imports found in each module (`ImportSite`),
JSON decoding (`decode`), host enumeration (`hosts`), address validation (`valid`), the answer of the remote system
(`Reading`, `reached`) and the stored authorization at each step (`Store`).

## Model

| member | source | states |
|---|---|---|
| Orders.Sorted | scripts/check_import_architecture.py:157 | `sorted` on a set of names: strictly increasing by string order, with exactly the set's elements |
| Orders.SortedList | scripts/check_import_architecture.py:181 | `sorted` on a list of distinct names: strictly increasing, the same elements, the same length |
| Orders.AscendingUnique | scripts/check_import_architecture.py:160 | a strictly increasing sequence is determined by its elements, so sorting forgets the order of discovery |
| Orders.PathOrdersTotal | scripts/check_import_architecture.py:160 | the keys `(-len, members)` and `(len, path)` are total orders on tuples of names |
| Orders.NameLeExact | scripts/check_import_architecture.py:157 | names compare by the first differing character: the smaller one, or the end of the name, comes first |
| Orders.PathLeExact | scripts/check_import_architecture.py:160 | tuples of names compare by the first differing name, compared as names do |
| Orders.NamesInOrder | scripts/check_import_architecture.py:157 | so sorted names stand by their first differing characters |
| ComponentFinders.ComponentFinder.PopComponent | scripts/check_import_architecture.py:183-191 | pops down to and including the root, which is always met: the stack is cut at the root and the popped modules are those above the cut, each once |
| ComponentFinders.ComponentFinder.Visit | scripts/check_import_architecture.py:162-181 | a visit keeps the whole invariant (on-stack set, increasing indices, lowlinks that name reachable stack entries, recorded components), changes nothing that existed before, and terminates by the unvisited modules |
| ComponentFinders.EnterKeepsInvariant | scripts/check_import_architecture.py:164-168 | pushing an unvisited module that every active module reaches keeps the invariant |
| ComponentFinders.LowerKeepsSound | scripts/check_import_architecture.py:173-175 | lowering a lowlink to the index of a reachable stack entry keeps the invariant |
| ComponentFinders.LeaveKeepsInvariant | scripts/check_import_architecture.py:177-178 | a module whose lowlink is below its index may stay on the stack: everything above it still reaches an active module |
| ComponentFinders.SegmentIsComponent | scripts/check_import_architecture.py:177-179 | when lowlink and index agree, the stack from the module upwards is its strongly connected component |
| ComponentFinders.PopKeepsInvariant | scripts/check_import_architecture.py:179-181 | popping that segment and recording it sorted, if it has two modules or more, keeps the invariant |
| ComponentFinders.ComponentFinder.Find | scripts/check_import_architecture.py:155-160 | the result holds exactly the components of two modules or more, each sorted and once, largest first; the stack is empty and every module visited |
| ComponentFinders.StronglyConnectedComponents | scripts/check_import_architecture.py:194-196 | the same for a fresh finder on any graph closed under imports |
| ComponentFinders.ReportDependsOnlyOnGraph | scripts/check_import_architecture.py:155-160 | two such results for one graph are equal |
| ComponentFinders.LargerComponentsFirst | scripts/check_import_architecture.py:160 | a component is never reported before a larger one; of equal size, the one with the smaller name at the first difference comes first |
| ComponentFinders.ComponentNamesInOrder | scripts/check_import_architecture.py:181 | inside a component the names stand by their first differing characters |
| ComponentFinders.ReportPartitions | scripts/check_import_architecture.py:155-181 | two modules share a reported component exactly when each reaches the other, and components do not overlap |
| PathSearch.EveryWalkMet | scripts/check_import_architecture.py:251-261 | queue invariant: every walk from the start is matched by a finished path or preceded by a waiting one |
| PathSearch.PathWithinComponent | scripts/check_import_architecture.py:243-262 | returns the least walk by (length, names) inside the component, and `None` exactly when there is no walk |
| PathSearch.LeastWalkIsSimple | scripts/check_import_architecture.py:243-262 | the path that is returned visits no module twice |
| PathSearch.LeastOf | scripts/check_import_architecture.py:279 | `min` by `(len, path)`: a candidate that no candidate precedes |
| PathSearch.RepresentativeCycle | scripts/check_import_architecture.py:265-279 | the least of all closed walks inside the component by (length, names), and `None` (where `min` would fail) exactly when there is no closed walk |
| PathSearch.LeastCycleIsSimple | scripts/check_import_architecture.py:265-279 | the chosen cycle passes each of its modules once before closing |
| PathSearch.LeastCycleUnique | scripts/check_import_architecture.py:265-279 | a component has one such cycle, so the report does not depend on the search order |
| PathSearch.LeastCycleFirst | scripts/check_import_architecture.py:279 | every other closed walk of the component is longer, or as long and later at the first differing name |
| ImportReports.ResolveModule | scripts/check_import_architecture.py:52-59 | the longest local module that is the candidate or one of its parents; `None` exactly when there is none |
| ImportReports.BuildImportGraph | scripts/check_import_architecture.py:105-139 | the edges are exactly those that the import sites contribute, sorted; the graph is the graph of these edges and its targets are modules |
| ImportReports.EdgesInOrder | scripts/check_import_architecture.py:15-22 | edges stand by source, target and path as names, and then by line, earlier first |
| ImportReports.WithinIsDotted | scripts/check_import_architecture.py:199-221 | prefixes of module names go by whole dotted parts, here and in the package test |
| ImportReports.ForbiddenGoesUp | scripts/check_import_architecture.py:199-221 | among models, services and tasks exactly the imports from a lower to a higher layer are forbidden |
| ImportReports.ForbiddenElsewhere | scripts/check_import_architecture.py:199-221 | outside these layers only the tenancy models to services or tasks, and services to the app configuration |
| ImportReports.ForbiddenEdges | scripts/check_import_architecture.py:232-234 | keeps exactly the forbidden edges |
| ImportReports.ForbiddenInOrder | scripts/check_import_architecture.py:232-234 | and keeps them in the order of all edges, each once |
| ImportReports.ComponentHasCycle | scripts/check_import_architecture.py:303-304 | every reported component contains a closed walk of its own modules, so choosing a cycle cannot fail |
| ImportReports.NoComponentsIffAcyclic | scripts/check_import_architecture.py:127-139 | without self-imports, the component list is empty exactly when the graph has no closed walk |
| ImportReports.AnalyzeImportArchitecture | scripts/check_import_architecture.py:224-240 | modules, edges, forbidden edges (strictly ascending) and components as specified; `cycles` is empty exactly for an acyclic graph; the report can be printed |
| ImportReports.RebuildGraph | scripts/check_import_architecture.py:297-301 | the graph rebuilt from the edge list is the analysed graph, and every edge has its first location |
| ImportReports.LocationIsLeast | scripts/check_import_architecture.py:301 | the location kept by `setdefault` is the least of all imports of that target by that source |
| ImportReports.WalkIsLocated | scripts/check_import_architecture.py:306-308 | every consecutive pair of a walk of the rebuilt graph has a location |
| ImportReports.PrintCycle | scripts/check_import_architecture.py:305-308 | one heading, then one line for each step of the cycle with that step's first location |
| ImportReports.FormatReport | scripts/check_import_architecture.py:282-310 | the all-clear line for a valid report; otherwise forbidden edges in order, then for each component its size and its least cycle step by step; no lookup fails |
| ImportReports.CheckArchitecture | scripts/check_import_architecture.py:313-325 | status 0 exactly for an acyclic package without forbidden edges, and then only the all-clear line is printed; in every case the lines are the analysis of the inputs, with the least closed walk of each strongly connected component of the package graph |
| ImportReports.OutputUnique | scripts/check_import_architecture.py:282-310 | that description leaves no choice: the inputs determine every line |
| SseClient.SplitJoins | micboard/integrations/sennheiser/sse_client.py:168 | splitting at line feeds loses nothing and leaves no line feed inside a segment |
| SseClient.SplitAppend | micboard/integrations/sennheiser/sse_client.py:167-179 | a cut in the stream splits the segment at the cut and no other |
| SseClient.StripReturnExact | micboard/integrations/sennheiser/sse_client.py:184-185 | one trailing carriage return is removed and nothing else |
| SseClient.ReadChunk | micboard/integrations/sennheiser/sse_client.py:167-187 | one chunk takes the reader from representing the stream so far to representing the stream with the chunk |
| SseClient.IterBoundedLines | micboard/integrations/sennheiser/sse_client.py:158-193 | for every cutting into chunks, the lines of the whole stream: over-long lines dropped, carriage return stripped, unterminated rest kept if it is not empty; the buffer never exceeds the limit |
| SseClient.OneLine | micboard/integrations/sennheiser/sse_client.py:172-186 | a line with its line feed is one line, without its carriage return, unless it is over the limit |
| SseClient.RestIsLine | micboard/integrations/sennheiser/sse_client.py:189-193 | what follows the last line feed is a line too, unless it is empty or over the limit |
| SseClient.EventNameIgnoresSpace | micboard/integrations/sennheiser/sse_client.py:114-115 | an event line names its type whatever ASCII space surrounds the name |
| Texts.StripExact | micboard/integrations/sennheiser/sse_client.py:115 | stripping removes all surrounding space and only space |
| SseClient.DispatchEvent | micboard/integrations/sennheiser/sse_client.py:196-214 | appends the decoded payload exactly for a data line within the limit that decodes |
| SseClient.ConsumeMessages | micboard/integrations/sennheiser/sse_client.py:102-127 | the callback gets, in order, the payloads of exactly the data lines under event type empty or `message`, within both limits, before any close event: a function of the concatenated bytes |
| SseClient.ClosedIsFinal | micboard/integrations/sennheiser/sse_client.py:116-117 | nothing is delivered at or after a close event |
| SseClient.NothingAfterClose | micboard/integrations/sennheiser/sse_client.py:110-118 | bytes after a completed close event have no effect, whatever they are |
| SseClient.MessagesGrow | micboard/integrations/sennheiser/sse_client.py:102-127 | what was delivered at the end of a line stays delivered, in place, whatever follows |
| SseClient.BlankLineStartsAfresh | micboard/integrations/sennheiser/sse_client.py:119-121 | after a blank line the stream starts afresh: the messages of both parts, one after the other |
| SseClient.EventEndsAtBlank | micboard/integrations/sennheiser/sse_client.py:114-127 | an event of whatever name ends at the blank line: the data after it are delivered |
| SseClient.DeliversExactly | micboard/integrations/sennheiser/sse_client.py:109-127 | a line is delivered exactly when no line before closed the stream, it carries data within the limit that decode, and the last event line since the last blank one, if any, is named nothing or `message` |
| SseClient.PlainDataDelivered | micboard/integrations/sennheiser/sse_client.py:203-211 | data within both limits are delivered as decoded |
| SseClient.IdleLineIsInvisible | micboard/integrations/sennheiser/sse_client.py:203-214 | a line that is no event, not blank and without data, with data over the event limit or with data that do not decode can be removed without effect |
| SseClient.CloseEndsStream | micboard/integrations/sennheiser/sse_client.py:114-118 | a line with the name `close`, whatever space surrounds it, ends the messages |
| SseClient.NonAsciiIgnored | micboard/integrations/sennheiser/sse_client.py:115 | bytes outside ASCII do not count in an event's name |
| SseClient.OverlongLineIsInvisible | micboard/integrations/sennheiser/sse_client.py:172-187 | removing an over-long line with its line feed changes neither the lines nor the messages |
| Tenancy.MembershipKeys | micboard/models/base_managers.py:236-246 | exactly the keys of the user's active, internally consistent memberships |
| Tenancy.FilterReturns | micboard/models/base_managers.py:161-218 | a further `filter` keeps exactly the rows with some joined row that meets it |
| Tenancy.ForSite | micboard/models/base_managers.py:151-161 | unchanged outside multi-site mode; in it exactly the rows of the requested or current site, none for a model without a site path |
| Tenancy.ForMemberships | micboard/models/base_managers.py:194-218 | returns a row exactly when some joined row matches some membership's organization and, if campus-limited, its campus, with the rules for models without a campus path; so order and repetition of memberships do not matter |
| Tenancy.ForUser | micboard/models/base_managers.py:220-270 | nothing for the unauthenticated; in multi-site mode only rows of the current site for every user; in membership mode without the cross-organization view exactly the rows covered by a valid membership (and at the site); otherwise the site's rows, the monitored rows, or all |
| Tenancy.TenantIsolation | micboard/models/base_managers.py:229-254 | by fields: in membership mode a row is kept exactly when some stored membership of that user, active, in an active organization and with no campus or an active one of that organization, covers it (and it is at the site); only superusers with the cross-organization view need none |
| Tenancy.KeysWithout | micboard/models/base_managers.py:236-246 | removing a membership of another user, an inactive or an inconsistent one leaves the keys as they are |
| Tenancy.KeptWithout | micboard/models/base_managers.py:229-254 | and leaves every row kept or not as before, in every mode |
| Tenancy.FiltersCombineExactly | micboard/models/base_managers.py:251-254 | for every user and site the row is kept exactly when one joined row meets the tenant and the site filter together, if and only if the row joins each owner it shows with each site it shows |
| Tenancy.OnePlaceCombines | micboard/models/base_managers.py:251-254 | rows whose joins all show one place, as over forward relations, are such rows, so only the `assignments` path can split the filters |
| ModelQuerysets.AssignmentsForUser | micboard/models/monitoring/performer_assignment.py:19-29 | keeps exactly what the shared `for_user` keeps and, unless for superusers, one and the same monitoring group both lists the user and is active |
| ModelQuerysets.PerformersForUser | micboard/models/monitoring/performer.py:17-37 | keeps exactly what the shared `for_user` keeps and, unless for superusers, performers with a visible assignment or, outside membership mode, with none |
| ModelQuerysets.UnitsForUser | micboard/models/hardware/wireless_unit.py:27-43 | keeps exactly what the shared `for_user` keeps and, unless for superusers, units monitored by location, whole building or channel |
| ModelQuerysets.OrdinaryPerformersUnsplit | micboard/models/monitoring/performer.py:17-37 | for an ordinary user in membership mode a performer is kept exactly when one assignment is visible, and that one assignment is inside the user's tenant and at the site |
| ModelQuerysets.SuperuserPerformerSplits | micboard/models/monitoring/performer.py:31-32 | a superuser without the cross-organization view gets a performer none of whose assignments is both in their organization and at the site |
| Consumers.MembershipGroups | micboard/websockets/consumers.py:47-76 | exactly the groups of the user's routed memberships |
| Consumers.RoutesByFields | micboard/websockets/consumers.py:47-76 | by fields: the campus groups and organization groups of the user's own active, consistent memberships at the site, and no other |
| Consumers.GroupsWithout | micboard/websockets/consumers.py:47-76 | removing a membership of another user, an inactive or an inconsistent one leaves the groups as they are |
| Consumers.CurrentGroupsAreAuthorized | micboard/websockets/consumers.py:92-108 | the resolved groups are exactly those that the user is entitled to, mode by mode |
| Consumers.ForwardedUnchanged | micboard/websockets/consumers.py:270-273 | dropping the dispatch key and putting it back forwards the event as it is |
| Consumers.ClientSeesWire | micboard/websockets/consumers.py:262-281 | the client sees the event as it was published, but that a status update is called `status` |
| Consumers.Consumer.Connect | micboard/websockets/consumers.py:155-203 | the step function's connect: rejected with its code and nothing joined, or joined to the resolved groups and accepted, exactly for users who may connect; other channels untouched |
| Consumers.AdmissionExactly | micboard/websockets/consumers.py:160-193 | admitted exactly are signed-in, active users with what the mode asks for: a route, nothing more by sites, the view permission at a single site; otherwise the code is 4401 for users not signed in and 4403 for the rest |
| Consumers.ConnectExactly | micboard/websockets/consumers.py:155-198 | connecting ends accepted and joined to the mode's groups exactly for those users; otherwise nothing is joined and the code is sent |
| Consumers.AdmittedExactlyWhenAuthorized | micboard/websockets/consumers.py:92-108 | where the connection's view of the account is the stored one and a site in force is positive, admission is having some group granted |
| Consumers.Consumer.CloseRevoked | micboard/websockets/consumers.py:116-127 | every joined group is left, nothing stays joined, the close code is sent; other channels untouched |
| Consumers.Consumer.CanForward | micboard/websockets/consumers.py:129-148 | true exactly without a refusal, and then nothing changes; otherwise the connection is revoked with the refusal's code |
| Consumers.Consumer.SendAuthorized | micboard/websockets/consumers.py:150-153 | sends the payload exactly when allowed at that moment, otherwise revokes |
| Consumers.Consumer.Disconnect | micboard/websockets/consumers.py:205-210 | leaves every joined group; other channels untouched |
| Consumers.Consumer.Receive | micboard/websockets/consumers.py:212-260 | only an accepted-size JSON object with the ping command leads to a (revalidated) pong; oversized frames close with 1009 |
| Consumers.Consumer.Handle | micboard/websockets/consumers.py:262-281 | an event's payload is forwarded through the same revalidation |
| Consumers.RefusalExact | micboard/websockets/consumers.py:129-148 | forwarding is refused unless something is joined and every joined group is granted to a signed-in, known user |
| Consumers.RefusalCodes | micboard/websockets/consumers.py:129-148 | the code is 4401 for a connection not signed in or without a known key and 4403 for one with nothing joined or something no longer granted |
| Consumers.RunIsSafe | micboard/websockets/consumers.py:116-210 | in every run each sent payload stems from one step, whose operation produced it and whose stored state granted every joined group, its own group included; layer membership equals what is joined, and is empty after disconnect |
| Consumers.SentInOrder | micboard/websockets/consumers.py:129-153 | the log has one entry for each step that sends and no other, in the order of the steps, and each was right at its step |
| Consumers.JoinedExactly | micboard/websockets/consumers.py:129-203 | what is joined after any run, from the history alone: the groups admitted at connect, until some ping or event for one of them meets a state that does not grant them all |
| Consumers.RevocationIsFinal | micboard/websockets/consumers.py:116-148 | once nothing is joined after the connection attempt, nothing is sent or joined again and the layer holds nothing |
| Consumers.ForwardedExactly | micboard/websockets/consumers.py:129-153 | in every run a published event is forwarded exactly when its group is joined and all joined groups are still granted, extra grants or not; otherwise nothing is sent, and a joined connection is revoked |
| Consumers.TooLargeLeavesMembership | micboard/websockets/consumers.py:217-239 | a 1009 close, unlike a revocation, changes nothing else: after it every later step joins, sends and leaves as without it |
| Consumers.AcceptedMayReceive | micboard/websockets/consumers.py:155-193 | an accepted connection can receive at once exactly when the stored account is active and its single group passes the later check too (positive site, stored permission) |
| Consumers.AcceptedMayNotReceive | micboard/websockets/consumers.py:182-183 | the condition can fail: by sites alone and with `SITE_ID` 0 a connection is accepted that may receive nothing |
| Routing.GrantedByScope | micboard/services/notification/realtime_routing_service.py:61-87 | who is granted events about an organization and campus at one moment: the organization's members and that campus's members |
| Routing.GrantedAgainstVisible | micboard/services/notification/realtime_routing_service.py:62-87 | in membership mode, for every model and active user, superusers included: events about a row are granted just as the row is queried if and only if, where the user's filter covers the row, its site is current exactly when a membership routes the event and the organization's site is current |
| Routing.GrantedExactlyWhenVisible | micboard/services/notification/realtime_routing_service.py:62-87 | for users without the cross-organization view and every model but the organization itself grant and query agree, except exactly on covered rows in multi-site mode where the row's site and its organization's site disagree about being the current one |
| Routing.GrantedButNotVisible | micboard/models/base_managers.py:151-161 | a chassis at another site, of an organization of this site: its events are granted and it is not queried |
| Routing.VisibleButNotGranted | micboard/websockets/consumers.py:68-69 | a chassis at this site, of an organization of another site: queried, and its events are not granted |
| Routing.UnitGrantedExactlyWhenVisible | micboard/models/hardware/wireless_unit.py:27-43 | the grant against the unit queryset, which asks for monitoring as well |
| Routing.GrantedExactlyWhenVisibleBySite | micboard/services/notification/realtime_routing_service.py:73-80 | by sites alone grant and query agree on a row with a site unless it is the current one and not positive; a row is queried exactly at the current site, and an event without a site is granted there though nobody can query the row |
| Routing.GrantedByPermission | micboard/services/notification/realtime_routing_service.py:73-75 | at a single site everything is granted by one permission, so the two agree exactly when holding it matches what monitoring lets the user query |
| Delivery.PublishedExactly | micboard/services/notification/broadcast_service.py:37-60 | after any run, one event published to any groups in turn: one copy for each joined group if all joined groups are granted; otherwise nothing, and the connection is revoked if it had joined one of them |
| Delivery.DeliveredExactly | micboard/websockets/consumers.py:129-153 | the client is sent an event about a place exactly when all joined groups are still granted and one of the place's groups is joined |
| Delivery.SentTwiceExactly | micboard/services/notification/realtime_routing_service.py:83-87 | never more than two copies, and two exactly when the campus's group and its organization's are both joined and everything joined is granted |
| Delivery.CampusEventIsSentTwice | micboard/services/notification/realtime_routing_service.py:83-87 | a member of an organization and of one of its campuses is sent an event about the campus twice |
| Delivery.NeverShortExactly | micboard/websockets/consumers.py:92-153 | a connection is sent every event that is granted, about whatever place, exactly when nothing is granted or it is up to date: all joined groups granted, and each granted group joined, itself or its organization's |
| Delivery.FreshDelivery | micboard/websockets/consumers.py:155-193 | in every mode, on a connection just opened under the same stored state, delivery is admission and the grant |
| Delivery.DeliveredAgainstVisible | micboard/websockets/consumers.py:129-153 | in membership mode, after any run, for every model and user: the event is sent exactly when the row is queried, if and only if, where the user's filter covers the row, its site is current exactly when the connection is reached |
| Delivery.DeliveredExactlyWhenVisible | micboard/services/notification/realtime_routing_service.py:62-87 | on an up-to-date connection and without the cross-organization view, delivery and query differ exactly on covered rows in multi-site mode whose site and whose organization's site disagree |
| Delivery.UnitDeliveredExactlyWhenVisible | micboard/models/hardware/wireless_unit.py:27-43 | the same for any connection and wireless units, whose queryset asks for monitoring as well |
| Delivery.DeliveredExactlyWhenVisibleBySite | micboard/services/notification/realtime_routing_service.py:73-80 | by sites alone, for any connection: the exact condition for rows at a site, without one, and with site 0 |
| Delivery.DeliveredByPermission | micboard/services/notification/realtime_routing_service.py:73-75 | at a single site, for any connection: delivery and query agree exactly when the joined and still granted global group matches what monitoring lets the user query |
| Delivery.GainedIsNotDelivered | micboard/websockets/consumers.py:155-198 | an organization joined after connecting: its chassis are queried, its events granted and not sent |
| Delivery.LostElsewhereIsNotDelivered | micboard/websockets/consumers.py:129-148 | one of two memberships lost: the other's chassis are queried, its events granted and not sent, and the connection is revoked |
| Delivery.SentButNotVisible | micboard/models/base_managers.py:151-161 | an event sent just after connecting about a chassis that the user cannot query |
| Settings.SpacedIntParses | micboard/models/settings/registry.py:162-163 | printing any integer and parsing it gives it back, with surrounding space and a plus sign allowed |
| Settings.ParseIntExactly | micboard/models/settings/registry.py:162-163 | a text parses as an integer exactly when it is space, a sign or none, one or more digits, and space |
| Settings.SpelledParses | micboard/models/settings/registry.py:162-163 | and its value is that of the digits by their places, with the sign |
| Settings.OtherCharacterIsRefused | micboard/models/settings/registry.py:162-163 | any other character anywhere makes it no integer |
| Settings.PrintedPlainly | micboard/models/settings/registry.py:179-185 | printing writes digits without a leading zero |
| Settings.BooleanParsesExactly | micboard/models/settings/registry.py:164-170 | a boolean text is one of the four words for its value, in any case |
| Settings.ParseValueExactly | micboard/models/settings/registry.py:158-176 | a text is accepted exactly when its type accepts it, described without parsing |
| Settings.ValueRoundTrip | micboard/models/settings/registry.py:158-185 | storing a value and reading it back gives the value exactly when it is of the definition's type |
| Settings.ParsedValueIsStable | micboard/models/settings/registry.py:158-185 | a text that parses gives an admitted value, and storing that value again gives the same value |
| Settings.StoredTruth | micboard/models/settings/registry.py:179-185 | what is stored for a boolean setting reads back as the value's truth |
| Settings.CheckAgreesWithScope | micboard/models/settings/registry.py:234-258 | the check constraint holds exactly when `resolve_scope` finds one scope |
| Settings.ScopeNamesTarget | micboard/settings/scope_policy.py:10-42 | each of the four scopes stands for exactly the one target that is set |
| Settings.PartialConstraintsExact | micboard/models/settings/registry.py:259-294 | on checked rows the four partial constraints clash exactly for equal definition and target |
| Settings.TogetherNeverRejects | micboard/models/settings/registry.py:230-232 | under SQL's nulls the plain `unique_together` rejects no checked row |
| Settings.ValidateExistingOverrides | micboard/models/settings/registry.py:120-156 | the scope error is set exactly when some override mismatches, the type error exactly when some override no longer parses |
| Settings.Clean | micboard/models/settings/registry.py:97-118 | each of the four errors is reported exactly for its cause; the default's exactly when its text is not one that the type accepts |
| Settings.DefinitionEditExact | micboard/models/settings/registry.py:97-156 | from a consistent registry, a definition edit passes exactly when the registry with it is consistent |
| Settings.CleanOverride | micboard/forms/settings_admin.py:160-198 | the override form and the row's own checks report each of six errors exactly for its cause, and save the stripped value, or the stored one where a secret's value is left out |
| Settings.OverrideEditExact | micboard/forms/settings_admin.py:175-195 | from a consistent registry an override with a value passes exactly when the registry with it is consistent; an empty value passes exactly for a stored secret that may be left out, and is then not parsed |
| Settings.EmptySecretIsNotParsed | micboard/forms/settings_admin.py:166-177 | so a stored empty secret moved to an integer setting is accepted and can no longer be read |
| Settings.EveryRunConsistent | micboard/models/settings/registry.py:97-156 | every sequence of edits, deletions included, leaves defaults that parse, overrides that fit and are not empty, and no two overrides for one target |
| Settings.StoredValueIsUnique | micboard/models/settings/registry.py:259-294 | so the stored overrides are a partial function of definition and target, and each can be read |
| Changelog.ParseRenderInverse | scripts/promote_changelog.py:25-39 | reading a changelog by sections and printing it are inverse to each other |
| Changelog.TerminatorEndsLine | scripts/promote_changelog.py:25 | each terminator ends one line, and a carriage return with its line feed is one |
| Changelog.RStripExact | scripts/promote_changelog.py:49 | only space goes, from the end, and all of it |
| Changelog.RefusedWithoutHeading | scripts/promote_changelog.py:26-31 | refused exactly when no line starts with the Unreleased heading |
| Changelog.WrittenLines | scripts/promote_changelog.py:49 | reading the written text back gives the joined lines without trailing space |
| Changelog.NewReleaseIsSingle | scripts/promote_changelog.py:41-47 | the notes arrive as one release exactly when none of their lines starts like a release heading |
| Changelog.NewReleaseNamed | scripts/promote_changelog.py:43 | the new release is headed by the version in brackets, a dash and the date |
| Changelog.QuotedHeadingSplits | scripts/promote_changelog.py:41-47 | notes that quote a release heading are read back as a further release |
| Changelog.PromotionInsertsRelease | scripts/promote_changelog.py:23-49 | refused exactly without an Unreleased heading; otherwise reading the result gives the same preamble and heading, an empty Unreleased section, the new release and the old ones in order, apart from trailing space |
| Changelog.PromotionsStack | scripts/promote_changelog.py:23-49 | after any number of promotions the releases stand newest first ahead of the old ones |
| Discovery.ExpandCidrs | micboard/discovery/network_utils.py:14-35 | exactly the first clamped number of hosts of all valid ranges in order |
| Discovery.TakenExactly | micboard/discovery/network_utils.py:14-35 | these are the requested number, at most 4096, or all there are, and none for a number that is not positive |
| Discovery.AllHostsAppend | micboard/discovery/network_utils.py:14-35 | the hosts of two lists of ranges follow each other |
| Discovery.HostsOfOne | micboard/discovery/network_utils.py:14-35 | invalid notation gives no host |
| Discovery.Dedup | micboard/integrations/shure/discovery_client.py:60 | `dict.fromkeys` keeps each entry once |
| Discovery.FilterAppend | micboard/integrations/shure/discovery_client.py:39-56 | validation goes entry by entry and keeps order and repetition |
| Discovery.AddDiscoveryIps | micboard/integrations/shure/discovery_client.py:25-75 | true exactly when the merged list is within all limits and reaches the remote, which then holds it; otherwise the remote is untouched |
| Discovery.GivenUpExactly | micboard/integrations/shure/discovery_client.py:36-63 | given up exactly for too many inputs, no valid input, an unusable reading, or more than 4096 distinct valid entries in all |
| Discovery.AddKeepsList | micboard/integrations/shure/discovery_client.py:43-68 | an accepted add keeps the valid old entries first, without duplicates, at most 4096, and holds exactly the valid ones of the old and the new |
| Discovery.AddKeepsAllExactly | micboard/integrations/shure/discovery_client.py:53-60 | every old entry survives an accepted add exactly when all of them are valid |
| Discovery.AddIsIdempotent | micboard/integrations/shure/discovery_client.py:60-68 | repeating an accepted add is accepted and changes nothing |
| Discovery.AddsCombine | micboard/integrations/shure/discovery_client.py:60-68 | two accepted adds leave what one add of both inputs would, whatever was stored |
| Discovery.FailedReadingForgets | micboard/integrations/shure/discovery_client.py:57-58 | when the list cannot be read, old entries survive an accepted add exactly when they are all added again |
| Discovery.FailedReadingLosesEntry | micboard/integrations/shure/discovery_client.py:57-58 | a valid stored entry is lost when another is added while the list cannot be read |

## Left out

- ImportReports.FormatReport: the lines are data (heading, edge, size), not laid-out text.
- ImportReports.BuildImportGraph: takes the candidate names of each import statement; reading files, parsing them and resolving relative imports are not modelled. Paths compare as strings; within one source module the path is always the same, so this never decides a location.
- ComponentFinders.ComponentFinder.Visit: Python's recursion limit is not modelled.
- ImportReports.PrintCycle: the inner loop of `format_report` is a method of its own, as is the loop over the edge list.
- SseClient.ConsumeMessages: reads all lines before dispatching them, so when the callback runs relative to later chunks is not captured, and neither are errors raised by the callback.
- SseClient.ReadChunk: the body of the loop over the chunks is a method of its own.
- Connecting, authenticating and subscribing to the event stream, and the control URL checks.
- Consumers.RunIsSafe: handlers are atomic steps; a change of authorization between the check and the send of one handler is not modelled, and a run follows Channels' lifecycle (connect first and once, nothing after disconnect).
- Consumers.Consumer.Handle: the four event handlers are one method over an event datatype; an event without its expected key (a `KeyError`) is not modelled. JSON values are opaque text, group names are constructors.
- Consumers.MembershipGroups: the order of the membership query is taken as given.
- Tenancy.ForUser: rows are sets of joined lookup values; the ORM itself is not modelled. Monitoring groups are two given id sets.
- ModelQuerysets.UnitsForUser: `RFChannelQuerySet.for_user` narrows in the same way by locations and is not modelled. A signed-in account always has its relation to monitoring groups.
- Delivery.PublishedExactly: the stored state is the same for the copies of one event, and each copy is handled before the next; failing sends are not modelled.
- Routing.GrantedAgainstVisible: events are about one row that shows one place, as chassis and units do; how producers find that place and events about whole manufacturers are left out, and so are users who are signed in but no longer active.
- Settings.ValueRoundTrip: JSON-typed values are left out; integers are ASCII decimal digits with sign and surrounding space, without underscores, other digits or Python's limit on digit count; `True == 1` is not an equality of the model.
- Settings.CleanOverride: who may manage a scope, inactive definitions, the choices offered for targets, and the exception that an unknown definition raises in the model's `clean` are left out; so are secret defaults kept on omission and writes that bypass the forms.
- Discovery.AddDiscoveryIps: entries are strings and validation is a filter; rate limiting and logging are left out.
- Views, serializers, admin classes, migrations, caching, hardware lifecycle, polling, deduplication, name resolution, `remove_discovery_ips` and the remaining scripts are not part of this model.
