# Discovery-namespace filter

A model of the discovery-namespace filter of a service-mesh control plane
(`pkg/kube/namespace/filter.go`). The filter decides which namespaces of a
cluster are in scope for discovery. It keeps three pieces of state:

- the set of member namespace names;
- the active, compiled label selectors;
- the registered transition handlers.

A namespace is selected when no selectors are active, or when at least one
selector matches its labels. The filter changes state in two ways:

- A bulk selector change recomputes membership from the namespace list and
  tells every handler which names joined and which names left.
- Namespace create, update and delete events adjust membership one name at a
  time.

The model consists of these files:

- `wrappers.dfy`: `Option`.
- `labels.dfy`: a stand-in for the label library the filter calls. It has
  selector specifications, their meaning, compilation (`Compile`) and
  evaluation (`Matches`).
- `sorting.dfy`: a stand-in for `sets.SortedList`. It lists a set of strings
  in ascending lexicographic order.
- `membership.dfy`: the pure part of the filter. It defines selection, the
  membership recomputed from a namespace list, the effect of each incremental
  event on membership, the notification sequences, and the lemmas about them.
- `filter.dfy`: the filter itself as a class. Its fields are `members`,
  `selectors`, `handlers` and `log`. A handler is an identity (`HandlerId`).
  Calling a handler appends a `Notification(handler, name, event)` to `log`.
  The namespace source is replaced by a `seq<NamespaceMeta>` argument to the
  operations that list namespaces. The informer callbacks that the
  source's constructor wires up are the methods `OnAdd`, `OnUpdate` and
  `OnDelete`.
- `nil_membership.dfy`: the membership field as the Go constructor can leave
  it (see Findings).
- `scenarios.dfy`: client methods. They walk through documented behaviour
  using only the contracts: create, update and delete under `env=prod`,
  the self-name rule of `Filter`, an invalid selector, a repeated selector
  change, and an aborted start.

Where the code is odd, the model follows it:

- `NamespaceDeleted` removes the name when the deleted namespace's labels are
  selected (filter.go:243). It does not check whether the name was a member,
  although the doc comments at filter.go:48 and filter.go:241 say "was
  selected" and "was a member". The two tests agree when membership equals
  the recomputation over a list with unique names and the deleted namespace
  carries its listed labels (`DeleteKeepsRecompute`).
- `NamespaceUpdated` looks up, adds and removes the OLD name (filter.go:230-235).
  The informer callback then notifies under the NEW name (filter.go:89, 93).
  The model does not assume that names never change. `UpdateKeepsRecompute`
  takes equal names as an explicit precondition, and `RenameBreaksRecompute`
  shows that this precondition is needed.
- With no selectors, `SelectorsChanged` re-inserts the whole list once per
  listed namespace (filter.go:164-168). The model keeps that loop
  (`CollectSelected`). It proves that the result is still the set of all
  listed names.

## Model

| member | source | states |
|---|---|---|
| `Labels.ConjunctionSplits` | pkg/kube/namespace/filter.go:159 | Requirements are AND-combined: a selector whose requirements are r1 followed by r2 matches a label set exactly when the selector with r1 (and the equalities) matches and the selector with only r2 matches. |
| `Labels.EachRequirementAlone` | pkg/kube/namespace/filter.go:159 | A selector matches exactly when its equalities alone match and each of its requirements, taken as a one-requirement selector, matches. |
| `Labels.Compile` | pkg/kube/namespace/filter.go:148 | A specification compiles exactly when every key, value and expression in it is well formed. An absent specification compiles to a selector that matches nothing, and an empty one to a selector that matches everything. A compiled selector matches exactly the label sets its specification describes. |
| `Sorting.SortedSpec` | pkg/kube/namespace/filter.go:172-173 | The sorted listing of a set holds each member exactly once, in strictly ascending order, and has the set's size. |
| `Sorting.SortedList` | pkg/kube/namespace/filter.go:172-173 | Returns the sorted listing of the set. |
| `Membership.CompileSpecs` | pkg/kube/namespace/filter.go:146-154 | Compiling a list of specifications fails exactly when one of them does not compile. On success the result has one compiled selector per specification, in order. |
| `Membership.SelectedNamesSnoc` | pkg/kube/namespace/filter.go:156-162 | Adding a namespace to the list adds its name to the recomputed membership exactly when its labels are selected. |
| `Membership.SelectAllListsEveryName` | pkg/kube/namespace/filter.go:163-168 | With no selectors, the recomputed membership is every listed name. |
| `Membership.MemberIffSelected` | pkg/kube/namespace/filter.go:156-162 | When names are unique, a listed namespace is in the recomputed membership exactly when its labels are selected. |
| `Membership.CreateKeepsRecompute` | pkg/kube/namespace/filter.go:220-226 | A creation's effect on the recomputed membership equals the recomputation over the list with the new namespace added. |
| `Membership.SelectedNamesWithout` | pkg/kube/namespace/filter.go:242-248 | When names are unique, removing a namespace from the list removes exactly its name from the recomputed membership. |
| `Membership.DeleteKeepsRecompute` | pkg/kube/namespace/filter.go:242-248 | A deletion's effect on the recomputed membership equals the recomputation over the list without that namespace. This needs unique names and the namespace's listed labels. |
| `Membership.UpdateKeepsRecompute` | pkg/kube/namespace/filter.go:229-239 | An update's effect on the recomputed membership equals the recomputation over the list holding the new labels. This assumes the update keeps the name. |
| `Membership.RenameBreaksRecompute` | pkg/kube/namespace/filter.go:234-236 | If an update changes the name from "a" to "b" with no selectors, membership keeps "a" while the recomputation holds "b". |
| `Membership.Broadcast` | pkg/kube/namespace/filter.go:185-189 | One notification goes to each handler, in registration order, all with the same name and event. |
| `Membership.FanoutMembers` | pkg/kube/namespace/filter.go:174-179 | Notifying a list of names tells every handler about every name, with the given event, and nothing else. |
| `Membership.FanoutEvents` | pkg/kube/namespace/filter.go:174-179 | Every notification sent for a list of names carries the given event. |
| `Membership.FanoutAt` | pkg/kube/namespace/filter.go:174-188 | The notification at position p times the handler count plus q tells handler q about name p. So the names come in list order and, for each name, the handlers come in registration order, duplicates included. |
| `Membership.FanoutLength` | pkg/kube/namespace/filter.go:174-179 | Notifying a list of names sends one notification per handler and per name. |
| `Membership.FanoutAscending` | pkg/kube/namespace/filter.go:172-179 | When the names are in ascending order, the notifications come in ascending name order. |
| `Membership.TransitionsExact` | pkg/kube/namespace/filter.go:171-179 | A selector change tells every handler Added for exactly the names that joined (new minus old) and Deleted for exactly the names that left (old minus new). It sends nothing else. |
| `Membership.TransitionsAddsFirst` | pkg/kube/namespace/filter.go:174-179 | Every Added notification comes before every Deleted one. |
| `Membership.TransitionsGroupsAscending` | pkg/kube/namespace/filter.go:172-179 | Within the Added group and within the Deleted group, names come in ascending order. |
| `Membership.UnchangedIsSilent` | pkg/kube/namespace/filter.go:171-179 | If membership does not change, nothing is notified. |
| `Membership.NoHandlersIsSilent` | pkg/kube/namespace/filter.go:185-189 | With no handlers registered, nothing is notified. |
| `NamespaceFilter.CompileSelectors` | pkg/kube/namespace/filter.go:146-154 | The compile loop stops at the first specification that fails. Its result is the compilation of the whole list. |
| `NamespaceFilter.CollectSelected` | pkg/kube/namespace/filter.go:156-169 | The nested loop of a selector change, including the re-insertion of every name when there are no selectors, yields the recomputed membership. |
| `NamespaceFilter.CollectForSync` | pkg/kube/namespace/filter.go:196-211 | The loops of a sync yield the recomputed membership. |
| `NamespaceFilter.DiscoveryNamespacesFilter.constructor` | pkg/kube/namespace/filter.go:64-73 | A new filter has no handlers and an empty log. If the selectors compile, it holds them and the recomputed membership. Otherwise it has no selectors and no members. |
| `NamespaceFilter.DiscoveryNamespacesFilter.Filter` | pkg/kube/namespace/filter.go:106-129 | Filter is true whenever no selectors are active. Otherwise the result is membership of: a bare name's name; a namespace object's own name; any other object's namespace field. An unresolvable input gives false. |
| `NamespaceFilter.DiscoveryNamespacesFilter.IsSelected` | pkg/kube/namespace/filter.go:282-297 | True when no selectors are active. Otherwise true exactly when some selector matches the labels. |
| `NamespaceFilter.DiscoveryNamespacesFilter.FilterNamespace` | pkg/kube/namespace/filter.go:131-133 | Judges a namespace by selection of its labels. |
| `NamespaceFilter.DiscoveryNamespacesFilter.SelectorsChanged` | pkg/kube/namespace/filter.go:136-183 | If a specification fails to compile, members, selectors and log are all unchanged. Otherwise the selectors become the compiled list and members become the recomputation from the namespace list. The log gains the transitions from the old members to the new ones. Handlers are never changed. |
| `NamespaceFilter.DiscoveryNamespacesFilter.NotifyTransitions` | pkg/kube/namespace/filter.go:172-179 | The log gains Added for the sorted joined names, then Deleted for the sorted names that left. |
| `NamespaceFilter.DiscoveryNamespacesFilter.NotifyNamespaceHandlers` | pkg/kube/namespace/filter.go:185-189 | The log gains one notification per handler, in registration order. |
| `NamespaceFilter.DiscoveryNamespacesFilter.NotifyEach` | pkg/kube/namespace/filter.go:174-179 | The log gains the notifications for each name in turn. |
| `NamespaceFilter.DiscoveryNamespacesFilter.SyncNamespaces` | pkg/kube/namespace/filter.go:191-217 | Members become the recomputation from the active selectors and the list. Selectors, handlers and log are unchanged. It always returns no error. |
| `NamespaceFilter.DiscoveryNamespacesFilter.NamespaceCreated` | pkg/kube/namespace/filter.go:219-226 | Returns whether the labels are selected. If they are, the name is inserted. No other name changes. |
| `NamespaceFilter.DiscoveryNamespacesFilter.NamespaceUpdated` | pkg/kube/namespace/filter.go:228-239 | There are three outcomes. If the old name was a member and the new labels are not selected: (true, false) and the old name is removed. If the old name was not a member and the new labels are selected: (true, true) and the old name is added. Otherwise: (false, false) and members are unchanged. |
| `NamespaceFilter.DiscoveryNamespacesFilter.NamespaceDeleted` | pkg/kube/namespace/filter.go:241-248 | Returns whether the labels are selected. If they are, the name is removed. No other name changes. |
| `NamespaceFilter.DiscoveryNamespacesFilter.GetMembers` | pkg/kube/namespace/filter.go:250-255 | Returns a value equal to the current members. Later changes to the filter cannot alter it. |
| `NamespaceFilter.DiscoveryNamespacesFilter.AddHandler` | pkg/kube/namespace/filter.go:257-262 | Appends exactly one handler at the end. Members, selectors and log are unchanged. |
| `NamespaceFilter.DiscoveryNamespacesFilter.AddNamespace` | pkg/kube/namespace/filter.go:264-268 | Inserts one name into members. |
| `NamespaceFilter.DiscoveryNamespacesFilter.HasNamespace` | pkg/kube/namespace/filter.go:270-274 | True exactly when the name is a member. |
| `NamespaceFilter.DiscoveryNamespacesFilter.RemoveNamespace` | pkg/kube/namespace/filter.go:276-280 | Removes one name from members. |
| `NamespaceFilter.DiscoveryNamespacesFilter.OnAdd` | pkg/kube/namespace/filter.go:76-82 | Applies the creation. If the namespace joined, its name is broadcast with Added. |
| `NamespaceFilter.DiscoveryNamespacesFilter.OnUpdate` | pkg/kube/namespace/filter.go:83-96 | Applies the update, which works on the old name. When membership changes, the NEW name is broadcast: Added if it joined, Deleted if it left. |
| `NamespaceFilter.DiscoveryNamespacesFilter.OnDelete` | pkg/kube/namespace/filter.go:97-100 | Applies the deletion and notifies nothing. |
| `NamespaceFilter.FilterAgreesWithSelection` | pkg/kube/namespace/filter.go:123-128 | Suppose membership is the recomputation over a list with unique names. Then filtering a listed namespace object gives the same answer as judging that namespace by its labels. |
| `NamespaceFilter.RepeatedSelectorsChangedIsSilent` | pkg/kube/namespace/filter.go:170-179 | If members already equal the selection of the compiled specifications over the list, the transitions to that selection are empty. Together with `SelectorsChanged`'s ensures, this means that repeating a selector change with the same specifications over the same list appends nothing to the log. The client method `FilterScenarios.RepeatedChangeIsSilent` proves this for arbitrary specifications and lists. |
| `NilMembership.InitialMembersAsWritten` | pkg/kube/namespace/filter.go:68-73 | After construction, the membership field is a nil map exactly when the initial selectors fail to compile. |
| `NilMembership.InsertAsWritten` | pkg/kube/namespace/filter.go:264-268 | Inserting into a nil map panics. Inserting into an allocated set adds the name. |
| `NilMembership.AbortedStartPanicsOnCreate` | pkg/kube/namespace/filter.go:68-73 | A start with a selector using the operator "Equals" leaves the field nil. The next selected creation then panics. |

## Findings

| source | as written | input that shows it | evidently intended | confidence | as-written member | corrected member |
|---|---|---|---|---|---|---|
| pkg/kube/namespace/filter.go:68-73 | The constructor never allocates the membership set; only a successful `SelectorsChanged` assigns one | Construct with one selector whose expression has operator "Equals", then deliver a created namespace "ns1". No selectors are active, so "ns1" is selected and `addNamespace` writes to a nil map | An aborted start leaves an empty, usable set, as `SyncNamespaces` and `SelectorsChanged` would allocate | medium, not executed | `NilMembership.AbortedStartPanicsOnCreate` | `NamespaceFilter.DiscoveryNamespacesFilter.constructor` |

The corrected constructor starts from the empty set. `FilterScenarios.AbortedStartStillAdmitsCreate` shows that, after an aborted start, a created namespace is then admitted.

## Left out

- Locking: the `sync.RWMutex` around every operation is not modelled. The filter is a single-threaded object, so the read lock taken around the handler-list append in `AddHandler` is not represented.
- Namespace source: the list/watch client and the informer registration are replaced by a namespace-list argument. The informer callbacks are methods called directly.
- Label library: `Compile` and `Matches` stand in for `metav1.LabelSelectorAsSelector` and `labels.Selector.Matches`, which are foreign calls. Key and value syntax is checked for character set, length and alphanumeric ends. The label library's full DNS-subdomain rule for key prefixes, and its error messages, are not modelled.
- Object extraction: `controllers.ExtractObject` and the Go type switch on `any` are a foreign call. A deletion tombstone that still carries an object is represented by that object. `Unresolvable` covers everything from which no object can be recovered.
- Handlers: handlers are identities, and calling one is an entry in `log`. What a handler does, and the filter state it could observe while being called, are not modelled. In the source, handlers run before the new state is swapped in.
- Logging of an invalid selector (`log.Errorf`) is not modelled.
- `NamespaceFilter.DiscoveryNamespacesFilter.Filter`: the O(1) cost of the membership test is not stated.
