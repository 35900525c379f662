/**
 * The discovery-namespace filter of pkg/kube/namespace/filter.go as a
 * single-threaded object: the set of member namespace names, the active
 * compiled selectors, the registered handlers, and the log of handler
 * invocations that stands for the handlers' effects.
 *
 * The namespace source (a list/watch client) is replaced by the namespace
 * list passed to the operations that read it.
 */
module NamespaceFilter {
  import opened Wrappers
  import opened Labels
  import opened Sorting
  import opened Membership

  datatype Kind = NamespaceKind | OtherKind

  /**
   * What Filter may be given: a bare namespace name, a resolvable object
   * (its kind, own name and namespace field), or something from which no
   * object can be recovered (such as a deletion tombstone without one).
   */
  datatype FilterInput =
    | NamespaceName(ns: string)
    | Object(kind: Kind, name: string, namespace: string)
    | Unresolvable

  type Error = string

  /** The compile loop of SelectorsChanged: stops at the first specification that does not compile. */
  method CompileSelectors(specs: seq<Option<LabelSelector>>) returns (r: Option<seq<Selector>>)
    ensures r == CompileSpecs(specs)
  {
    var sels: seq<Selector> := [];
    var i := 0;
    while i < |specs|
      invariant 0 <= i <= |specs|
      invariant |sels| == i
      invariant forall j :: 0 <= j < i ==> Compile(specs[j]) == Some(sels[j])
    {
      var ls := Compile(specs[i]);
      if ls.None? {
        assert CompileSpecs(specs).None?;
        return None;
      }
      sels := sels + [ls.value];
      i := i + 1;
    }
    assert CompileSpecs(specs).Some? && CompileSpecs(specs).value == sels;
    r := Some(sels);
  }

  /**
   * The recomputation loop of SelectorsChanged: every namespace is tested
   * against every selector, and with no selectors each namespace in turn
   * inserts the whole list again.
   */
  method CollectSelected(sels: seq<Selector>, list: seq<NamespaceMeta>) returns (next: set<string>)
    ensures next == SelectedNames(sels, list)
  {
    next := {};
    var i := 0;
    while i < |list|
      invariant 0 <= i <= |list|
      invariant next == if |sels| == 0 && i > 0 then SelectedNames(sels, list) else SelectedNames(sels, list[..i])
    {
      var ns := list[i];
      ghost var before := next;
      var j := 0;
      while j < |sels|
        invariant 0 <= j <= |sels|
        invariant next == before + (if exists k :: 0 <= k < j && Matches(sels[k], ns.labels) then {ns.name} else {})
      {
        if Matches(sels[j], ns.labels) {
          next := next + {ns.name};
        }
        j := j + 1;
      }
      if |sels| == 0 {
        ghost var base := next;
        var k := 0;
        while k < |list|
          invariant 0 <= k <= |list|
          invariant next == base + SelectedNames(sels, list[..k])
        {
          assert list[..k + 1] == list[..k] + [list[k]];
          SelectedNamesSnoc(sels, list[..k], list[k]);
          next := next + {list[k].name};
          k := k + 1;
        }
        assert list[..k] == list;
      }
      assert list[..i + 1] == list[..i] + [ns];
      SelectedNamesSnoc(sels, list[..i], ns);
      i := i + 1;
    }
    assert list[..i] == list;
  }

  /**
   * The recomputation loop of SyncNamespaces: with no selectors every name
   * is inserted once, then every namespace is tested against every selector.
   */
  method CollectForSync(sels: seq<Selector>, list: seq<NamespaceMeta>) returns (next: set<string>)
    ensures next == SelectedNames(sels, list)
  {
    next := {};
    if |sels| == 0 {
      var k := 0;
      while k < |list|
        invariant 0 <= k <= |list|
        invariant next == SelectedNames(sels, list[..k])
      {
        assert list[..k + 1] == list[..k] + [list[k]];
        SelectedNamesSnoc(sels, list[..k], list[k]);
        next := next + {list[k].name};
        k := k + 1;
      }
      assert list[..k] == list;
    }
    var i := 0;
    while i < |list|
      invariant 0 <= i <= |list|
      invariant next == if |sels| == 0 then SelectedNames(sels, list) else SelectedNames(sels, list[..i])
    {
      var ns := list[i];
      ghost var before := next;
      var j := 0;
      while j < |sels|
        invariant 0 <= j <= |sels|
        invariant next == before + (if exists k :: 0 <= k < j && Matches(sels[k], ns.labels) then {ns.name} else {})
      {
        if Matches(sels[j], ns.labels) {
          next := next + {ns.name};
        }
        j := j + 1;
      }
      assert list[..i + 1] == list[..i] + [ns];
      SelectedNamesSnoc(sels, list[..i], ns);
      i := i + 1;
    }
    assert list[..i] == list;
  }

  class DiscoveryNamespacesFilter {
    /** The names of the namespaces selected for discovery. */
    var members: set<string>
    /** The active compiled selectors; none means every namespace is selected. */
    var selectors: seq<Selector>
    /** The registered handlers, in registration order. */
    var handlers: seq<HandlerId>
    /** Every handler invocation so far, in order. */
    var log: seq<Notification>

    /**
     * A new filter: one selector change from the empty state, with no
     * handlers yet, so nothing is notified.
     */
    constructor (specs: seq<Option<LabelSelector>>, namespaceList: seq<NamespaceMeta>)
      ensures handlers == [] && log == []
      ensures CompileSpecs(specs).Some? ==>
                selectors == CompileSpecs(specs).value && members == SelectedNames(selectors, namespaceList)
      ensures CompileSpecs(specs).None? ==> selectors == [] && members == {}
    {
      members := {};
      selectors := [];
      handlers := [];
      log := [];
      new;
      SelectorsChanged(specs, namespaceList);
      NoHandlersIsSilent({}, members);
    }

    /**
     * Whether an object or namespace name lies in a namespace selected for
     * discovery. A namespace object is tested under its own name.
     */
    function Filter(obj: FilterInput): (r: bool)
      reads this
      ensures |selectors| == 0 ==> r
      ensures |selectors| != 0 && obj.NamespaceName? ==> (r <==> obj.ns in members)
      ensures |selectors| != 0 && obj.Object? && obj.kind == NamespaceKind ==> (r <==> obj.name in members)
      ensures |selectors| != 0 && obj.Object? && obj.kind != NamespaceKind ==> (r <==> obj.namespace in members)
      ensures |selectors| != 0 && obj.Unresolvable? ==> !r
    {
      if |selectors| == 0 then true
      else
        match obj
        case NamespaceName(ns) => ns in members
        case Object(kind, name, namespace) => (if kind == NamespaceKind then name else namespace) in members
        case Unresolvable => false
    }

    /** Whether some active selector matches the labels; with none active, every label set is selected. */
    method IsSelected(labels: LabelSet) returns (r: bool)
      ensures r == Selected(selectors, labels)
    {
      if |selectors| == 0 {
        return true;
      }
      var i := 0;
      while i < |selectors|
        invariant 0 <= i <= |selectors|
        invariant forall j :: 0 <= j < i ==> !Matches(selectors[j], labels)
      {
        if Matches(selectors[i], labels) {
          return true;
        }
        i := i + 1;
      }
      return false;
    }

    /** Whether a namespace, judged by its labels, is selected for discovery. */
    method FilterNamespace(ns: NamespaceMeta) returns (r: bool)
      ensures r == Selected(selectors, ns.labels)
    {
      r := IsSelected(ns.labels);
    }

    /**
     * Replaces the selectors. If a specification does not compile, nothing
     * changes and nothing is notified. Otherwise membership is recomputed
     * from the namespace list, the handlers are told of every name that
     * joined and then of every name that left, and the new selectors and
     * membership take effect.
     */
    method SelectorsChanged(specs: seq<Option<LabelSelector>>, namespaceList: seq<NamespaceMeta>)
      modifies this`members, this`selectors, this`log
      ensures CompileSpecs(specs).None? ==>
                members == old(members) && selectors == old(selectors) && log == old(log)
      ensures CompileSpecs(specs).Some? ==>
                && selectors == CompileSpecs(specs).value
                && members == SelectedNames(selectors, namespaceList)
                && log == old(log) + Transitions(handlers, old(members), members)
    {
      var compiled := CompileSelectors(specs);
      if compiled.None? {
        return;
      }
      var sels := compiled.value;
      var next := CollectSelected(sels, namespaceList);
      NotifyTransitions(members, next);
      members := next;
      selectors := sels;
    }

    /** Sends Added for each name that joins, then Deleted for each name that leaves, each in ascending order. */
    method NotifyTransitions(before: set<string>, after: set<string>)
      modifies this`log
      ensures log == old(log) + Transitions(handlers, before, after)
    {
      var selected := SortedList(after - before);
      var deselected := SortedList(before - after);
      NotifyEach(selected, EventAdd);
      NotifyEach(deselected, EventDelete);
    }

    /** Sends one event for one namespace to every handler, in registration order. */
    method NotifyNamespaceHandlers(ns: string, ev: Event)
      modifies this`log
      ensures log == old(log) + Broadcast(handlers, ns, ev)
    {
      var i := 0;
      while i < |handlers|
        invariant 0 <= i <= |handlers|
        invariant log == old(log) + Broadcast(handlers[..i], ns, ev)
      {
        assert handlers[..i + 1][..i] == handlers[..i];
        log := log + [Notification(handlers[i], ns, ev)];
        i := i + 1;
      }
      assert handlers[..i] == handlers;
    }

    /** Notifies the handlers of each name in turn. */
    method NotifyEach(names: seq<string>, ev: Event)
      modifies this`log
      ensures log == old(log) + Fanout(handlers, names, ev)
    {
      var i := 0;
      while i < |names|
        invariant 0 <= i <= |names|
        invariant log == old(log) + Fanout(handlers, names[..i], ev)
      {
        assert names[..i + 1][..i] == names[..i];
        NotifyNamespaceHandlers(names[i], ev);
        i := i + 1;
      }
      assert names[..i] == names;
    }

    /**
     * Recomputes membership from the active selectors and the namespace
     * list, without notifying anyone; never fails.
     */
    method SyncNamespaces(namespaceList: seq<NamespaceMeta>) returns (err: Option<Error>)
      modifies this`members
      ensures err == None
      ensures members == SelectedNames(selectors, namespaceList)
    {
      members := CollectForSync(selectors, namespaceList);
      err := None;
    }

    /** A created namespace joins when its labels are selected; reports whether it joined. */
    method NamespaceCreated(ns: NamespaceMeta) returns (membershipChanged: bool)
      modifies this`members
      ensures membershipChanged == Selected(selectors, ns.labels)
      ensures members == CreatedMembers(selectors, old(members), ns)
    {
      var selected := IsSelected(ns.labels);
      if selected {
        AddNamespace(ns.name);
        return true;
      }
      return false;
    }

    /**
     * An updated namespace leaves when it was a member and its new labels
     * are not selected, and joins when it was not a member and its new
     * labels are selected. Membership is looked up, added and removed under
     * the OLD name.
     */
    method NamespaceUpdated(oldNs: NamespaceMeta, newNs: NamespaceMeta) returns (membershipChanged: bool, namespaceAdded: bool)
      modifies this`members
      ensures oldNs.name in old(members) && !Selected(selectors, newNs.labels) ==>
                membershipChanged && !namespaceAdded && members == old(members) - {oldNs.name}
      ensures oldNs.name !in old(members) && Selected(selectors, newNs.labels) ==>
                membershipChanged && namespaceAdded && members == old(members) + {oldNs.name}
      ensures (oldNs.name in old(members)) == Selected(selectors, newNs.labels) ==>
                !membershipChanged && !namespaceAdded && members == old(members)
      ensures members == UpdatedMembers(selectors, old(members), oldNs, newNs)
    {
      var selected := IsSelected(newNs.labels);
      if HasNamespace(oldNs.name) && !selected {
        RemoveNamespace(oldNs.name);
        return true, false;
      }
      if !HasNamespace(oldNs.name) && selected {
        AddNamespace(oldNs.name);
        return true, true;
      }
      return false, false;
    }

    /**
     * A deleted namespace leaves when its labels are selected (not when it
     * is a member); reports whether that test held.
     */
    method NamespaceDeleted(ns: NamespaceMeta) returns (membershipChanged: bool)
      modifies this`members
      ensures membershipChanged == Selected(selectors, ns.labels)
      ensures members == DeletedMembers(selectors, old(members), ns)
    {
      var selected := IsSelected(ns.labels);
      if selected {
        RemoveNamespace(ns.name);
        return true;
      }
      return false;
    }

    /** A snapshot of the members; later changes to the filter do not reach it. */
    method GetMembers() returns (r: set<string>)
      ensures r == members
    {
      r := members;
    }

    /** Registers a handler after those already registered. */
    method AddHandler(h: HandlerId)
      modifies this`handlers
      ensures handlers == old(handlers) + [h]
      ensures members == old(members) && selectors == old(selectors) && log == old(log)
    {
      handlers := handlers + [h];
    }

    method AddNamespace(ns: string)
      modifies this`members
      ensures members == old(members) + {ns}
    {
      members := members + {ns};
    }

    /** Whether the name is a member. */
    function HasNamespace(ns: string): (r: bool)
      reads this
      ensures r <==> ns in members
    {
      ns in members
    }

    method RemoveNamespace(ns: string)
      modifies this`members
      ensures members == old(members) - {ns}
    {
      members := members - {ns};
    }

    // -------------------------------------------------------------------
    // The namespace-informer callbacks wired up by the constructor
    // -------------------------------------------------------------------

    /** On a namespace add: Added is sent for the namespace when it joined. */
    method OnAdd(ns: NamespaceMeta)
      modifies this`members, this`log
      ensures members == CreatedMembers(selectors, old(members), ns)
      ensures log == old(log) + (if Selected(selectors, ns.labels) then Broadcast(handlers, ns.name, EventAdd) else [])
    {
      var changed := NamespaceCreated(ns);
      if changed {
        NotifyNamespaceHandlers(ns.name, EventAdd);
      }
    }

    /**
     * On a namespace update: Added or Deleted is sent under the NEW name
     * when membership changed, although membership itself changed under the
     * old one.
     */
    method OnUpdate(oldNs: NamespaceMeta, newNs: NamespaceMeta)
      modifies this`members, this`log
      ensures members == UpdatedMembers(selectors, old(members), oldNs, newNs)
      ensures log == old(log) +
                (if oldNs.name in old(members) && !Selected(selectors, newNs.labels) then Broadcast(handlers, newNs.name, EventDelete)
                 else if oldNs.name !in old(members) && Selected(selectors, newNs.labels) then Broadcast(handlers, newNs.name, EventAdd)
                 else [])
    {
      var changed, added := NamespaceUpdated(oldNs, newNs);
      if changed {
        if added {
          NotifyNamespaceHandlers(newNs.name, EventAdd);
        } else {
          NotifyNamespaceHandlers(newNs.name, EventDelete);
        }
      }
    }

    /** On a namespace delete: membership is updated and nothing is notified. */
    method OnDelete(ns: NamespaceMeta)
      modifies this`members
      ensures members == DeletedMembers(selectors, old(members), ns)
      ensures log == old(log)
    {
      var _ := NamespaceDeleted(ns);
    }
  }

  /**
   * When membership is the recomputation over a list with unique names,
   * filtering a listed namespace object agrees with judging it by its labels.
   */
  lemma FilterAgreesWithSelection(f: DiscoveryNamespacesFilter, list: seq<NamespaceMeta>, k: nat)
    requires NamesUnique(list) && k < |list|
    requires f.members == SelectedNames(f.selectors, list)
    ensures f.Filter(Object(NamespaceKind, list[k].name, "")) == Selected(f.selectors, list[k].labels)
  {
    MemberIffSelected(f.selectors, list, k);
  }

  /**
   * Repeating a selector change with the same specifications over the same
   * namespace list finds membership unchanged, so it notifies nothing.
   */
  lemma RepeatedSelectorsChangedIsSilent(specs: seq<Option<LabelSelector>>, list: seq<NamespaceMeta>,
                                         hs: seq<HandlerId>, members: set<string>)
    requires CompileSpecs(specs).Some?
    requires members == SelectedNames(CompileSpecs(specs).value, list)
    ensures Transitions(hs, members, SelectedNames(CompileSpecs(specs).value, list)) == []
  {
    UnchangedIsSilent(hs, members);
  }
}
