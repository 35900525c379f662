/**
 * The pure part of the discovery-namespace filter (pkg/kube/namespace/filter.go):
 * selection of a namespace by an OR-combined list of selectors, the
 * membership set recomputed from a namespace list, the effect of each
 * incremental namespace event on a membership set, and the notifications a
 * selector change sends to the registered handlers.
 */
module Membership {
  import opened Wrappers
  import opened Labels
  import opened Sorting

  /** The part of a namespace's metadata the filter reads. */
  datatype NamespaceMeta = NamespaceMeta(name: string, labels: LabelSet)

  datatype Event = EventAdd | EventDelete

  /** A registered handler, known by its registration identity. */
  type HandlerId = nat

  /** One invocation of a handler with a namespace name and an event. */
  datatype Notification = Notification(handler: HandlerId, ns: string, event: Event)

  // ---------------------------------------------------------------------
  // Selection
  // ---------------------------------------------------------------------

  /** A label set is selected when there are no selectors, or some selector matches it. */
  predicate Selected(sels: seq<Selector>, labels: LabelSet) {
    |sels| == 0 || exists i :: 0 <= i < |sels| && Matches(sels[i], labels)
  }

  /** The names of the listed namespaces whose labels are selected. */
  function SelectedNames(sels: seq<Selector>, list: seq<NamespaceMeta>): set<string> {
    set i | 0 <= i < |list| && Selected(sels, list[i].labels) :: list[i].name
  }

  /** Namespace names are unique within a list, as they are within a cluster. */
  predicate NamesUnique(list: seq<NamespaceMeta>) {
    forall i, j :: 0 <= i < j < |list| ==> list[i].name != list[j].name
  }

  /**
   * Compiles every selector specification, in order; one that does not
   * compile makes the whole list fail.
   */
  function CompileSpecs(specs: seq<Option<LabelSelector>>): (r: Option<seq<Selector>>)
    ensures r.None? <==> exists i :: 0 <= i < |specs| && Compile(specs[i]).None?
    ensures r.Some? ==> |r.value| == |specs| && forall i :: 0 <= i < |specs| ==> Compile(specs[i]) == Some(r.value[i])
  {
    if specs == [] then Some([])
    else
      match Compile(specs[0])
      case None => None
      case Some(s) =>
        match CompileSpecs(specs[1..])
        case None =>
          assert forall i :: 0 <= i < |specs| - 1 ==> specs[1..][i] == specs[i + 1];
          None
        case Some(rest) => Some([s] + rest)
  }

  // ---------------------------------------------------------------------
  // Recomputation from a namespace list
  // ---------------------------------------------------------------------

  /** Appending one namespace to the list adds its name exactly when it is selected. */
  lemma SelectedNamesSnoc(sels: seq<Selector>, list: seq<NamespaceMeta>, ns: NamespaceMeta)
    ensures SelectedNames(sels, list + [ns]) ==
            SelectedNames(sels, list) + (if Selected(sels, ns.labels) then {ns.name} else {})
  {
    var l := list + [ns];
    forall n | n in SelectedNames(sels, l)
      ensures n in SelectedNames(sels, list) + (if Selected(sels, ns.labels) then {ns.name} else {})
    {
      var i :| 0 <= i < |l| && Selected(sels, l[i].labels) && l[i].name == n;
      if i < |list| {
        assert l[i] == list[i];
      }
    }
    forall n | n in SelectedNames(sels, list)
      ensures n in SelectedNames(sels, l)
    {
      var i :| 0 <= i < |list| && Selected(sels, list[i].labels) && list[i].name == n;
      assert l[i] == list[i];
    }
    if Selected(sels, ns.labels) {
      assert l[|list|] == ns;
    }
  }

  /** With no selectors every listed name is a member. */
  lemma SelectAllListsEveryName(list: seq<NamespaceMeta>)
    ensures SelectedNames([], list) == set i | 0 <= i < |list| :: list[i].name
  {
  }

  /** With unique names, a listed namespace is a member exactly when its labels are selected. */
  lemma MemberIffSelected(sels: seq<Selector>, list: seq<NamespaceMeta>, k: nat)
    requires NamesUnique(list) && k < |list|
    ensures list[k].name in SelectedNames(sels, list) <==> Selected(sels, list[k].labels)
  {
    if list[k].name in SelectedNames(sels, list) {
      var i :| 0 <= i < |list| && Selected(sels, list[i].labels) && list[i].name == list[k].name;
      assert i == k;
    }
  }

  // ---------------------------------------------------------------------
  // Incremental events
  // ---------------------------------------------------------------------

  /** Membership after NamespaceCreated: the name is inserted when its labels are selected. */
  function CreatedMembers(sels: seq<Selector>, members: set<string>, ns: NamespaceMeta): set<string> {
    if Selected(sels, ns.labels) then members + {ns.name} else members
  }

  /** Membership after NamespaceDeleted: the name is removed when its labels are selected. */
  function DeletedMembers(sels: seq<Selector>, members: set<string>, ns: NamespaceMeta): set<string> {
    if Selected(sels, ns.labels) then members - {ns.name} else members
  }

  /**
   * Membership after NamespaceUpdated: the OLD name leaves when it was a
   * member and the new labels are not selected, and joins when it was not a
   * member and the new labels are selected.
   */
  function UpdatedMembers(sels: seq<Selector>, members: set<string>, oldNs: NamespaceMeta, newNs: NamespaceMeta): set<string> {
    if oldNs.name in members && !Selected(sels, newNs.labels) then members - {oldNs.name}
    else if oldNs.name !in members && Selected(sels, newNs.labels) then members + {oldNs.name}
    else members
  }

  /** A creation keeps membership equal to the recomputation over the list that gained the namespace. */
  lemma CreateKeepsRecompute(sels: seq<Selector>, list: seq<NamespaceMeta>, ns: NamespaceMeta)
    ensures CreatedMembers(sels, SelectedNames(sels, list), ns) == SelectedNames(sels, list + [ns])
  {
    SelectedNamesSnoc(sels, list, ns);
  }

  /** Dropping a listed namespace from a list with unique names drops exactly its name. */
  lemma SelectedNamesWithout(sels: seq<Selector>, list: seq<NamespaceMeta>, k: nat)
    requires NamesUnique(list) && k < |list|
    ensures SelectedNames(sels, list[..k] + list[k + 1..]) == SelectedNames(sels, list) - {list[k].name}
  {
    var r := list[..k] + list[k + 1..];
    assert forall j :: 0 <= j < |r| ==> r[j] == (if j < k then list[j] else list[j + 1]);
    forall n | n in SelectedNames(sels, r)
      ensures n in SelectedNames(sels, list) - {list[k].name}
    {
      var j :| 0 <= j < |r| && Selected(sels, r[j].labels) && r[j].name == n;
      var i := if j < k then j else j + 1;
      assert list[i] == r[j] && i != k;
    }
    forall n | n in SelectedNames(sels, list) - {list[k].name}
      ensures n in SelectedNames(sels, r)
    {
      var i :| 0 <= i < |list| && Selected(sels, list[i].labels) && list[i].name == n;
      var j := if i < k then i else i - 1;
      assert r[j] == list[i];
    }
  }

  /**
   * A deletion of a listed namespace, reported with the labels the list
   * holds for it, keeps membership equal to the recomputation over the list
   * without it: the selection test the deletion uses then agrees with
   * "was a member".
   */
  lemma DeleteKeepsRecompute(sels: seq<Selector>, list: seq<NamespaceMeta>, k: nat)
    requires NamesUnique(list) && k < |list|
    ensures DeletedMembers(sels, SelectedNames(sels, list), list[k]) == SelectedNames(sels, list[..k] + list[k + 1..])
  {
    MemberIffSelected(sels, list, k);
    SelectedNamesWithout(sels, list, k);
  }

  /**
   * An update that keeps the namespace's name keeps membership equal to the
   * recomputation over the list holding the new labels. The equal-names
   * requirement is the model's explicit assumption that a namespace is never
   * renamed; RenameBreaksRecompute shows it is needed.
   */
  lemma UpdateKeepsRecompute(sels: seq<Selector>, list: seq<NamespaceMeta>, k: nat, newNs: NamespaceMeta)
    requires NamesUnique(list) && k < |list|
    requires newNs.name == list[k].name
    ensures UpdatedMembers(sels, SelectedNames(sels, list), list[k], newNs) == SelectedNames(sels, list[k := newNs])
  {
    var l := list[k := newNs];
    var name := list[k].name;
    assert NamesUnique(l);
    MemberIffSelected(sels, list, k);
    MemberIffSelected(sels, l, k);
    forall n | n != name
      ensures n in SelectedNames(sels, l) <==> n in SelectedNames(sels, list)
    {
      if n in SelectedNames(sels, l) {
        var i :| 0 <= i < |l| && Selected(sels, l[i].labels) && l[i].name == n;
        assert i != k && list[i] == l[i];
      }
      if n in SelectedNames(sels, list) {
        var i :| 0 <= i < |list| && Selected(sels, list[i].labels) && list[i].name == n;
        assert i != k && list[i] == l[i];
      }
    }
  }

  /** Were a namespace renamed by an update, membership would no longer match a recomputation. */
  lemma RenameBreaksRecompute()
    ensures var a, b := NamespaceMeta("a", map[]), NamespaceMeta("b", map[]);
            UpdatedMembers([], SelectedNames([], [a]), a, b) != SelectedNames([], [b])
  {
    var a, b := NamespaceMeta("a", map[]), NamespaceMeta("b", map[]);
    assert [a][0] == a && Selected([], a.labels);
    assert "a" in SelectedNames([], [a]);
    assert "a" !in SelectedNames([], [b]);
  }

  // ---------------------------------------------------------------------
  // Notifications
  // ---------------------------------------------------------------------

  /** One namespace event sent to every handler, in registration order. */
  function Broadcast(hs: seq<HandlerId>, ns: string, ev: Event): (r: seq<Notification>)
    ensures |r| == |hs|
    ensures forall i :: 0 <= i < |hs| ==> r[i] == Notification(hs[i], ns, ev)
  {
    if hs == [] then [] else Broadcast(hs[..|hs| - 1], ns, ev) + [Notification(hs[|hs| - 1], ns, ev)]
  }

  /** One event for each name in turn, each sent to every handler. */
  function Fanout(hs: seq<HandlerId>, names: seq<string>, ev: Event): seq<Notification> {
    if names == [] then [] else Fanout(hs, names[..|names| - 1], ev) + Broadcast(hs, names[|names| - 1], ev)
  }

  /** A fan-out tells every handler of every name, with the one event, and nothing else. */
  lemma {:induction false} FanoutMembers(hs: seq<HandlerId>, names: seq<string>, ev: Event)
    ensures forall n :: n in Fanout(hs, names, ev) <==> n.handler in hs && n.ns in names && n.event == ev
  {
    if names != [] {
      var front, last := names[..|names| - 1], names[|names| - 1];
      assert names == front + [last];
      FanoutMembers(hs, front, ev);
      var b := Broadcast(hs, last, ev);
      forall n: Notification
        ensures n in b <==> n.handler in hs && n.ns == last && n.event == ev
      {
        if n in b {
          var i :| 0 <= i < |hs| && b[i] == n;
        }
        if n.handler in hs && n.ns == last && n.event == ev {
          var i :| 0 <= i < |hs| && hs[i] == n.handler;
          assert b[i] == n;
        }
      }
    }
  }

  /** Every notification of a fan-out carries its event. */
  lemma {:induction false} FanoutEvents(hs: seq<HandlerId>, names: seq<string>, ev: Event)
    ensures forall k :: 0 <= k < |Fanout(hs, names, ev)| ==> Fanout(hs, names, ev)[k].event == ev
  {
    if names != [] {
      FanoutEvents(hs, names[..|names| - 1], ev);
    }
  }

  /** A fan-out sends one notification per handler and name. */
  lemma {:induction false} FanoutLength(hs: seq<HandlerId>, names: seq<string>, ev: Event)
    ensures |Fanout(hs, names, ev)| == |names| * |hs|
  {
    if names != [] {
      FanoutLength(hs, names[..|names| - 1], ev);
      assert |names| * |hs| == (|names| - 1) * |hs| + |hs|;
    }
  }

  /** Multiplication by a natural number is monotone; isolated so FanoutAt's context stays linear. */
  lemma MulMonotone(a: nat, b: nat, h: nat)
    requires a <= b
    ensures a * h <= b * h
  {
  }

  /** The notification at position p * |hs| + q of a fan-out is name p told to handler q. */
  lemma {:induction false} FanoutAt(hs: seq<HandlerId>, names: seq<string>, ev: Event, p: nat, q: nat)
    requires p < |names| && q < |hs|
    ensures |Fanout(hs, names, ev)| == |names| * |hs|
    ensures Fanout(hs, names, ev)[p * |hs| + q] == Notification(hs[q], names[p], ev)
  {
    var h := |hs|;
    var front := names[..|names| - 1];
    var f := Fanout(hs, front, ev);
    var b := Broadcast(hs, names[|names| - 1], ev);
    FanoutLength(hs, names, ev);
    FanoutLength(hs, front, ev);
    assert Fanout(hs, names, ev) == f + b;
    var k := p * h + q;
    if p < |front| {
      MulMonotone(p + 1, |front|, h);
      assert (p + 1) * h == p * h + h;
      assert k < |f|;
      FanoutAt(hs, front, ev, p, q);
      assert front[p] == names[p];
      assert (f + b)[k] == f[k];
    } else {
      assert k == |f| + q;
      assert (f + b)[k] == b[q];
    }
  }

  /**
   * What a selector change fires: Added for each name that joined, then
   * Deleted for each name that left, each group in ascending name order.
   */
  ghost function Transitions(hs: seq<HandlerId>, before: set<string>, after: set<string>): seq<Notification> {
    Fanout(hs, Sorted(after - before), EventAdd) + Fanout(hs, Sorted(before - after), EventDelete)
  }

  /** Every handler is told of exactly the names that joined (Added) and exactly those that left (Deleted). */
  lemma TransitionsExact(hs: seq<HandlerId>, before: set<string>, after: set<string>, n: Notification)
    ensures n in Transitions(hs, before, after) <==>
            n.handler in hs &&
            ((n.event == EventAdd && n.ns in after - before) || (n.event == EventDelete && n.ns in before - after))
  {
    SortedSpec(after - before);
    SortedSpec(before - after);
    FanoutMembers(hs, Sorted(after - before), EventAdd);
    FanoutMembers(hs, Sorted(before - after), EventDelete);
  }

  /** Every Added notification precedes every Deleted one. */
  lemma TransitionsAddsFirst(hs: seq<HandlerId>, before: set<string>, after: set<string>, i: nat, j: nat)
    requires i < j < |Transitions(hs, before, after)|
    requires Transitions(hs, before, after)[j].event == EventAdd
    ensures Transitions(hs, before, after)[i].event == EventAdd
  {
    var adds := Fanout(hs, Sorted(after - before), EventAdd);
    var dels := Fanout(hs, Sorted(before - after), EventDelete);
    var t := Transitions(hs, before, after);
    FanoutMembers(hs, Sorted(before - after), EventDelete);
    assert forall k :: |adds| <= k < |t| ==> t[k] == dels[k - |adds|] && t[k] in dels;
    assert j < |adds|;
    assert t[i] == adds[i] && t[i] in adds;
    FanoutMembers(hs, Sorted(after - before), EventAdd);
  }

  /** With names in ascending order, the notifications of a fan-out come in ascending name order. */
  lemma {:induction false} FanoutAscending(hs: seq<HandlerId>, names: seq<string>, ev: Event, i: nat, j: nat)
    requires StrictlyAscending(names)
    requires i < j < |Fanout(hs, names, ev)|
    ensures Below(Fanout(hs, names, ev)[i].ns, Fanout(hs, names, ev)[j].ns)
  {
    var last := names[|names| - 1];
    var front := names[..|names| - 1];
    var f := Fanout(hs, front, ev);
    var b := Broadcast(hs, last, ev);
    assert Fanout(hs, names, ev) == f + b;
    assert StrictlyAscending(front);
    FanoutMembers(hs, front, ev);
    if j < |f| {
      FanoutAscending(hs, front, ev, i, j);
    } else if i < |f| {
      assert f[i] in f;
      var p :| 0 <= p < |front| && front[p] == f[i].ns;
      assert names[p] == front[p];
      assert b[j - |f|].ns == last;
    } else {
      assert b[i - |f|].ns == last && b[j - |f|].ns == last;
      BelowReflexive(last);
    }
  }

  /** Within each group of a selector change's notifications, names come in ascending order. */
  lemma TransitionsGroupsAscending(hs: seq<HandlerId>, before: set<string>, after: set<string>, i: nat, j: nat)
    requires i < j < |Transitions(hs, before, after)|
    requires Transitions(hs, before, after)[i].event == Transitions(hs, before, after)[j].event
    ensures Below(Transitions(hs, before, after)[i].ns, Transitions(hs, before, after)[j].ns)
  {
    var adds := Fanout(hs, Sorted(after - before), EventAdd);
    var dels := Fanout(hs, Sorted(before - after), EventDelete);
    var t := Transitions(hs, before, after);
    SortedSpec(after - before);
    SortedSpec(before - after);
    FanoutEvents(hs, Sorted(after - before), EventAdd);
    FanoutEvents(hs, Sorted(before - after), EventDelete);
    assert t[i] == if i < |adds| then adds[i] else dels[i - |adds|];
    assert t[j] == if j < |adds| then adds[j] else dels[j - |adds|];
    assert j < |adds| || |adds| <= i;
    if j < |adds| {
      FanoutAscending(hs, Sorted(after - before), EventAdd, i, j);
    } else {
      FanoutAscending(hs, Sorted(before - after), EventDelete, i - |adds|, j - |adds|);
    }
  }

  /** A selector change that leaves membership as it was fires nothing. */
  lemma UnchangedIsSilent(hs: seq<HandlerId>, members: set<string>)
    ensures Transitions(hs, members, members) == []
  {
    assert members - members == {};
    SortedSpec({});
  }

  /** A selector change with no handlers registered fires nothing. */
  lemma NoHandlersIsSilent(before: set<string>, after: set<string>)
    ensures Transitions([], before, after) == []
  {
    FanoutLength([], Sorted(after - before), EventAdd);
    FanoutLength([], Sorted(before - after), EventDelete);
  }
}
