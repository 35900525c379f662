/**
 * The membership field as the Go code leaves it at construction.
 * NewDiscoveryNamespacesFilter (pkg/kube/namespace/filter.go:68-73) never
 * allocates the set itself; only a successful SelectorsChanged assigns one.
 * When the initial selectors do not compile, the field stays a nil map, and
 * the first insertion (addNamespace, reached from NamespaceCreated or
 * NamespaceUpdated) is a write to a nil map, which panics in Go.
 *
 * The class DiscoveryNamespacesFilter gives the intended behaviour instead:
 * it starts from the empty set, so an aborted start leaves a usable filter.
 */
module NilMembership {
  import opened Wrappers
  import opened Labels
  import opened Membership

  /** A Go set value: a nil map, or an allocated one holding some names. */
  datatype GoSet = NilMap | Live(names: set<string>)

  /** The membership field after construction, as written. */
  function InitialMembersAsWritten(specs: seq<Option<LabelSelector>>, list: seq<NamespaceMeta>): (m: GoSet)
    ensures m.NilMap? <==> CompileSpecs(specs).None?
  {
    match CompileSpecs(specs)
    case None => NilMap
    case Some(sels) => Live(SelectedNames(sels, list))
  }

  /** addNamespace as written: None stands for the panic of writing to a nil map. */
  function InsertAsWritten(m: GoSet, ns: string): (r: Option<GoSet>)
    ensures r.None? <==> m.NilMap?
    ensures r.Some? ==> r.value == Live(m.names + {ns})
  {
    match m
    case NilMap => None
    case Live(s) => Some(Live(s + {ns}))
  }

  /**
   * A filter built with a selector whose operator the library rejects, then
   * told of a created namespace (selected, since no selectors are active),
   * panics on the insertion.
   */
  lemma AbortedStartPanicsOnCreate()
    ensures var bad := Some(LabelSelector(map[], [SelectorExpr("env", "Equals", ["prod"])]));
            && Compile(bad).None?
            && Selected([], map[])
            && InsertAsWritten(InitialMembersAsWritten([bad], []), "ns1") == None
  {
    var bad := Some(LabelSelector(map[], [SelectorExpr("env", "Equals", ["prod"])]));
    assert Compile(bad).None?;
    assert [bad][0] == bad;
  }
}
