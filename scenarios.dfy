/**
 * Client walkthroughs of the filter's documented behaviour, proved from the
 * contracts alone: create, update and delete under the selector env=prod,
 * the self-name rule of Filter, an invalid selector, and a repeated
 * selector change.
 */
module FilterScenarios {
  import opened Wrappers
  import opened Labels
  import opened Membership
  import opened NamespaceFilter

  const EnvProd: Option<LabelSelector> := Some(LabelSelector(map["env" := "prod"], []))

  lemma EnvProdSelects(labels: LabelSet)
    ensures CompileSpecs([EnvProd]) == Some([Conjunction(map["env" := "prod"], [])])
    ensures Selected([Conjunction(map["env" := "prod"], [])], labels) <==> "env" in labels && labels["env"] == "prod"
  {
    assert IsLabelName("env") && IsLabelValue("prod");
    assert forall k :: k in map["env" := "prod"] ==> k == "env";
    assert Compile(EnvProd) == Some(Conjunction(map["env" := "prod"], []));
    assert [EnvProd][0] == EnvProd;
    assert CompileSpecs([EnvProd]).Some?;
    assert CompileSpecs([EnvProd]).value[0] == Conjunction(map["env" := "prod"], []);
    assert |CompileSpecs([EnvProd]).value| == 1;
    assert CompileSpecs([EnvProd]).value == [Conjunction(map["env" := "prod"], [])];
    var sel := Conjunction(map["env" := "prod"], []);
    if "env" in labels && labels["env"] == "prod" {
      assert Matches([sel][0], labels);
    }
  }

  method CreateUpdateDelete() {
    var prod := NamespaceMeta("ns1", map["env" := "prod"]);
    var dev := NamespaceMeta("ns1", map["env" := "dev"]);
    EnvProdSelects(prod.labels);
    EnvProdSelects(dev.labels);
    var f := new DiscoveryNamespacesFilter([EnvProd], []);

    var created := f.NamespaceCreated(prod);
    assert created;
    var snapshot := f.GetMembers();
    assert "ns1" in snapshot;

    var changed, added := f.NamespaceUpdated(prod, dev);
    assert changed && !added && "ns1" !in f.members;
    assert "ns1" in snapshot;

    changed, added := f.NamespaceUpdated(dev, prod);
    assert changed && added && "ns1" in f.members;

    var deleted := f.NamespaceDeleted(prod);
    assert deleted && "ns1" !in f.members;
  }

  method FilterUsesOwnName() {
    var prod := NamespaceMeta("ns1", map["env" := "prod"]);
    EnvProdSelects(prod.labels);
    var f := new DiscoveryNamespacesFilter([EnvProd], [prod]);
    assert f.members == {"ns1"} by {
      assert [prod][0] == prod;
    }
    assert f.Filter(Object(NamespaceKind, "ns1", ""));
    assert f.Filter(Object(OtherKind, "pod-a", "ns1"));
    assert !f.Filter(Object(OtherKind, "ns1", ""));
    assert !f.Filter(Unresolvable);
  }

  method InvalidSelectorChangesNothing() {
    var prod := NamespaceMeta("ns1", map["env" := "prod"]);
    EnvProdSelects(prod.labels);
    var f := new DiscoveryNamespacesFilter([EnvProd], [prod]);
    f.AddHandler(7);
    var before := f.GetMembers();
    var bad := Some(LabelSelector(map[], [SelectorExpr("env", "Equals", ["prod"])]));
    assert Compile(bad).None?;
    f.SelectorsChanged([EnvProd, bad], []);
    var after := f.GetMembers();
    assert after == before && f.log == [];
  }

  method RepeatedChangeIsSilent(list: seq<NamespaceMeta>, specs: seq<Option<LabelSelector>>) {
    var f := new DiscoveryNamespacesFilter([], list);
    f.AddHandler(1);
    f.AddHandler(2);
    f.SelectorsChanged(specs, list);
    var logged := f.log;
    f.SelectorsChanged(specs, list);
    if CompileSpecs(specs).Some? {
      RepeatedSelectorsChangedIsSilent(specs, list, f.handlers, f.members);
    }
    assert f.log == logged;
  }

  /** A start whose selectors do not compile leaves an empty, usable filter that admits a created namespace. */
  method AbortedStartStillAdmitsCreate() {
    var bad := Some(LabelSelector(map[], [SelectorExpr("env", "Equals", ["prod"])]));
    assert Compile(bad).None?;
    assert [bad][0] == bad;
    var f := new DiscoveryNamespacesFilter([bad], []);
    assert f.members == {} && f.selectors == [];
    var created := f.NamespaceCreated(NamespaceMeta("ns1", map[]));
    assert created && f.members == {"ns1"};
  }
}
