/**
 * What one refresh cycle, and then two, do to one concrete fleet: services A
 * and B, where A has one instance exposing resource "v1" and B has no live
 * instance.
 */
module Scenarios {
  import opened Wrappers
  import opened Text
  import opened ServiceDefinitions
  import opened DescriptionUpdater

  const InstanceA: ServiceInstance := ServiceInstance("http://a:8080")

  /** The discovery client's report: A with one instance, B with none. */
  function Fleet(): Discovery {
    Discovery(["A", "B"], map["A" := [InstanceA], "B" := []])
  }

  /** A's `/swagger-resources` lists "v1" at "/v1"; its descriptor is `descriptor`. */
  function Network(descriptor: string): Web {
    Web(
      (url: string) => if url == "http://a:8080/swagger-resources"
             then Exchanged(200, Some([SwaggerResponse(Some("/v1"), Some("2.0"), Some("v1"), Some("/v1"))]))
             else ExchangeFailed,
      (url: string) => if url == "http://a:8080/v1" then Fetched(Some(JsonData(descriptor))) else FetchFailed,
      (jsonData: JsonData) => Some(jsonData.tree))
  }

  /** A's only listed resource. */
  const ResourceV1: SwaggerResponse := SwaggerResponse(Some("/v1"), Some("2.0"), Some("v1"), Some("/v1"))

  /** The key A's resource is stored under, upper-cased. */
  lemma KeyOfV1()
    ensures Upper("A - v1") == "A - V1"
  {
    var u := Upper("A - v1");
    assert u[0] == 'A' && u[1] == ' ' && u[2] == '-' && u[3] == ' ' && u[4] == 'V' && u[5] == '1';
  }

  /** A writes its descriptor under "A - v1"; B writes nothing. */
  lemma ServiceWritesOfFleet(descriptor: string)
    ensures ServiceWrites(Fleet(), "A", Network(descriptor)) == [Write("A - v1", descriptor)]
    ensures ServiceWrites(Fleet(), "B", Network(descriptor)) == []
  {
    ResourceWritesOfA(descriptor);
    assert GetInstances(Fleet(), "A") == Some([InstanceA]);
    assert GetInstances(Fleet(), "B") == Some([]);
  }

  /** A's instance lists "v1". */
  lemma ListingOfA(descriptor: string)
    ensures GetSwaggerURL(InstanceA, Network(descriptor)) == [ResourceV1]
  {
    assert InstanceA.uri + SwaggerResources == "http://a:8080/swagger-resources";
  }

  /** A's instance lists "v1", whose fetch returns `descriptor`. */
  lemma ResourceWritesOfA(descriptor: string)
    ensures GetSwaggerURL(InstanceA, Network(descriptor)) == [ResourceV1]
    ensures ResourceWrites("A", InstanceA, [ResourceV1], Network(descriptor)) == [Write("A - v1", descriptor)]
  {
    var web := Network(descriptor);
    ListingOfA(descriptor);
    assert InstanceA.uri + Str(ResourceV1.location) == "http://a:8080/v1";
    assert GetSwaggerDefinitionForAPI(InstanceA, ResourceV1.location, web) == Some(JsonData(descriptor));
    assert ResourceKey("A", ResourceV1) == "A - v1";
    assert ResponseWrites("A", InstanceA, ResourceV1, web) == [Write("A - v1", descriptor)];
  }

  /** The writes of one cycle over this fleet: one, for A's "v1". */
  lemma FleetWrites(descriptor: string)
    ensures CycleWrites(Fleet(), Fleet().services, Network(descriptor)) == [Write("A - v1", descriptor)]
  {
    var d, web := Fleet(), Network(descriptor);
    ServiceWritesOfFleet(descriptor);
    assert d.services[..1] == ["A"] && d.services[..1][..0] == [];
    assert CycleWrites(d, ["A"], web) == [Write("A - v1", descriptor)];
  }

  /** One cycle from `m` stores `descriptor` under "A - V1" and touches nothing else. */
  lemma CycleResult(m: map<string, string>, descriptor: string)
    ensures Refreshed(m, Fleet(), Network(descriptor)) == m["A - V1" := descriptor]
  {
    FleetWrites(descriptor);
    KeyOfV1();
    SingleWriteCycle(m, Fleet(), Network(descriptor), Write("A - v1", descriptor));
  }

  /** A cycle that writes once is that one `addServiceDefinition` call. */
  lemma SingleWriteCycle(m: map<string, string>, d: Discovery, web: Web, w: Write)
    requires CycleWrites(d, d.services, web) == [w]
    ensures Refreshed(m, d, web) == Put(m, w.serviceName, w.content)
  {
    assert ApplyWrites(m, [w]) == Put(ApplyWrites(m, [w][..0]), w.serviceName, w.content);
  }

  /** The directory of a one-entry store is that entry. */
  lemma DirectoryOfOneKey(key: string, text: string)
    ensures Directory(map[key := text]) == [SwaggerResource(ServicePath + key, key, SwaggerVersion)]
  {
    var store := map[key := text];
    var r := Directory(store);
    assert store.Keys == {key};
    assert r[0].name in store;
  }

  /** No key derived from service B coincides with A's key. */
  lemma KeysOfBDiffer(name: string)
    ensures Upper("B - " + name) != "A - V1"
  {
    assert Upper("B - " + name)[0] == 'B';
  }

  /**
   * After one cycle from an empty store, "A - V1" holds A's descriptor, the
   * directory lists exactly that key, and no key derived from B is present.
   */
  lemma OneCycle()
    ensures Refreshed(map[], Fleet(), Network("{\"a\":1}")) == map["A - V1" := "{\"a\":1}"]
    ensures Directory(Refreshed(map[], Fleet(), Network("{\"a\":1}"))) ==
      [SwaggerResource(ServicePath + "A - V1", "A - V1", SwaggerVersion)]
    ensures forall name :: Lookup(Refreshed(map[], Fleet(), Network("{\"a\":1}")), Upper("B - " + name)) == None
  {
    CycleResult(map[], "{\"a\":1}");
    DirectoryOfOneKey("A - V1", "{\"a\":1}");
    forall name ensures Upper("B - " + name) != "A - V1" {
      KeysOfBDiffer(name);
    }
  }

  /** A second cycle after A's descriptor changed overwrites the stored value. */
  lemma SecondCycleOverwrites()
    ensures Refreshed(Refreshed(map[], Fleet(), Network("{\"a\":1}")), Fleet(), Network("{\"a\":2}")) ==
      map["A - V1" := "{\"a\":2}"]
  {
    var d1, d2 := "{\"a\":1}", "{\"a\":2}";
    FleetWrites(d1);
    FleetWrites(d2);
    KeyOfV1();
    SingleWriteCycles(map[], Fleet(), Network(d1), Network(d2), Write("A - v1", d1), Write("A - v1", d2));
  }

  /** Two cycles that each write once, to the same key, leave the second write's content. */
  lemma SingleWriteCycles(m: map<string, string>, d: Discovery, web1: Web, web2: Web, w1: Write, w2: Write)
    requires CycleWrites(d, d.services, web1) == [w1]
    requires CycleWrites(d, d.services, web2) == [w2]
    requires w1.serviceName == w2.serviceName
    ensures Refreshed(Refreshed(m, d, web1), d, web2) == Put(m, w2.serviceName, w2.content)
  {
    SingleWriteCycle(m, d, web1, w1);
    SingleWriteCycle(Refreshed(m, d, web1), d, web2, w2);
  }
}
