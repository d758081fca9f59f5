/**
 * What one refresh cycle does to the store, proved about the write lists of
 * `DescriptionUpdater`: the last write to a key wins, untouched keys keep
 * their value (present or absent), nothing is removed, keys stay upper-case,
 * and per service only the first instance, the listing outcome and the
 * per-resource fetch outcomes matter.
 */
module RefreshProperties {
  import opened Wrappers
  import opened Text
  import opened ServiceDefinitions
  import opened DescriptionUpdater

  // Writes and their effect on the store

  /** A key is written exactly when some write's upper-cased name is that key. */
  lemma {:induction false} WrittenKeysMembers(writes: seq<Write>, key: string)
    ensures key in WrittenKeys(writes) <==> exists i :: 0 <= i < |writes| && Upper(writes[i].serviceName) == key
    decreases |writes|
  {
    if writes != [] {
      var n := |writes| - 1;
      WrittenKeysMembers(writes[..n], key);
      if exists i :: 0 <= i < n && Upper(writes[..n][i].serviceName) == key {
        var i :| 0 <= i < n && Upper(writes[..n][i].serviceName) == key;
        assert writes[i] == writes[..n][i];
      }
      if exists i :: 0 <= i < |writes| && Upper(writes[i].serviceName) == key {
        var i :| 0 <= i < |writes| && Upper(writes[i].serviceName) == key;
        if i < n { assert writes[..n][i] == writes[i]; }
      }
    }
  }

  /**
   * Reading a key after a list of writes gives the content of the last write
   * to that key, or, when no write touches it, what was there before.
   */
  lemma {:induction false} ApplyWritesLastWins(m: map<string, string>, writes: seq<Write>, key: string)
    ensures Lookup(ApplyWrites(m, writes), key) ==
      if LastWrite(writes, key).Some? then LastWrite(writes, key) else Lookup(m, key)
    decreases |writes|
  {
    if writes != [] {
      ApplyWritesLastWins(m, writes[..|writes| - 1], key);
    }
  }

  /** There is no last write to a key exactly when no write touches it. */
  lemma {:induction false} LastWriteNone(writes: seq<Write>, key: string)
    ensures LastWrite(writes, key).None? <==> key !in WrittenKeys(writes)
    decreases |writes|
  {
    if writes != [] {
      LastWriteNone(writes[..|writes| - 1], key);
    }
  }

  /** A write that no later write overrides is the last write to its key. */
  lemma {:induction false} LastWriteAt(writes: seq<Write>, i: int)
    requires 0 <= i < |writes|
    requires forall j :: i < j < |writes| ==> Upper(writes[j].serviceName) != Upper(writes[i].serviceName)
    ensures LastWrite(writes, Upper(writes[i].serviceName)) == Some(writes[i].content)
    decreases |writes|
  {
    var n := |writes| - 1;
    if i < n {
      var prefix := writes[..n];
      assert prefix[i] == writes[i];
      forall j | i < j < |prefix| ensures Upper(prefix[j].serviceName) != Upper(prefix[i].serviceName) {
        assert prefix[j] == writes[j];
      }
      LastWriteAt(prefix, i);
    }
  }

  /** A key that no write touches keeps its value, present or absent. */
  lemma UnwrittenKeyUnchanged(m: map<string, string>, writes: seq<Write>, key: string)
    requires key !in WrittenKeys(writes)
    ensures Lookup(ApplyWrites(m, writes), key) == Lookup(m, key)
  {
    LastWriteNone(writes, key);
    ApplyWritesLastWins(m, writes, key);
  }

  /** Writes keep every key of the store upper-case. */
  lemma {:induction false} ApplyWritesKeepsKeysNormalised(m: map<string, string>, writes: seq<Write>)
    requires KeysNormalised(m)
    ensures KeysNormalised(ApplyWrites(m, writes))
    decreases |writes|
  {
    if writes != [] {
      var n := |writes| - 1;
      ApplyWritesKeepsKeysNormalised(m, writes[..n]);
      PutKeepsKeysNormalised(ApplyWrites(m, writes[..n]), writes[n].serviceName, writes[n].content);
    }
  }

  // The cycle

  /** The writes of a cycle are those of its services put together. */
  lemma {:induction false} CycleWritesMembers(discovery: Discovery, services: seq<string>, web: Web, w: Write)
    ensures w in CycleWrites(discovery, services, web) <==>
      exists i :: 0 <= i < |services| && w in ServiceWrites(discovery, services[i], web)
  {
    if w in CycleWrites(discovery, services, web) {
      CycleWriteFromService(discovery, services, web, w);
    }
    if exists i :: 0 <= i < |services| && w in ServiceWrites(discovery, services[i], web) {
      var i :| 0 <= i < |services| && w in ServiceWrites(discovery, services[i], web);
      ServiceWriteInCycle(discovery, services, web, i, w);
    }
  }

  /** Every write of a cycle is a write of one of its services. */
  lemma {:induction false} CycleWriteFromService(discovery: Discovery, services: seq<string>, web: Web, w: Write)
    requires w in CycleWrites(discovery, services, web)
    ensures exists i :: 0 <= i < |services| && w in ServiceWrites(discovery, services[i], web)
    decreases |services|
  {
    var n := |services| - 1;
    var prefix := services[..n];
    assert CycleWrites(discovery, services, web) ==
      CycleWrites(discovery, prefix, web) + ServiceWrites(discovery, services[n], web);
    if w !in ServiceWrites(discovery, services[n], web) {
      CycleWriteFromService(discovery, prefix, web, w);
      var i :| 0 <= i < n && w in ServiceWrites(discovery, prefix[i], web);
      assert services[i] == prefix[i];
    }
  }

  /** Every write of a listed service is among the cycle's writes. */
  lemma {:induction false} ServiceWriteInCycle(discovery: Discovery, services: seq<string>, web: Web, i: int, w: Write)
    requires 0 <= i < |services| && w in ServiceWrites(discovery, services[i], web)
    ensures w in CycleWrites(discovery, services, web)
  {
    CycleWritesPrefix(discovery, services, i, web);
    PrefixWriteInCycle(discovery, services, i + 1, web, w);
  }

  /** A write of the cycle over the first `k` services is a write of the whole cycle. */
  lemma {:induction false} PrefixWriteInCycle(discovery: Discovery, services: seq<string>, k: int, web: Web, w: Write)
    requires 0 <= k <= |services| && w in CycleWrites(discovery, services[..k], web)
    ensures w in CycleWrites(discovery, services, web)
    decreases |services| - k
  {
    if k == |services| {
      assert services[..k] == services;
    } else {
      CycleWritesPrefix(discovery, services, k, web);
      PrefixWriteInCycle(discovery, services, k + 1, web, w);
    }
  }

  /** The write `response` contributes when its descriptor fetch succeeds. */
  predicate Produces(serviceId: string, instance: ServiceInstance, response: SwaggerResponse, web: Web, w: Write) {
    var jsonData := GetSwaggerDefinitionForAPI(instance, response.location, web);
    jsonData.Some? && w == Write(ResourceKey(serviceId, response), GetJSON(jsonData.value, web))
  }

  /** The writes for an instance's resources are exactly those of the resources whose fetch succeeds. */
  lemma {:induction false} ResourceWritesMembers(
    serviceId: string, instance: ServiceInstance, responses: seq<SwaggerResponse>, web: Web, w: Write)
    ensures w in ResourceWrites(serviceId, instance, responses, web) <==>
      exists k :: 0 <= k < |responses| && Produces(serviceId, instance, responses[k], web, w)
  {
    if w in ResourceWrites(serviceId, instance, responses, web) {
      ResourceWriteFromResponse(serviceId, instance, responses, web, w);
    }
    if exists k :: 0 <= k < |responses| && Produces(serviceId, instance, responses[k], web, w) {
      var k :| 0 <= k < |responses| && Produces(serviceId, instance, responses[k], web, w);
      ResourceWritesPrefix(serviceId, instance, responses, k, web);
      PrefixResourceWrite(serviceId, instance, responses, k + 1, web, w);
    }
  }

  /** Every write for an instance's resources comes from one resource whose fetch succeeded. */
  lemma {:induction false} ResourceWriteFromResponse(
    serviceId: string, instance: ServiceInstance, responses: seq<SwaggerResponse>, web: Web, w: Write)
    requires w in ResourceWrites(serviceId, instance, responses, web)
    ensures exists k :: 0 <= k < |responses| && Produces(serviceId, instance, responses[k], web, w)
    decreases |responses|
  {
    var n := |responses| - 1;
    var prefix := responses[..n];
    assert ResourceWrites(serviceId, instance, responses, web) ==
      ResourceWrites(serviceId, instance, prefix, web) + ResponseWrites(serviceId, instance, responses[n], web);
    if w in ResponseWrites(serviceId, instance, responses[n], web) {
      assert Produces(serviceId, instance, responses[n], web, w);
    } else {
      ResourceWriteFromResponse(serviceId, instance, prefix, web, w);
      var k :| 0 <= k < n && Produces(serviceId, instance, prefix[k], web, w);
      assert responses[k] == prefix[k];
    }
  }

  /** A write for the first `k` resources is a write for them all. */
  lemma {:induction false} PrefixResourceWrite(
    serviceId: string, instance: ServiceInstance, responses: seq<SwaggerResponse>, k: int, web: Web, w: Write)
    requires 0 <= k <= |responses| && w in ResourceWrites(serviceId, instance, responses[..k], web)
    ensures w in ResourceWrites(serviceId, instance, responses, web)
    decreases |responses| - k
  {
    if k == |responses| {
      assert responses[..k] == responses;
    } else {
      ResourceWritesPrefix(serviceId, instance, responses, k, web);
      PrefixResourceWrite(serviceId, instance, responses, k + 1, web, w);
    }
  }

  /** A service whose instance list is null or empty writes nothing. */
  lemma NoInstancesNoWrites(discovery: Discovery, serviceId: string, web: Web)
    requires GetInstances(discovery, serviceId).None? || GetInstances(discovery, serviceId).value == []
    ensures ServiceWrites(discovery, serviceId, web) == []
  {
  }

  /** A service whose resource listing throws, is not OK, or has a null body writes nothing. */
  lemma ListingFailureNoWrites(discovery: Discovery, serviceId: string, web: Web)
    requires GetInstances(discovery, serviceId).Some? && GetInstances(discovery, serviceId).value != []
    requires var reply := web.exchange(GetInstances(discovery, serviceId).value[0].uri + SwaggerResources);
      reply.ExchangeFailed? || reply.status != HttpOk || reply.body.None?
    ensures ServiceWrites(discovery, serviceId, web) == []
  {
  }

  /** A resource whose descriptor fetch fails writes nothing. */
  lemma FailedFetchWritesNothing(serviceId: string, instance: ServiceInstance, response: SwaggerResponse, web: Web)
    requires GetSwaggerDefinitionForAPI(instance, response.location, web).None?
    ensures ResponseWrites(serviceId, instance, response, web) == []
  {
  }

  /** A resource whose descriptor is fetched but cannot be serialised is still written, as "". */
  lemma SerialisationFailureStillWrites(
    serviceId: string, instance: ServiceInstance, response: SwaggerResponse, web: Web, jsonData: JsonData)
    requires GetSwaggerDefinitionForAPI(instance, response.location, web) == Some(jsonData)
    requires web.writeValueAsString(jsonData).None?
    ensures ResponseWrites(serviceId, instance, response, web) == [Write(ResourceKey(serviceId, response), "")]
  {
  }

  /**
   * Descriptors are fetched by `location` and stored by `name`: resources that
   * differ only in their `url` (or `swaggerVersion`) field produce the same writes.
   */
  lemma {:induction false} UrlFieldUnused(
    serviceId: string, instance: ServiceInstance, responses: seq<SwaggerResponse>, others: seq<SwaggerResponse>, web: Web)
    requires |responses| == |others|
    requires forall k :: 0 <= k < |responses| ==>
      responses[k].location == others[k].location && responses[k].name == others[k].name
    ensures ResourceWrites(serviceId, instance, responses, web) == ResourceWrites(serviceId, instance, others, web)
    decreases |responses|
  {
    if responses != [] {
      var n := |responses| - 1;
      UrlFieldUnused(serviceId, instance, responses[..n], others[..n], web);
    }
  }

  /** The instance a service is served from: the first one listed, if any. */
  function FirstInstance(discovery: Discovery, serviceId: string): Option<ServiceInstance> {
    match GetInstances(discovery, serviceId)
    case None => None
    case Some(serviceInstances) => if serviceInstances == [] then None else Some(serviceInstances[0])
  }

  /** Discovery snapshots that agree on each service's first instance lead to the same writes. */
  lemma {:induction false} CycleWritesFirstInstancesOnly(d1: Discovery, d2: Discovery, services: seq<string>, web: Web)
    requires forall s :: s in services ==> FirstInstance(d1, s) == FirstInstance(d2, s)
    ensures CycleWrites(d1, services, web) == CycleWrites(d2, services, web)
    decreases |services|
  {
    if services != [] {
      var n := |services| - 1;
      assert services[n] in services;
      assert forall s :: s in services[..n] ==> s in services;
      CycleWritesFirstInstancesOnly(d1, d2, services[..n], web);
    }
  }

  /** Only the first instance of each service is consulted; later instances do not affect the store. */
  lemma OnlyFirstInstanceConsulted(m: map<string, string>, d1: Discovery, d2: Discovery, web: Web)
    requires d1.services == d2.services
    requires forall s :: s in d1.services ==> FirstInstance(d1, s) == FirstInstance(d2, s)
    ensures Refreshed(m, d1, web) == Refreshed(m, d2, web)
  {
    CycleWritesFirstInstancesOnly(d1, d2, d1.services, web);
  }

  /**
   * Failure isolation: a resource of a listed service whose descriptor fetch
   * succeeds ends up in the store after the cycle, whatever listing and fetch
   * outcomes the other services and resources had (exceptions the cycle does
   * not catch are outside the model).
   */
  lemma SuccessfulFetchStored(
    m: map<string, string>, discovery: Discovery, web: Web, serviceId: string, instance: ServiceInstance, k: int)
    requires serviceId in discovery.services
    requires FirstInstance(discovery, serviceId) == Some(instance)
    requires 0 <= k < |GetSwaggerURL(instance, web)|
    requires GetSwaggerDefinitionForAPI(instance, GetSwaggerURL(instance, web)[k].location, web).Some?
    ensures Upper(ResourceKey(serviceId, GetSwaggerURL(instance, web)[k])) in Refreshed(m, discovery, web)
  {
    var w := StoredWrite(discovery, web, serviceId, instance, k);
    var writes := CycleWrites(discovery, discovery.services, web);
    var i :| 0 <= i < |writes| && writes[i] == w;
    WrittenKeysMembers(writes, Upper(w.serviceName));
  }

  /** The write a successful fetch contributes, shown to be among the cycle's writes. */
  lemma StoredWrite(discovery: Discovery, web: Web, serviceId: string, instance: ServiceInstance, k: int)
    returns (w: Write)
    requires serviceId in discovery.services
    requires FirstInstance(discovery, serviceId) == Some(instance)
    requires 0 <= k < |GetSwaggerURL(instance, web)|
    requires GetSwaggerDefinitionForAPI(instance, GetSwaggerURL(instance, web)[k].location, web).Some?
    ensures w in CycleWrites(discovery, discovery.services, web)
    ensures w == Write(ResourceKey(serviceId, GetSwaggerURL(instance, web)[k]),
      GetJSON(GetSwaggerDefinitionForAPI(instance, GetSwaggerURL(instance, web)[k].location, web).value, web))
  {
    var responses := GetSwaggerURL(instance, web);
    var jsonData := GetSwaggerDefinitionForAPI(instance, responses[k].location, web).value;
    w := Write(ResourceKey(serviceId, responses[k]), GetJSON(jsonData, web));
    assert Produces(serviceId, instance, responses[k], web, w);
    ResourceWritesMembers(serviceId, instance, responses, web, w);
    assert w in ServiceWrites(discovery, serviceId, web);
    var i :| 0 <= i < |discovery.services| && discovery.services[i] == serviceId;
    CycleWritesMembers(discovery, discovery.services, web, w);
  }

  /** Every write in `writes` to the upper-cased `key` carries `content`. */
  predicate WritesAgreeOn(writes: seq<Write>, key: string, content: string) {
    forall i :: 0 <= i < |writes| && Upper(writes[i].serviceName) == key ==> writes[i].content == content
  }

  /** The last write to a key is one of the writes to that key. */
  lemma {:induction false} LastWriteFrom(writes: seq<Write>, key: string)
    requires LastWrite(writes, key).Some?
    ensures exists i ::
      0 <= i < |writes| && Upper(writes[i].serviceName) == key && writes[i].content == LastWrite(writes, key).value
    decreases |writes|
  {
    var n := |writes| - 1;
    if Upper(writes[n].serviceName) != key {
      var prefix := writes[..n];
      LastWriteFrom(prefix, key);
      var i :| 0 <= i < |prefix| && Upper(prefix[i].serviceName) == key && prefix[i].content == LastWrite(prefix, key).value;
      assert writes[i] == prefix[i];
    }
  }

  /**
   * Every successful fetch is stored under `Upper(serviceId + " - " + name)`
   * with its serialised content, provided every write of the cycle to that
   * key carries the same content (otherwise the last write wins: `ApplyWritesLastWins`).
   */
  lemma SuccessfulFetchValue(
    m: map<string, string>, discovery: Discovery, web: Web, serviceId: string, instance: ServiceInstance, k: int)
    requires serviceId in discovery.services
    requires FirstInstance(discovery, serviceId) == Some(instance)
    requires 0 <= k < |GetSwaggerURL(instance, web)|
    requires GetSwaggerDefinitionForAPI(instance, GetSwaggerURL(instance, web)[k].location, web).Some?
    requires WritesAgreeOn(CycleWrites(discovery, discovery.services, web),
      Upper(ResourceKey(serviceId, GetSwaggerURL(instance, web)[k])),
      GetJSON(GetSwaggerDefinitionForAPI(instance, GetSwaggerURL(instance, web)[k].location, web).value, web))
    ensures Lookup(Refreshed(m, discovery, web), Upper(ResourceKey(serviceId, GetSwaggerURL(instance, web)[k]))) ==
      Some(GetJSON(GetSwaggerDefinitionForAPI(instance, GetSwaggerURL(instance, web)[k].location, web).value, web))
  {
    var w := StoredWrite(discovery, web, serviceId, instance, k);
    var writes := CycleWrites(discovery, discovery.services, web);
    var key := Upper(w.serviceName);
    var i :| 0 <= i < |writes| && writes[i] == w;
    WrittenKeysMembers(writes, key);
    LastWriteNone(writes, key);
    LastWriteFrom(writes, key);
    ApplyWritesLastWins(m, writes, key);
  }

  /**
   * A refresh only adds or overwrites: every key survives, and a key the cycle
   * does not write (for instance because its fetch failed) keeps its value.
   */
  lemma RefreshNeverRemoves(m: map<string, string>, discovery: Discovery, web: Web)
    ensures m.Keys <= Refreshed(m, discovery, web).Keys
    ensures forall key :: key !in WrittenKeys(CycleWrites(discovery, discovery.services, web)) ==>
      Lookup(Refreshed(m, discovery, web), key) == Lookup(m, key)
  {
    forall key | key !in WrittenKeys(CycleWrites(discovery, discovery.services, web))
      ensures Lookup(Refreshed(m, discovery, web), key) == Lookup(m, key)
    {
      UnwrittenKeyUnchanged(m, CycleWrites(discovery, discovery.services, web), key);
    }
  }

  /** A refresh keeps every key of the store upper-case. */
  lemma RefreshKeepsKeysNormalised(m: map<string, string>, discovery: Discovery, web: Web)
    requires KeysNormalised(m)
    ensures KeysNormalised(Refreshed(m, discovery, web))
  {
    ApplyWritesKeepsKeysNormalised(m, CycleWrites(discovery, discovery.services, web));
  }

  /** Performing the same writes again changes nothing. */
  lemma ApplyWritesTwice(m: map<string, string>, writes: seq<Write>)
    ensures ApplyWrites(ApplyWrites(m, writes), writes) == ApplyWrites(m, writes)
  {
    var once := ApplyWrites(m, writes);
    var twice := ApplyWrites(once, writes);
    forall key | key in once ensures key in twice && twice[key] == once[key] {
      ApplyWritesLastWins(m, writes, key);
      ApplyWritesLastWins(once, writes, key);
    }
  }

  /** Two cycles against an unchanged fleet leave the store as one cycle does. */
  lemma RefreshIdempotent(m: map<string, string>, discovery: Discovery, web: Web)
    ensures Refreshed(Refreshed(m, discovery, web), discovery, web) == Refreshed(m, discovery, web)
  {
    ApplyWritesTwice(m, CycleWrites(discovery, discovery.services, web));
  }
}
