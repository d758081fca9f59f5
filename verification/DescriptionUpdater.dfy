/**
 * The refresh cycle (`ServiceDescriptionUpdater`): for every service the
 * discovery client reports, take its first instance, list that instance's
 * swagger resources, fetch each resource's descriptor, and write every
 * success into the store under "<serviceId> - <resource name>".
 *
 * The discovery client and the HTTP/JSON collaborators are inputs: a
 * `Discovery` snapshot and a `Web` of outcome functions. The writes one cycle
 * performs are described by functions (`ResponseWrites` up to `CycleWrites`),
 * their effect on the store by `ApplyWrites`, and the imperative cycle in
 * `ServiceDescriptionUpdater.RefreshSwaggerConfigurations` is proved to
 * produce exactly `Refreshed`.
 */
module DescriptionUpdater {
  import opened Wrappers
  import opened Text
  import opened ServiceDefinitions

  /** Path, relative to an instance, that lists its swagger resources. */
  const SwaggerResources: string := "/swagger-resources"

  /** `HttpStatus.OK`. */
  const HttpOk: int := 200

  /** A registered instance of a service; only its base URI is used. */
  datatype ServiceInstance = ServiceInstance(uri: string)

  /** One element of the `/swagger-resources` reply; a field missing from the JSON is `None` (null). */
  datatype SwaggerResponse = SwaggerResponse(
    location: Option<string>, swaggerVersion: Option<string>, name: Option<string>, url: Option<string>)

  /**
   * What the discovery client reports at one tick: the service names, and per
   * name the instance list; a name with no entry stands for a null list.
   */
  datatype Discovery = Discovery(services: seq<string>, instances: map<string, seq<ServiceInstance>>)

  /** Outcome of `template.exchange` on the resource-listing URL: an exception, or a status and a possibly-null body. */
  datatype ExchangeReply = ExchangeFailed | Exchanged(status: int, body: Option<seq<SwaggerResponse>>)

  /** The object Jackson deserialised a descriptor into; opaque to the updater. */
  datatype JsonData = JsonData(tree: string)

  /** Outcome of `template.getForObject` on a descriptor URL: an exception, or a possibly-null object. */
  datatype FetchReply = FetchFailed | Fetched(body: Option<JsonData>)

  /**
   * The network and serialiser as the updater sees them during one cycle:
   * the reply to each URL, and `writeValueAsString` (`None` for a
   * `JsonProcessingException`).
   */
  datatype Web = Web(
    exchange: string -> ExchangeReply,
    getForObject: string -> FetchReply,
    writeValueAsString: JsonData -> Option<string>)

  /** One `addServiceDefinition(serviceName, content)` call of a cycle. */
  datatype Write = Write(serviceName: string, content: string)

  /** `discoveryClient.getInstances(serviceId)`; `None` is a null list. */
  function GetInstances(discovery: Discovery, serviceId: string): (r: Option<seq<ServiceInstance>>)
    ensures serviceId in discovery.instances ==> r == Some(discovery.instances[serviceId])
    ensures serviceId !in discovery.instances ==> r == None
  {
    if serviceId in discovery.instances then Some(discovery.instances[serviceId]) else None
  }

  /**
   * `getSwaggerURL(instance)`: the resources listed at `uri + "/swagger-resources"`;
   * empty when the call throws, the status is not OK, or the body is null.
   */
  function GetSwaggerURL(instance: ServiceInstance, web: Web): (r: seq<SwaggerResponse>)
    ensures var reply := web.exchange(instance.uri + SwaggerResources);
      r != [] ==> reply.Exchanged? && reply.status == HttpOk && reply.body == Some(r)
    ensures var reply := web.exchange(instance.uri + SwaggerResources);
      reply.Exchanged? && reply.status == HttpOk && reply.body.Some? ==> r == reply.body.value
  {
    match web.exchange(instance.uri + SwaggerResources)
    case ExchangeFailed => []
    case Exchanged(status, body) =>
      if status == HttpOk && body.Some? then body.value else []
  }

  /**
   * `getSwaggerDefinitionForAPI(serviceName, instance, url)`: the object at
   * `uri + url`; empty when the call throws or returns null.
   */
  function GetSwaggerDefinitionForAPI(instance: ServiceInstance, url: Option<string>, web: Web): (r: Option<JsonData>)
    ensures r.Some? ==> web.getForObject(instance.uri + Str(url)) == Fetched(r)
    ensures web.getForObject(instance.uri + Str(url)).Fetched? ==> r == web.getForObject(instance.uri + Str(url)).body
  {
    match web.getForObject(instance.uri + Str(url))
    case FetchFailed => None
    case Fetched(body) => body
  }

  /** `getJSON(serviceId, jsonData)`: the serialised text, or "" when serialisation fails. */
  function GetJSON(jsonData: JsonData, web: Web): (r: string)
    ensures web.writeValueAsString(jsonData).None? ==> r == ""
    ensures web.writeValueAsString(jsonData).Some? ==> r == web.writeValueAsString(jsonData).value
  {
    web.writeValueAsString(jsonData).GetOr("")
  }

  /**
   * The composite key a resource is stored under (before upper-casing): the
   * service id, then " - ", then the resource name ("null" when absent).
   */
  function ResourceKey(serviceId: string, response: SwaggerResponse): (r: string)
    ensures serviceId <= r
    ensures |r| == |serviceId| + 3 + |Str(response.name)|
    ensures r[|serviceId|..|serviceId| + 3] == " - "
    ensures r[|serviceId| + 3..] == Str(response.name)
  {
    serviceId + " - " + Str(response.name)
  }

  /** The write one listed resource produces: one on a successful fetch, none otherwise. */
  function ResponseWrites(serviceId: string, instance: ServiceInstance, response: SwaggerResponse, web: Web): (r: seq<Write>)
    ensures |r| <= 1
    ensures var reply := web.getForObject(instance.uri + Str(response.location));
      r != [] <==> reply.Fetched? && reply.body.Some?
    ensures r != [] ==> serviceId <= r[0].serviceName
  {
    var jsonData := GetSwaggerDefinitionForAPI(instance, response.location, web);
    if jsonData.Some? then [Write(ResourceKey(serviceId, response), GetJSON(jsonData.value, web))] else []
  }

  /** The writes for a list of resources of one instance, in list order. */
  function ResourceWrites(serviceId: string, instance: ServiceInstance, responses: seq<SwaggerResponse>, web: Web): (r: seq<Write>)
    ensures |r| <= |responses|
    ensures |responses| == 1 ==> r == ResponseWrites(serviceId, instance, responses[0], web)
    decreases |responses|
  {
    if responses == [] then []
    else
      var n := |responses| - 1;
      ResourceWrites(serviceId, instance, responses[..n], web) + ResponseWrites(serviceId, instance, responses[n], web)
  }

  /** The writes one service produces: none without instances, else those of its first instance. */
  function ServiceWrites(discovery: Discovery, serviceId: string, web: Web): (r: seq<Write>)
    ensures r != [] ==>
      GetInstances(discovery, serviceId).Some? && GetInstances(discovery, serviceId).value != [] &&
      GetSwaggerURL(GetInstances(discovery, serviceId).value[0], web) != []
  {
    match GetInstances(discovery, serviceId)
    case None => []
    case Some(serviceInstances) =>
      if serviceInstances == [] then []
      else
        var instance := serviceInstances[0];
        ResourceWrites(serviceId, instance, GetSwaggerURL(instance, web), web)
  }

  /** The writes a cycle over `services` produces, service after service. */
  function CycleWrites(discovery: Discovery, services: seq<string>, web: Web): (r: seq<Write>)
    ensures services == [] ==> r == []
    ensures |services| == 1 ==> r == ServiceWrites(discovery, services[0], web)
    decreases |services|
  {
    if services == [] then []
    else
      var n := |services| - 1;
      CycleWrites(discovery, services[..n], web) + ServiceWrites(discovery, services[n], web)
  }

  /** The upper-cased keys a list of writes touches. */
  function WrittenKeys(writes: seq<Write>): set<string>
    decreases |writes|
  {
    if writes == [] then {}
    else
      var n := |writes| - 1;
      WrittenKeys(writes[..n]) + {Upper(writes[n].serviceName)}
  }

  /** The store after performing `writes` in order. */
  function ApplyWrites(m: map<string, string>, writes: seq<Write>): (r: map<string, string>)
    ensures r.Keys == m.Keys + WrittenKeys(writes)
    decreases |writes|
  {
    if writes == [] then m
    else
      var n := |writes| - 1;
      Put(ApplyWrites(m, writes[..n]), writes[n].serviceName, writes[n].content)
  }

  /** The store after one refresh cycle starting from `m`. */
  function Refreshed(m: map<string, string>, discovery: Discovery, web: Web): (r: map<string, string>)
    ensures r.Keys == m.Keys + WrittenKeys(CycleWrites(discovery, discovery.services, web))
    ensures discovery.services == [] ==> r == m
  {
    ApplyWrites(m, CycleWrites(discovery, discovery.services, web))
  }

  /** The content of the last write in `writes` whose upper-cased key is `key`, if any. */
  function LastWrite(writes: seq<Write>, key: string): Option<string>
    decreases |writes|
  {
    if writes == [] then None
    else
      var n := |writes| - 1;
      if Upper(writes[n].serviceName) == key then Some(writes[n].content) else LastWrite(writes[..n], key)
  }

  // Unfolding the write lists one element at a time

  /** Performing one more write is one more put. */
  lemma ApplyWritesSnoc(m: map<string, string>, writes: seq<Write>, w: Write)
    ensures ApplyWrites(m, writes + [w]) == Put(ApplyWrites(m, writes), w.serviceName, w.content)
  {
    assert (writes + [w])[..|writes|] == writes;
  }

  /** Performing `a` then `b` is performing `a + b`. */
  lemma {:induction false} ApplyWritesAppend(m: map<string, string>, a: seq<Write>, b: seq<Write>)
    ensures ApplyWrites(m, a + b) == ApplyWrites(ApplyWrites(m, a), b)
    decreases |b|
  {
    if b == [] {
      assert a + b == a;
    } else {
      var n := |b| - 1;
      var front := b[..n];
      calc {
        ApplyWrites(m, a + b);
        { assert a + b == (a + front) + [b[n]]; }
        ApplyWrites(m, (a + front) + [b[n]]);
        { ApplyWritesSnoc(m, a + front, b[n]); }
        Put(ApplyWrites(m, a + front), b[n].serviceName, b[n].content);
        { ApplyWritesAppend(m, a, front); }
        Put(ApplyWrites(ApplyWrites(m, a), front), b[n].serviceName, b[n].content);
        ApplyWrites(ApplyWrites(m, a), b);
      }
    }
  }

  /** The writes for the first `j + 1` resources extend those for the first `j`. */
  lemma ResourceWritesPrefix(serviceId: string, instance: ServiceInstance, responses: seq<SwaggerResponse>, j: int, web: Web)
    requires 0 <= j < |responses|
    ensures ResourceWrites(serviceId, instance, responses[..j + 1], web) ==
      ResourceWrites(serviceId, instance, responses[..j], web) + ResponseWrites(serviceId, instance, responses[j], web)
  {
    assert responses[..j + 1][..j] == responses[..j];
  }

  /** The writes for the first `i + 1` services extend those for the first `i`. */
  lemma CycleWritesPrefix(discovery: Discovery, services: seq<string>, i: int, web: Web)
    requires 0 <= i < |services|
    ensures CycleWrites(discovery, services[..i + 1], web) ==
      CycleWrites(discovery, services[..i], web) + ServiceWrites(discovery, services[i], web)
  {
    assert services[..i + 1][..i] == services[..i];
  }

  /** The updater; it owns no state beyond the store it writes to. */
  class ServiceDescriptionUpdater {
    const definitionContext: ServiceDefinitionsContext

    constructor (definitionContext: ServiceDefinitionsContext)
      ensures this.definitionContext == definitionContext
    {
      this.definitionContext := definitionContext;
    }

    /**
     * One refresh cycle: visits the services in the order the discovery
     * client lists them, and adds every descriptor fetched for each.
     */
    method RefreshSwaggerConfigurations(discovery: Discovery, web: Web)
      requires definitionContext.Valid()
      modifies definitionContext
      ensures definitionContext.Valid()
      ensures definitionContext.serviceDescriptions ==
        Refreshed(old(definitionContext.serviceDescriptions), discovery, web)
    {
      ghost var start := definitionContext.serviceDescriptions;
      var services := discovery.services;
      var i := 0;
      while i < |services|
        invariant 0 <= i <= |services|
        invariant definitionContext.Valid()
        invariant definitionContext.serviceDescriptions == ApplyWrites(start, CycleWrites(discovery, services[..i], web))
      {
        RefreshService(discovery, services[i], web);
        CycleWritesPrefix(discovery, services, i, web);
        ApplyWritesAppend(start, CycleWrites(discovery, services[..i], web), ServiceWrites(discovery, services[i], web));
        i := i + 1;
      }
      assert services[..i] == services;
    }

    /**
     * The work for one service: skipped without instances; otherwise the
     * resources of its first instance are fetched one by one and every
     * success is added to the store.
     */
    method RefreshService(discovery: Discovery, serviceId: string, web: Web)
      requires definitionContext.Valid()
      modifies definitionContext
      ensures definitionContext.Valid()
      ensures definitionContext.serviceDescriptions ==
        ApplyWrites(old(definitionContext.serviceDescriptions), ServiceWrites(discovery, serviceId, web))
    {
      var serviceInstances := GetInstances(discovery, serviceId);
      if serviceInstances.None? || serviceInstances.value == [] {
        // no instance available: nothing is written for this service
        return;
      }
      ghost var start := definitionContext.serviceDescriptions;
      var instance := serviceInstances.value[0];
      var responses := GetSwaggerURL(instance, web);
      var j := 0;
      while j < |responses|
        invariant 0 <= j <= |responses|
        invariant definitionContext.Valid()
        invariant definitionContext.serviceDescriptions ==
          ApplyWrites(start, ResourceWrites(serviceId, instance, responses[..j], web))
      {
        var response := responses[j];
        ghost var before := ResourceWrites(serviceId, instance, responses[..j], web);
        ResourceWritesPrefix(serviceId, instance, responses, j, web);
        var jsonData := GetSwaggerDefinitionForAPI(instance, response.location, web);
        if jsonData.Some? {
          var content := GetJSON(jsonData.value, web);
          definitionContext.AddServiceDefinition(serviceId + " - " + Str(response.name), content);
          ApplyWritesSnoc(start, before, Write(ResourceKey(serviceId, response), content));
        } else {
          assert before + [] == before;
        }
        j := j + 1;
      }
      assert responses[..j] == responses;
    }
  }
}
