/**
 * The in-memory store of API-definition JSON (`ServiceDefinitionsContext`):
 * a map from an upper-cased key to descriptor text, a case-sensitive lookup,
 * and the sorted directory that the documentation UI lists.
 *
 * The map operations are first given as functions on `map<string, string>`
 * (`Put`, `Lookup`, `Directory`) and their properties are proved as lemmas;
 * the class `ServiceDefinitionsContext` holds the map in a mutable field, and
 * the contracts of its members repeat what those functions promise about it.
 */
module ServiceDefinitions {
  import opened Wrappers
  import opened Text

  /** One entry of the directory listing (springfox's `SwaggerResource`). */
  datatype SwaggerResource = SwaggerResource(location: string, name: string, swaggerVersion: string)

  /** Prefix of the location under which a stored definition is served. */
  const ServicePath: string := "/service/"

  /** The Swagger version every directory entry announces. */
  const SwaggerVersion: string := "2.0"

  /** Every stored key is its own upper-case form. */
  ghost predicate KeysNormalised(m: map<string, string>) {
    forall k :: k in m ==> Upper(k) == k
  }

  /** The store after `addServiceDefinition(serviceName, serviceDescription)`. */
  function Put(m: map<string, string>, serviceName: string, serviceDescription: string): (r: map<string, string>)
    ensures r.Keys == m.Keys + {Upper(serviceName)}
    ensures r[Upper(serviceName)] == serviceDescription
    ensures forall k :: k in m && k != Upper(serviceName) ==> r[k] == m[k]
  {
    m[Upper(serviceName) := serviceDescription]
  }

  /** `getSwaggerDefinition(serviceId)`: the text stored under exactly `serviceId`, or null. */
  function Lookup(m: map<string, string>, serviceId: string): (r: Option<string>)
    ensures r.Some? <==> serviceId in m
    ensures r.Some? ==> r.value == m[serviceId]
  {
    if serviceId in m then Some(m[serviceId]) else None
  }

  /** The directory entry built for one stored key. */
  function Entry(key: string): SwaggerResource {
    SwaggerResource(ServicePath + key, key, SwaggerVersion)
  }

  /** The keys of `keys`, each once, in ascending `compareTo` order. */
  function SortedKeys(keys: set<string>): (r: seq<string>)
    ensures |r| == |keys|
    ensures forall i :: 0 <= i < |r| ==> r[i] in keys
    ensures forall k :: k in keys ==> k in r
    ensures forall i, j :: 0 <= i < j < |r| ==> Before(r[i], r[j])
    decreases keys
  {
    if keys == {} then []
    else
      var k := Least(keys);
      [k] + SortedKeys(keys - {k})
  }

  /** The directory entries for `keys`, in the same order. */
  function Entries(keys: seq<string>): (r: seq<SwaggerResource>)
    ensures |r| == |keys|
    ensures forall i :: 0 <= i < |r| ==> r[i] == Entry(keys[i])
  {
    if keys == [] then [] else [Entry(keys[0])] + Entries(keys[1..])
  }

  /** `getSwaggerDefinitions()`: one entry per stored key, sorted by name. */
  function Directory(m: map<string, string>): (r: seq<SwaggerResource>)
    ensures |r| == |m.Keys|
    ensures forall i :: 0 <= i < |r| ==>
      r[i].name in m && r[i].location == ServicePath + r[i].name && r[i].swaggerVersion == SwaggerVersion
    ensures forall k :: k in m ==> exists i :: 0 <= i < |r| && r[i].name == k
    ensures forall i, j :: 0 <= i < j < |r| ==> Before(r[i].name, r[j].name)
  {
    var keys := SortedKeys(m.Keys);
    var r := Entries(keys);
    forall k | k in m ensures exists i :: 0 <= i < |r| && r[i].name == k {
      EntryOf(keys, k);
    }
    r
  }

  /** A key listed in `keys` has an entry among `Entries(keys)`. */
  lemma EntryOf(keys: seq<string>, k: string)
    requires k in keys
    ensures exists i :: 0 <= i < |Entries(keys)| && Entries(keys)[i].name == k
  {
    var i :| 0 <= i < |keys| && keys[i] == k;
    assert Entries(keys)[i] == Entry(k);
  }

  // Properties of the store

  /** After a put, the upper-cased key reads back the value just written. */
  lemma LookupAfterPut(m: map<string, string>, serviceName: string, serviceDescription: string)
    ensures Lookup(Put(m, serviceName, serviceDescription), Upper(serviceName)) == Some(serviceDescription)
  {
  }

  /** A put overwrites the upper-cased key and leaves every other key as it was, present or absent. */
  lemma PutOverwritesOnlyItsKey(m: map<string, string>, serviceName: string, serviceDescription: string, key: string)
    ensures Lookup(Put(m, serviceName, serviceDescription), key) ==
      if key == Upper(serviceName) then Some(serviceDescription) else Lookup(m, key)
  {
  }

  /** Putting the same pair twice gives the same store as putting it once. */
  lemma PutIdempotent(m: map<string, string>, serviceName: string, serviceDescription: string)
    ensures Put(Put(m, serviceName, serviceDescription), serviceName, serviceDescription) ==
      Put(m, serviceName, serviceDescription)
  {
  }

  /** A put keeps every key upper-case. */
  lemma PutKeepsKeysNormalised(m: map<string, string>, serviceName: string, serviceDescription: string)
    requires KeysNormalised(m)
    ensures KeysNormalised(Put(m, serviceName, serviceDescription))
  {
    UpperIdempotent(serviceName);
  }

  /**
   * Lookup does not normalise: a key with a lower-case letter is never found,
   * even when its upper-case form is stored.
   */
  lemma LookupIsCaseSensitive(m: map<string, string>, serviceId: string)
    requires KeysNormalised(m)
    requires !IsUpper(serviceId)
    ensures Lookup(m, serviceId) == None
  {
    UpperFixedPoints(serviceId);
  }

  /** A directory lists no name twice. */
  lemma DirectoryHasNoDuplicates(m: map<string, string>)
    ensures forall i, j :: 0 <= i < j < |Directory(m)| ==> Directory(m)[i].name != Directory(m)[j].name
  {
    var r := Directory(m);
    forall i, j | 0 <= i < j < |r| ensures r[i].name != r[j].name {
      BeforeTotal(r[i].name, r[j].name);
    }
  }

  /** Over a normalised store, every directory name is upper-case. */
  lemma DirectoryNamesUpper(m: map<string, string>)
    requires KeysNormalised(m)
    ensures forall i :: 0 <= i < |Directory(m)| ==> IsUpper(Directory(m)[i].name)
  {
    var r := Directory(m);
    forall i | 0 <= i < |r| ensures IsUpper(r[i].name) {
      UpperFixedPoints(r[i].name);
    }
  }

  /** The in-memory store itself, updated in place by the refresh cycle. */
  class ServiceDefinitionsContext {
    var serviceDescriptions: map<string, string>

    /** The store's invariant: keys are kept upper-case. */
    ghost predicate Valid()
      reads this
    {
      KeysNormalised(serviceDescriptions)
    }

    constructor ()
      ensures Valid()
      ensures serviceDescriptions == map[]
    {
      serviceDescriptions := map[];
    }

    /** Stores `serviceDescription` under the upper-case form of `serviceName`, replacing any earlier value. */
    method AddServiceDefinition(serviceName: string, serviceDescription: string)
      requires Valid()
      modifies this
      ensures Valid()
      ensures serviceDescriptions == Put(old(serviceDescriptions), serviceName, serviceDescription)
      ensures GetSwaggerDefinition(Upper(serviceName)) == Some(serviceDescription)
    {
      PutKeepsKeysNormalised(serviceDescriptions, serviceName, serviceDescription);
      serviceDescriptions := serviceDescriptions[Upper(serviceName) := serviceDescription];
    }

    /**
     * The text stored under exactly `serviceId`, or `None` for Java's null;
     * the key is not normalised, so one with a lower-case letter is never found.
     */
    function GetSwaggerDefinition(serviceId: string): (r: Option<string>)
      requires Valid()
      reads this
      ensures r.Some? <==> serviceId in serviceDescriptions
      ensures r.Some? ==> r.value == serviceDescriptions[serviceId]
      ensures !IsUpper(serviceId) ==> r == None
    {
      if !IsUpper(serviceId) then
        LookupIsCaseSensitive(serviceDescriptions, serviceId);
        Lookup(serviceDescriptions, serviceId)
      else
        Lookup(serviceDescriptions, serviceId)
    }

    /**
     * The directory of everything stored: each key listed once, with its
     * location and version, in ascending name order; every name is upper-case.
     */
    function GetSwaggerDefinitions(): (r: seq<SwaggerResource>)
      requires Valid()
      reads this
      ensures |r| == |serviceDescriptions.Keys|
      ensures forall i :: 0 <= i < |r| ==>
        r[i].name in serviceDescriptions && IsUpper(r[i].name) &&
        r[i].location == ServicePath + r[i].name && r[i].swaggerVersion == SwaggerVersion
      ensures forall k :: k in serviceDescriptions ==> exists i :: 0 <= i < |r| && r[i].name == k
      ensures forall i, j :: 0 <= i < j < |r| ==> Before(r[i].name, r[j].name)
      ensures forall i, j :: 0 <= i < j < |r| ==> r[i].name != r[j].name
    {
      DirectoryNamesUpper(serviceDescriptions);
      DirectoryHasNoDuplicates(serviceDescriptions);
      Directory(serviceDescriptions)
    }
  }
}
