# Centralized Swagger documentation: store and refresh cycle

This project models the documentation-aggregation engine of the
`documentation-app` service. The engine has two parts.

- **The definition store** (`ServiceDefinitionsContext`) maps a key to API-definition JSON text.
  - A write upper-cases its key.
  - A read looks the key up verbatim, so it is case-sensitive.
  - The directory listing has one `SwaggerResource` per key, sorted by name. Each entry has location `"/service/" + key` and version `"2.0"`.
- **The refresh cycle** (`ServiceDescriptionUpdater.refreshSwaggerConfigurations`) runs for every service the discovery client reports.
  - It skips a service that has no instances.
  - Otherwise it takes the service's first instance and lists that instance's `/swagger-resources`.
  - It fetches each resource's descriptor from `uri + location`.
  - It stores each success under `serviceId + " - " + name`. The content is the serialised descriptor, or `""` when serialisation fails.

Modules:

- `Wrappers` has `Option`, which stands for Java's null and `Optional`.
- `Text` has ASCII upper-casing (`Upper`), `String.compareTo` (`CompareTo`, `Before`), Java's rendering of a null string inside `+` (`Str`), and the least key of a set (`Least`).
- `ServiceDefinitions` holds the store. First come the pure map functions `Put`, `Lookup` and `Directory` and the lemmas about them. Then comes the class `ServiceDefinitionsContext`. Its `serviceDescriptions` field is a `map<string, string>` that `AddServiceDefinition` updates in place. Its `Valid()` invariant is that every key is upper-case.
- `DescriptionUpdater` holds the refresh cycle.
  - The discovery client is a `Discovery` value: the service names, and an instance list per name. A name without an entry stands for a null list.
  - The HTTP calls and Jackson's serialiser are a `Web` value of outcome functions:
    - `exchange` can throw, or answer with a status and a body that may be null.
    - `getForObject` can throw, or answer with an object that may be null.
    - `writeValueAsString` can fail.
  - `ResponseWrites`, `ResourceWrites`, `ServiceWrites` and `CycleWrites` list the `addServiceDefinition` calls one cycle makes, in order.
  - `ApplyWrites` and `Refreshed` give their effect on the map.
  - The class `ServiceDescriptionUpdater` runs the cycle as two nested loops over its store.
    - The per-service loop (`RefreshService`) is proved to perform exactly that service's writes, `ApplyWrites(old store, ServiceWrites(…))`.
    - The outer loop (`RefreshSwaggerConfigurations`) is proved to leave exactly `Refreshed(old store, …)`.
- `RefreshProperties` holds the lemmas about one cycle.
- `Scenarios` proves what one cycle, and then two, do to one concrete fleet.

In four places the code behaves differently from what one might expect. The model follows the code each time:

- **Descriptor URL.** One might expect the descriptor to be fetched from the resource's `url` field. The code fetches from `instance.uri + location` (`ServiceDescriptionUpdater.java:70`, `:103`). `UrlFieldUnused` shows that `url` has no effect.
- **Serialisation failure.** One might expect it to be handled like a failed fetch, which keeps the old value. The code stores `""` over the old value (`ServiceDescriptionUpdater.java:72-73`, `:117`). See `SerialisationFailureStillWrites`.
- **Resource "set".** The code collects the resource list into a `Set`, but `SwaggerResponse` has no `equals`, so nothing is de-duplicated. The model uses a list.
- **Per-service isolation.** Only failures that the helpers catch are isolated per service. An exception from `getInstances` (`ServiceDescriptionUpdater.java:60`) ends the whole cycle, and so does a null instance or a null resource element. The model leaves these paths out (see "Left out").

## Model

| member | source | states |
|---|---|---|
| `Text.Upper` | centralized-swagger-docs/documentation-app/src/main/java/com/satish/central/docs/config/swagger/ServiceDefinitionsContext.java:30 | upper-casing keeps the length and maps each character to its upper-case form (ASCII letters only) |
| `Text.UpperIdempotent` | centralized-swagger-docs/documentation-app/src/main/java/com/satish/central/docs/config/swagger/ServiceDefinitionsContext.java:30 | upper-casing an upper-cased key changes nothing |
| `Text.UpperFixedPoints` | centralized-swagger-docs/documentation-app/src/main/java/com/satish/central/docs/config/swagger/ServiceDefinitionsContext.java:30 | `Upper(s) == s` exactly when `s` has no lower-case letter, and `Upper(s)` never has one |
| `Text.CompareTo` | centralized-swagger-docs/documentation-app/src/main/java/com/satish/central/docs/config/swagger/ServiceDefinitionsContext.java:47 | when one name is a prefix of the other, the result is the difference of the lengths; otherwise there is a first index where they differ, and the result is the difference of the characters there |
| `Text.Str` | centralized-swagger-docs/documentation-app/src/main/java/com/satish/central/docs/config/swagger/ServiceDescriptionUpdater.java:70-73 | a null string is rendered as "null" inside `+`; any other string as itself |
| `Text.CompareToZero` | centralized-swagger-docs/documentation-app/src/main/java/com/satish/central/docs/config/swagger/ServiceDefinitionsContext.java:47 | `compareTo` is zero exactly for equal names |
| `Text.CompareToAntisymmetric` | centralized-swagger-docs/documentation-app/src/main/java/com/satish/central/docs/config/swagger/ServiceDefinitionsContext.java:47 | swapping the arguments of `compareTo` negates the result |
| `Text.BeforeTotal` | centralized-swagger-docs/documentation-app/src/main/java/com/satish/central/docs/config/swagger/ServiceDefinitionsContext.java:47 | of two distinct names exactly one sorts first |
| `Text.BeforeTransitive` | centralized-swagger-docs/documentation-app/src/main/java/com/satish/central/docs/config/swagger/ServiceDefinitionsContext.java:47 | the name order used by the sort is transitive |
| `Text.LeastExists` | centralized-swagger-docs/documentation-app/src/main/java/com/satish/central/docs/config/swagger/ServiceDefinitionsContext.java:47 | every non-empty set of names has a least one |
| `Text.LeastUnique` | centralized-swagger-docs/documentation-app/src/main/java/com/satish/central/docs/config/swagger/ServiceDefinitionsContext.java:47 | a set of names has at most one least name |
| `Text.Least` | centralized-swagger-docs/documentation-app/src/main/java/com/satish/central/docs/config/swagger/ServiceDefinitionsContext.java:47 | the chosen name is in the set and sorts before every other member |
| `ServiceDefinitions.Put` | centralized-swagger-docs/documentation-app/src/main/java/com/satish/central/docs/config/swagger/ServiceDefinitionsContext.java:29-31 | the key set gains `Upper(serviceName)`, which maps to the new text, and every other key keeps its value |
| `ServiceDefinitions.Lookup` | centralized-swagger-docs/documentation-app/src/main/java/com/satish/central/docs/config/swagger/ServiceDefinitionsContext.java:33-35 | a definition is returned exactly when the key is stored verbatim, and it is the stored text; otherwise the result is null |
| `ServiceDefinitions.SortedKeys` | centralized-swagger-docs/documentation-app/src/main/java/com/satish/central/docs/config/swagger/ServiceDefinitionsContext.java:47 | lists every key of the set exactly once, strictly ascending by `compareTo` |
| `ServiceDefinitions.Directory` | centralized-swagger-docs/documentation-app/src/main/java/com/satish/central/docs/config/swagger/ServiceDefinitionsContext.java:37-49 | as many entries as stored keys; each entry names a stored key, with location "/service/"+name and version "2.0"; every key is listed; names strictly ascending |
| `ServiceDefinitions.LookupAfterPut` | centralized-swagger-docs/documentation-app/src/main/java/com/satish/central/docs/config/swagger/ServiceDefinitionsContext.java:29-35 | after adding (k, v), a lookup of `Upper(k)` returns v |
| `ServiceDefinitions.PutOverwritesOnlyItsKey` | centralized-swagger-docs/documentation-app/src/main/java/com/satish/central/docs/config/swagger/ServiceDefinitionsContext.java:30 | adding overwrites any earlier value for `Upper(k)`; every other key reads as before, present or absent |
| `ServiceDefinitions.PutIdempotent` | centralized-swagger-docs/documentation-app/src/main/java/com/satish/central/docs/config/swagger/ServiceDefinitionsContext.java:30 | adding the same pair twice leaves the same map as adding it once |
| `ServiceDefinitions.PutKeepsKeysNormalised` | centralized-swagger-docs/documentation-app/src/main/java/com/satish/central/docs/config/swagger/ServiceDefinitionsContext.java:30 | adding keeps the invariant that every stored key equals its upper-case form |
| `ServiceDefinitions.LookupIsCaseSensitive` | centralized-swagger-docs/documentation-app/src/main/java/com/satish/central/docs/config/swagger/ServiceDefinitionsContext.java:33-35 | in a normalised store, a key with a lower-case letter is not found, even if its upper-case form is stored |
| `ServiceDefinitions.DirectoryHasNoDuplicates` | centralized-swagger-docs/documentation-app/src/main/java/com/satish/central/docs/config/swagger/ServiceDefinitionsContext.java:37-49 | no name appears twice in the listing |
| `ServiceDefinitions.DirectoryNamesUpper` | centralized-swagger-docs/documentation-app/src/main/java/com/satish/central/docs/config/swagger/ServiceDefinitionsContext.java:42-43 | over a normalised store, every listed name is upper-case |
| `ServiceDefinitions.ServiceDefinitionsContext.constructor` | centralized-swagger-docs/documentation-app/src/main/java/com/satish/central/docs/config/swagger/ServiceDefinitionsContext.java:25-27 | a new store is empty and valid |
| `ServiceDefinitions.ServiceDefinitionsContext.AddServiceDefinition` | centralized-swagger-docs/documentation-app/src/main/java/com/satish/central/docs/config/swagger/ServiceDefinitionsContext.java:29-31 | the map becomes `Put(old map, name, text)`; the key invariant is kept; `getSwaggerDefinition(Upper(name))` now returns the text |
| `ServiceDefinitions.ServiceDefinitionsContext.GetSwaggerDefinition` | centralized-swagger-docs/documentation-app/src/main/java/com/satish/central/docs/config/swagger/ServiceDefinitionsContext.java:33-35 | a definition is returned exactly when the key is stored verbatim, and it is the stored text; a key with a lower-case letter is never found |
| `ServiceDefinitions.ServiceDefinitionsContext.GetSwaggerDefinitions` | centralized-swagger-docs/documentation-app/src/main/java/com/satish/central/docs/config/swagger/ServiceDefinitionsContext.java:37-49 | as many entries as stored keys; each names a stored, upper-case key, with location "/service/"+name and version "2.0"; every key is listed; names strictly ascending by `compareTo`, so none repeats |
| `DescriptionUpdater.GetInstances` | centralized-swagger-docs/documentation-app/src/main/java/com/satish/central/docs/config/swagger/ServiceDescriptionUpdater.java:60 | the instance list is null exactly when the discovery report has no entry for the service; otherwise it is that entry |
| `DescriptionUpdater.GetSwaggerURL` | centralized-swagger-docs/documentation-app/src/main/java/com/satish/central/docs/config/swagger/ServiceDescriptionUpdater.java:84-98 | the resources come from `uri + "/swagger-resources"`; the list is non-empty only when that call answered 200 with a non-null body, and then it is that body |
| `DescriptionUpdater.GetSwaggerDefinitionForAPI` | centralized-swagger-docs/documentation-app/src/main/java/com/satish/central/docs/config/swagger/ServiceDescriptionUpdater.java:100-110 | when `getForObject(uri + location)` returns, the result is its object, empty when that object is null; when the call throws, the result is empty |
| `DescriptionUpdater.GetJSON` | centralized-swagger-docs/documentation-app/src/main/java/com/satish/central/docs/config/swagger/ServiceDescriptionUpdater.java:112-119 | the result is the serialised text, or "" when serialisation fails |
| `DescriptionUpdater.ResourceKey` | centralized-swagger-docs/documentation-app/src/main/java/com/satish/central/docs/config/swagger/ServiceDescriptionUpdater.java:73 | the key is the service id, then " - ", then the resource name, with a null name rendered as "null" |
| `DescriptionUpdater.ResponseWrites` | centralized-swagger-docs/documentation-app/src/main/java/com/satish/central/docs/config/swagger/ServiceDescriptionUpdater.java:70-76 | one listed resource makes at most one write, and makes one exactly when its descriptor fetch returns a non-null object; the write's key starts with the service id |
| `DescriptionUpdater.ResourceWrites` | centralized-swagger-docs/documentation-app/src/main/java/com/satish/central/docs/config/swagger/ServiceDescriptionUpdater.java:68-77 | the resources of one instance make no more writes than there are resources; a single resource makes exactly its own writes |
| `DescriptionUpdater.ServiceWrites` | centralized-swagger-docs/documentation-app/src/main/java/com/satish/central/docs/config/swagger/ServiceDescriptionUpdater.java:60-79 | a service writes only when its instance list is non-null and non-empty and its first instance's listing is non-empty |
| `DescriptionUpdater.CycleWrites` | centralized-swagger-docs/documentation-app/src/main/java/com/satish/central/docs/config/swagger/ServiceDescriptionUpdater.java:57-81 | a cycle over no services writes nothing; a cycle over one service makes exactly that service's writes |
| `DescriptionUpdater.Refreshed` | centralized-swagger-docs/documentation-app/src/main/java/com/satish/central/docs/config/swagger/ServiceDescriptionUpdater.java:53-82 | after a cycle, the keys are the old keys plus the upper-cased keys the cycle writes; a cycle over no services leaves the store as it was |
| `DescriptionUpdater.ApplyWrites` | centralized-swagger-docs/documentation-app/src/main/java/com/satish/central/docs/config/swagger/ServiceDescriptionUpdater.java:68-76 | after a list of `addServiceDefinition` calls, the keys are the old keys plus the upper-cased keys written |
| `DescriptionUpdater.ApplyWritesAppend` | centralized-swagger-docs/documentation-app/src/main/java/com/satish/central/docs/config/swagger/ServiceDescriptionUpdater.java:57-81 | running one service's writes after the earlier services' writes is the same as running the joined list |
| `DescriptionUpdater.ServiceDescriptionUpdater.constructor` | centralized-swagger-docs/documentation-app/src/main/java/com/satish/central/docs/config/swagger/ServiceDescriptionUpdater.java:50-51 | the updater writes to the given store |
| `DescriptionUpdater.ServiceDescriptionUpdater.RefreshSwaggerConfigurations` | centralized-swagger-docs/documentation-app/src/main/java/com/satish/central/docs/config/swagger/ServiceDescriptionUpdater.java:53-82 | the loop over services leaves the store equal to `Refreshed(old store, discovery, web)` and keeps its key invariant |
| `DescriptionUpdater.ServiceDescriptionUpdater.RefreshService` | centralized-swagger-docs/documentation-app/src/main/java/com/satish/central/docs/config/swagger/ServiceDescriptionUpdater.java:59-80 | the per-service loop performs exactly that service's writes, in list order, and keeps the key invariant |
| `RefreshProperties.WrittenKeysMembers` | centralized-swagger-docs/documentation-app/src/main/java/com/satish/central/docs/config/swagger/ServiceDescriptionUpdater.java:73 | a key counts as written exactly when some write's name upper-cases to it |
| `RefreshProperties.ApplyWritesLastWins` | centralized-swagger-docs/documentation-app/src/main/java/com/satish/central/docs/config/swagger/ServiceDescriptionUpdater.java:68-76 | after a cycle, a key reads as the last content written to it, or as before if nothing was written to it |
| `RefreshProperties.LastWriteNone` | centralized-swagger-docs/documentation-app/src/main/java/com/satish/central/docs/config/swagger/ServiceDescriptionUpdater.java:73 | there is no last write to a key exactly when the key is not among the written keys |
| `RefreshProperties.LastWriteFrom` | centralized-swagger-docs/documentation-app/src/main/java/com/satish/central/docs/config/swagger/ServiceDescriptionUpdater.java:73 | the final content of a written key comes from one of the writes to that key |
| `RefreshProperties.LastWriteAt` | centralized-swagger-docs/documentation-app/src/main/java/com/satish/central/docs/config/swagger/ServiceDescriptionUpdater.java:73 | a write that no later write to the same key follows supplies that key's final content |
| `RefreshProperties.UnwrittenKeyUnchanged` | centralized-swagger-docs/documentation-app/src/main/java/com/satish/central/docs/config/swagger/ServiceDescriptionUpdater.java:74-76 | a key the writes do not touch keeps its value, present or absent |
| `RefreshProperties.ApplyWritesKeepsKeysNormalised` | centralized-swagger-docs/documentation-app/src/main/java/com/satish/central/docs/config/swagger/ServiceDefinitionsContext.java:30 | any list of writes keeps every stored key upper-case |
| `RefreshProperties.CycleWritesMembers` | centralized-swagger-docs/documentation-app/src/main/java/com/satish/central/docs/config/swagger/ServiceDescriptionUpdater.java:57-81 | a cycle's writes are exactly the writes of its services taken together, each service's independent of the others |
| `RefreshProperties.ResourceWritesMembers` | centralized-swagger-docs/documentation-app/src/main/java/com/satish/central/docs/config/swagger/ServiceDescriptionUpdater.java:68-76 | an instance's writes are exactly one per listed resource whose fetch succeeds: key `serviceId + " - " + name`, content its serialised text |
| `RefreshProperties.NoInstancesNoWrites` | centralized-swagger-docs/documentation-app/src/main/java/com/satish/central/docs/config/swagger/ServiceDescriptionUpdater.java:62-63 | a service whose instance list is null or empty writes nothing |
| `RefreshProperties.ListingFailureNoWrites` | centralized-swagger-docs/documentation-app/src/main/java/com/satish/central/docs/config/swagger/ServiceDescriptionUpdater.java:91-97 | if the resource listing throws, is not 200, or has a null body, the service writes nothing |
| `RefreshProperties.FailedFetchWritesNothing` | centralized-swagger-docs/documentation-app/src/main/java/com/satish/central/docs/config/swagger/ServiceDescriptionUpdater.java:71-76 | a resource whose descriptor fetch comes back empty writes nothing |
| `RefreshProperties.SerialisationFailureStillWrites` | centralized-swagger-docs/documentation-app/src/main/java/com/satish/central/docs/config/swagger/ServiceDescriptionUpdater.java:72-73 | a fetched descriptor that cannot be serialised is still written, with content "" |
| `RefreshProperties.UrlFieldUnused` | centralized-swagger-docs/documentation-app/src/main/java/com/satish/central/docs/config/swagger/ServiceDescriptionUpdater.java:70 | resources that agree on location and name make the same writes, whatever their url field |
| `RefreshProperties.CycleWritesFirstInstancesOnly` | centralized-swagger-docs/documentation-app/src/main/java/com/satish/central/docs/config/swagger/ServiceDescriptionUpdater.java:65-67 | two discovery reports that agree on each service's first instance make the same writes |
| `RefreshProperties.OnlyFirstInstanceConsulted` | centralized-swagger-docs/documentation-app/src/main/java/com/satish/central/docs/config/swagger/ServiceDescriptionUpdater.java:65-67 | instances after the first have no effect on the refreshed store |
| `RefreshProperties.StoredWrite` | centralized-swagger-docs/documentation-app/src/main/java/com/satish/central/docs/config/swagger/ServiceDescriptionUpdater.java:70-73 | a successful fetch of a listed service's resource is among the cycle's writes, with its composite key and serialised content |
| `RefreshProperties.SuccessfulFetchStored` | centralized-swagger-docs/documentation-app/src/main/java/com/satish/central/docs/config/swagger/ServiceDescriptionUpdater.java:70-73 | after the cycle, the store holds `Upper(serviceId + " - " + name)` for every successful fetch, whatever listing and fetch outcomes the other services and resources had |
| `RefreshProperties.SuccessfulFetchValue` | centralized-swagger-docs/documentation-app/src/main/java/com/satish/central/docs/config/swagger/ServiceDescriptionUpdater.java:70-73 | when every write of the cycle to this key carries the same content, the key maps to the fetched descriptor's serialised content |
| `RefreshProperties.RefreshNeverRemoves` | centralized-swagger-docs/documentation-app/src/main/java/com/satish/central/docs/config/swagger/ServiceDescriptionUpdater.java:57-81 | a cycle only adds or overwrites: no key is lost, and a key the cycle does not write keeps its value, present or absent |
| `RefreshProperties.RefreshKeepsKeysNormalised` | centralized-swagger-docs/documentation-app/src/main/java/com/satish/central/docs/config/swagger/ServiceDescriptionUpdater.java:73 | a cycle keeps every stored key upper-case |
| `RefreshProperties.ApplyWritesTwice` | centralized-swagger-docs/documentation-app/src/main/java/com/satish/central/docs/config/swagger/ServiceDescriptionUpdater.java:68-76 | running the same writes a second time changes nothing |
| `RefreshProperties.RefreshIdempotent` | centralized-swagger-docs/documentation-app/src/main/java/com/satish/central/docs/config/swagger/ServiceDescriptionUpdater.java:53-82 | a second cycle against unchanged services and replies leaves the store as the first one did |
| `Scenarios.ServiceWritesOfFleet` | centralized-swagger-docs/documentation-app/src/main/java/com/satish/central/docs/config/swagger/ServiceDescriptionUpdater.java:60-73 | in the example fleet, A writes its descriptor under "A - v1" and B, having no instance, writes nothing |
| `Scenarios.OneCycle` | centralized-swagger-docs/documentation-app/src/main/java/com/satish/central/docs/config/swagger/ServiceDescriptionUpdater.java:53-82 | one cycle from an empty store gives exactly {"A - V1": descriptor}; the directory lists exactly that key; no key derived from B is present |
| `Scenarios.SecondCycleOverwrites` | centralized-swagger-docs/documentation-app/src/main/java/com/satish/central/docs/config/swagger/ServiceDescriptionUpdater.java:73 | a second cycle after A's descriptor changed replaces the stored value |

## Left out

- Concurrency is not modelled. This covers `ConcurrentHashMap` (`ServiceDefinitionsContext.java:23`), the two `parallelStream` calls (`ServiceDefinitionsContext.java:39`, `ServiceDescriptionUpdater.java:68`) and the `@Scheduled` fixed-delay timing (`ServiceDescriptionUpdater.java:53`). Services and resources are visited one after another, in list order. The services stream at `ServiceDescriptionUpdater.java:57` is sequential, so when two services write the same key the later service wins, in the source as in the model. Only within one service's `parallelStream` (`:68`) does the source keep a nondeterministic one of two writes to the same key. There the model keeps the last in list order, as a modelling choice.
- The order of `getSwaggerURL`'s `HashSet` is not modelled. The model keeps the body's list order.
- Upper: covers ASCII letters only. Java's `toUpperCase` is locale-sensitive and covers all of Unicode, and can change a string's length (for example `ß` becomes `SS`).
- CompareTo: compares Dafny characters, which are Unicode scalar values. Java compares UTF-16 code units, so the two orders can differ for characters outside the Basic Multilingual Plane.
- The discovery client and every network reply are inputs to the cycle: a `Discovery` snapshot and a `Web` of outcome functions. Timeouts and retries are therefore not modelled. An exception thrown by `getServices()` itself, which the source does not catch, is not modelled either.
- Exceptions that the cycle does not catch are not modelled. Three such paths exist in the source:
  - `discoveryClient.getInstances` throwing (`ServiceDescriptionUpdater.java:60`);
  - a null first instance, which makes `findFirst()` throw (`:66`);
  - a null element in the `/swagger-resources` body, which makes `getLocation()` throw (`:70`).

  Each of them ends the source's whole cycle, so the services after the failing one are not refreshed. `Discovery` and the resource list cannot express these cases. The isolation that `SuccessfulFetchStored` and `CycleWritesMembers` state therefore holds only for the listing and fetch outcomes that are modelled.
- The network replies are functions of the URL (`Web.exchange`, `Web.getForObject`), so two calls to the same URL in one cycle get the same reply. This happens when two services share a first-instance URI, or when two resources share a `location`. In the source these are separate network calls, and their replies can differ.
- Of a `ServiceInstance`, only its URI is modelled. The springfox `SwaggerResource` entries carry only the three fields the source sets.
- Null keys or values, which make `ConcurrentHashMap` throw, are not modelled. Every key and value in the model is a string.
- Logging is not modelled. The `serviceName`/`serviceId` parameters of `getSwaggerDefinitionForAPI` and `getJSON` are used only for logging, so they are dropped. The `LocalDate.now()` timestamp is dropped as well.
- The HTTP endpoint in `ServiceDefinitionController.java` is not part of this model. It only maps a found definition to 200 and an absent one to 404, over `getSwaggerDefinition`.
- The Spring bean wiring in `SwaggerUIConfiguration.java` is not part of this model. It has no logic of its own.
