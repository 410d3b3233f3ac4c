/** `PrometheusProviderRegistry` and the service search that providers share
    (`PrometheusProvider.getFirstNamespacedService`). The Kubernetes client is
    a parameter: a function from a label selector to the outcome of
    `listServiceForAllNamespaces` with that selector. */
module PrometheusRegistry {
  import opened Wrappers
  import OM = OrderedMaps

  /** The fields of a provider the registry and the search read. */
  datatype Provider = Provider(id: string, name: string, rateAccuracy: string, isConfigurable: bool)

  type Registry = OM.OrderedMap<string, Provider>

  datatype RegistryError =
    | AlreadyRegistered   // "Provider already registered under that kind"
    | UnknownProvider     // "Unknown Prometheus provider"

  /** `registerProvider(provider)`: a second provider under the same id is
      refused and the map is left as it was. */
  function RegisterProvider(reg: Registry, p: Provider): (r: Result<Registry, RegistryError>)
    requires reg.Valid()
    ensures r.Err? <==> p.id in reg.items
    ensures r.Err? ==> r.error == AlreadyRegistered
    ensures r.Ok? ==> && r.value.Valid()
                      && r.value.items == reg.items[p.id := p]
                      && r.value.keys == reg.keys + [p.id]
  {
    if p.id in reg.items then Err(AlreadyRegistered) else Ok(OM.Set(reg, p.id, p))
  }

  /** `getByKind(kind)`: the provider registered under that id. */
  function GetByKind(reg: Registry, kind: string): (r: Result<Provider, RegistryError>)
    ensures r.Ok? <==> kind in reg.items
    ensures r.Ok? ==> r.value == reg.items[kind]
    ensures r.Err? ==> r.error == UnknownProvider
  {
    if kind in reg.items then Ok(reg.items[kind]) else Err(UnknownProvider)
  }

  /** Registering a sequence of providers, one `registerProvider` call after
      another; a refused registration throws and ends the sequence. */
  function RegisterAll(reg: Registry, ps: seq<Provider>): (r: Result<Registry, RegistryError>)
    requires reg.Valid()
    ensures r.Ok? ==> r.value.Valid()
    decreases |ps|
  {
    if ps == [] then Ok(reg)
    else
      match RegisterProvider(reg, ps[0])
      case Err(e) => Err(e)
      case Ok(reg1) => RegisterAll(reg1, ps[1..])
  }

  /** A registered provider is what `getByKind` returns for its id. */
  lemma RegisterThenGet(reg: Registry, p: Provider, kind: string)
    requires reg.Valid()
    requires RegisterProvider(reg, p).Ok?
    ensures GetByKind(RegisterProvider(reg, p).value, p.id) == Ok(p)
    ensures kind != p.id ==> GetByKind(RegisterProvider(reg, p).value, kind) == GetByKind(reg, kind)
  {
  }

  /** Once registered, a provider is never replaced: after any further
      registrations, accepted or not, `getByKind` still returns it. */
  lemma {:induction false} NeverReplaced(reg: Registry, ps: seq<Provider>, kind: string)
    requires reg.Valid()
    requires kind in reg.items
    requires RegisterAll(reg, ps).Ok?
    ensures GetByKind(RegisterAll(reg, ps).value, kind) == GetByKind(reg, kind)
    decreases |ps|
  {
    if ps != [] {
      var reg1 := RegisterProvider(reg, ps[0]).value;
      NeverReplaced(reg1, ps[1..], kind);
    }
  }

  /** A service as `listServiceForAllNamespaces` lists it. */
  datatype Service = Service(namespace: string, name: string, ports: seq<int>)

  /** The outcome of listing services with one selector. */
  datatype Listing = Listed(items: seq<Service>) | ListFailed(message: string)

  /** `PrometheusService`: the service found, tagged with the provider id. */
  datatype PrometheusService = PrometheusService(id: string, namespace: string, service: string, port: int)

  datatype SearchError =
    | FailedToList(message: string)   // "Failed to list services for Prometheus<name> in all namespaces: <message>"
    | NoServiceFound(message: string) // "No service found for Prometheus<name> from any namespace"
    | HandlerFailed                   // the `catch` block itself throws: the error has no `response`

  function FailedToListMessage(p: Provider, cause: string): string {
    "Failed to list services for Prometheus" + p.name + " in all namespaces: " + cause
  }

  function NoServiceMessage(p: Provider): string {
    "No service found for Prometheus" + p.name + " from any namespace"
  }

  /** The selectors before position `i` all list no service. */
  predicate EmptyBefore(selectors: seq<string>, list: string -> Listing, i: int)
    requires 0 <= i <= |selectors|
  {
    forall j :: 0 <= j < i ==> list(selectors[j]) == Listed([])
  }

  /** Selector `i` is the first to list a service, and `svc` is that
      service's first port, tagged with the provider id. */
  predicate FoundAt(p: Provider, list: string -> Listing, selectors: seq<string>, i: int, svc: PrometheusService) {
    && 0 <= i < |selectors| && EmptyBefore(selectors, list, i)
    && list(selectors[i]).Listed? && list(selectors[i]).items != []
    && var s := list(selectors[i]).items[0];
       s.ports != [] && svc == PrometheusService(p.id, s.namespace, s.name, s.ports[0])
  }

  /** Looking past a first selector that lists nothing shifts every position
      by one. */
  lemma EmptyBeforeShift(selectors: seq<string>, list: string -> Listing, i: int)
    requires selectors != [] && 0 <= i < |selectors|
    ensures EmptyBefore(selectors, list, i + 1) <==> list(selectors[0]) == Listed([]) && EmptyBefore(selectors[1..], list, i)
  {
    assert forall j :: 0 <= j < i ==> selectors[1..][j] == selectors[j + 1];
    if list(selectors[0]) == Listed([]) && EmptyBefore(selectors[1..], list, i) {
      forall j | 0 <= j < i + 1
        ensures list(selectors[j]) == Listed([])
      {
        if j > 0 {
          assert selectors[j] == selectors[1..][j - 1];
        }
      }
    }
  }

  lemma FoundAtShift(p: Provider, list: string -> Listing, selectors: seq<string>, i: int, svc: PrometheusService)
    requires selectors != [] && list(selectors[0]) == Listed([])
    requires FoundAt(p, list, selectors[1..], i, svc)
    ensures FoundAt(p, list, selectors, i + 1, svc)
  {
    EmptyBeforeShift(selectors, list, i);
    assert selectors[i + 1] == selectors[1..][i];
  }

  /** `getFirstNamespacedService(client, ...selectors)`. The first service of
      the first selector that lists one is returned; a listing that fails is
      rethrown with the provider's name. Reading `spec.ports[0].port` from a
      service without ports throws a `TypeError` inside the `try`, and the
      `catch` then fails on `error.response.body`. */
  function GetFirstNamespacedService(p: Provider, list: string -> Listing, selectors: seq<string>): (r: Result<PrometheusService, SearchError>)
    ensures r == Err(NoServiceFound(NoServiceMessage(p))) <==> EmptyBefore(selectors, list, |selectors|)
    ensures r.Ok? ==> exists i :: FoundAt(p, list, selectors, i, r.value)
    ensures r.Ok? ==> r.value.id == p.id
    decreases |selectors|
  {
    if selectors == [] then Err(NoServiceFound(NoServiceMessage(p)))
    else
      EmptyBeforeShift(selectors, list, |selectors| - 1);
      match list(selectors[0])
      case ListFailed(msg) => Err(FailedToList(FailedToListMessage(p, msg)))
      case Listed(items) =>
        if items == [] then
          var r := GetFirstNamespacedService(p, list, selectors[1..]);
          assert r.Ok? ==> exists i :: FoundAt(p, list, selectors, i, r.value) by {
            if r.Ok? {
              var i :| FoundAt(p, list, selectors[1..], i, r.value);
              FoundAtShift(p, list, selectors, i, r.value);
            }
          }
          r
        else
          var s := items[0];
          if s.ports == [] then Err(HandlerFailed)
          else
            var svc := PrometheusService(p.id, s.namespace, s.name, s.ports[0]);
            assert FoundAt(p, list, selectors, 0, svc);
            Ok(svc)
  }

  /** Once every selector before `i` lists nothing, selector `i` decides the
      search: a failed listing is rethrown with the provider's name, a first
      service without ports fails in the handler, a first service with ports
      is the answer, and the empty listing moves on. */
  lemma {:induction false} SelectorDecides(p: Provider, list: string -> Listing, selectors: seq<string>, i: int)
    requires 0 <= i < |selectors| && EmptyBefore(selectors, list, i)
    ensures var r := GetFirstNamespacedService(p, list, selectors);
            list(selectors[i]).ListFailed? ==> r == Err(FailedToList(FailedToListMessage(p, list(selectors[i]).message)))
    ensures var r := GetFirstNamespacedService(p, list, selectors);
            list(selectors[i]).Listed? && list(selectors[i]).items != [] && list(selectors[i]).items[0].ports == [] ==>
              r == Err(HandlerFailed)
    ensures forall svc :: FoundAt(p, list, selectors, i, svc) ==> GetFirstNamespacedService(p, list, selectors) == Ok(svc)
    ensures list(selectors[i]) == Listed([]) ==>
              GetFirstNamespacedService(p, list, selectors) == GetFirstNamespacedService(p, list, selectors[i + 1..])
    decreases i
  {
    if i > 0 {
      var tail := selectors[1..];
      assert forall j :: 0 <= j < |tail| ==> tail[j] == selectors[j + 1];
      assert list(selectors[0]) == Listed([]);
      assert tail[i - 1..] == selectors[i..];
      assert tail[i..] == selectors[i + 1..];
      SelectorDecides(p, list, tail, i - 1);
    }
  }

  /** The search stops at the first selector that lists a service: later
      selectors are never consulted, so changing what they list changes
      nothing. */
  lemma {:induction false} SearchStopsAtFirstHit(p: Provider, list1: string -> Listing, list2: string -> Listing,
                                                 selectors: seq<string>, i: int)
    requires 0 <= i < |selectors|
    requires forall j :: 0 <= j <= i ==> list1(selectors[j]) == list2(selectors[j])
    requires EmptyBefore(selectors, list1, i)
    requires list1(selectors[i]).Listed? && list1(selectors[i]).items != []
    ensures GetFirstNamespacedService(p, list1, selectors) == GetFirstNamespacedService(p, list2, selectors)
    decreases i
  {
    if i > 0 {
      var tail := selectors[1..];
      assert forall j :: 0 <= j < |tail| ==> tail[j] == selectors[j + 1];
      assert list1(selectors[0]) == Listed([]);
      SearchStopsAtFirstHit(p, list1, list2, tail, i - 1);
    }
  }
}
