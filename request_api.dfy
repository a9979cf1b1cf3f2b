/**
 * Endpoint discovery and request construction (src/utils/request-api.js).
 *
 * The REST index that `apiFetch` returns is an input value here: either
 * a list of namespaces (the root index) or an ordered table of routes,
 * keyed by route definition (a namespace index). Route keys always start
 * with `/`, so JavaScript keeps them in insertion order, which the
 * sequence of pairs records.
 */
module RequestApi {
  import opened Wrappers
  import opened RouteId

  /** The default of `requestEndpoints`' `path` argument. */
  const DefaultPath: string := "/wp/v2"

  /** The path `requestNamespaces` asks for: the root index. */
  const RootPath: string := "/"

  /** The method for which no body is sent. */
  const Get: string := "GET"

  /**
   * A route descriptor of the index: the methods it accepts, and every
   * other field (namespace, endpoints, argument schemas), which the plugin
   * passes on without reading. A descriptor without `methods` behaves as
   * one with an empty list.
   */
  datatype Route<D> = Route(methods: seq<string>, fields: D)

  /** A descriptor spread into a new object, with `id` and `def` set. */
  datatype Endpoint<D> = Endpoint(route: Route<D>, id: string, def: string)

  /** The two fields of the index response the plugin reads; each may be absent. */
  datatype IndexResponse<D> = IndexResponse(
    namespaces: Option<seq<string>>,
    routes: Option<seq<(string, Route<D>)>>)

  /** What `requestEndpoints` resolves to: namespace paths, or endpoints. */
  datatype Listing<D> =
    | NamespacePaths(paths: seq<string>)
    | Endpoints(endpoints: seq<Endpoint<D>>)

  /** lodash `difference( a, b )`: the elements of `a` that are not in `b`, in order. */
  function Difference(a: seq<string>, b: seq<string>): (r: seq<string>)
    ensures |r| <= |a|
    ensures forall x :: x in r <==> x in a && x !in b
  {
    if a == [] then []
    else if a[0] in b then Difference(a[1..], b)
    else [a[0]] + Difference(a[1..], b)
  }

  /** The object built for one route: the descriptor, its id and its key. */
  function ToEndpoint<D>(key: string, route: Route<D>, path: string): Endpoint<D> {
    Endpoint(route, ConvertId(key, path), key)
  }

  /** `values( mapValues( routes, ... ) )`: one endpoint per route, in route order. */
  function EndpointsOf<D>(routes: seq<(string, Route<D>)>, path: string): (r: seq<Endpoint<D>>)
    ensures |r| == |routes|
    ensures forall i :: 0 <= i < |r| ==>
      r[i].route == routes[i].1 && r[i].def == routes[i].0 && r[i].id == ConvertId(routes[i].0, path)
  {
    seq(|routes|, i requires 0 <= i < |routes| => ToEndpoint(routes[i].0, routes[i].1, path))
  }

  /** The filter callback: `!! id && !! difference( methods, filterMethods ).length`. */
  predicate IsListed<D>(e: Endpoint<D>, filterMethods: seq<string>) {
    e.id != "" && |Difference(e.route.methods, filterMethods)| > 0
  }

  /** An endpoint is listed iff its id is non-empty and the filter leaves one of its methods. */
  lemma IsListedIff<D>(e: Endpoint<D>, filterMethods: seq<string>)
    ensures IsListed(e, filterMethods) <==>
      e.id != "" && exists m :: m in e.route.methods && m !in filterMethods
  {
    var d := Difference(e.route.methods, filterMethods);
    if |d| > 0 {
      assert d[0] in d;
    }
    if e.id != "" && exists m :: m in e.route.methods && m !in filterMethods {
      var m :| m in e.route.methods && m !in filterMethods;
      assert m in d;
    }
  }

  /** lodash `filter` with the listing callback. */
  function FilterEndpoints<D>(es: seq<Endpoint<D>>, filterMethods: seq<string>): (r: seq<Endpoint<D>>)
    ensures |r| <= |es|
    ensures forall i :: 0 <= i < |r| ==> r[i] in es && IsListed(r[i], filterMethods)
    ensures forall i :: 0 <= i < |es| && IsListed(es[i], filterMethods) ==> es[i] in r
  {
    if es == [] then []
    else
      var rest := FilterEndpoints(es[1..], filterMethods);
      assert es == [es[0]] + es[1..];
      if IsListed(es[0], filterMethods) then [es[0]] + rest else rest
  }

  /** Filtering keeps order: filtering a concatenation concatenates the filtered halves. */
  lemma {:induction false} FilterEndpointsConcat<D>(a: seq<Endpoint<D>>, b: seq<Endpoint<D>>, filterMethods: seq<string>)
    ensures FilterEndpoints(a + b, filterMethods) == FilterEndpoints(a, filterMethods) + FilterEndpoints(b, filterMethods)
  {
    if a == [] {
      assert a + b == b;
    } else {
      assert (a + b)[0] == a[0];
      assert (a + b)[1..] == a[1..] + b;
      FilterEndpointsConcat(a[1..], b, filterMethods);
    }
  }

  /** The `routes` branch of `requestEndpoints`. */
  function RouteListing<D>(routes: seq<(string, Route<D>)>, path: string, filterMethods: seq<string>): seq<Endpoint<D>> {
    FilterEndpoints(EndpointsOf(routes, path), filterMethods)
  }

  /**
   * `requestEndpoints( { path, filterMethods } )` once the index for
   * `path` has arrived as `response`.
   */
  function RequestEndpoints<D>(path: Option<string>, filterMethods: Option<seq<string>>, response: IndexResponse<D>): (r: Listing<D>)
    ensures response.namespaces.Some? ==>
      && r.NamespacePaths?
      && |r.paths| == |response.namespaces.value|
      && forall i :: 0 <= i < |r.paths| ==> r.paths[i] == "/" + response.namespaces.value[i]
    ensures response.namespaces.None? ==> r.Endpoints?
    ensures response.namespaces.None? && response.routes.None? ==> r == Endpoints([])
    ensures response.namespaces.None? && response.routes.Some? ==>
      var all := EndpointsOf(response.routes.value, path.GetOr(DefaultPath));
      && (forall i :: 0 <= i < |r.endpoints| ==> r.endpoints[i] in all && IsListed(r.endpoints[i], filterMethods.GetOr([])))
      && (forall i :: 0 <= i < |all| && IsListed(all[i], filterMethods.GetOr([])) ==> all[i] in r.endpoints)
    ensures response.namespaces.None? && response.routes.Some? ==>
      r.endpoints == RouteListing(response.routes.value, path.GetOr(DefaultPath), filterMethods.GetOr([]))
  {
    match response.namespaces
    case Some(ns) =>
      NamespacePaths(seq(|ns|, i requires 0 <= i < |ns| => "/" + ns[i]))
    case None =>
      match response.routes
      case Some(routes) => Endpoints(RouteListing(routes, path.GetOr(DefaultPath), filterMethods.GetOr([])))
      case None => Endpoints([])
  }

  /** Listed endpoints come in the order of their routes. */
  lemma RouteListingConcat<D>(a: seq<(string, Route<D>)>, b: seq<(string, Route<D>)>, path: string, filterMethods: seq<string>)
    ensures RouteListing(a + b, path, filterMethods) == RouteListing(a, path, filterMethods) + RouteListing(b, path, filterMethods)
  {
    assert EndpointsOf(a + b, path) == EndpointsOf(a, path) + EndpointsOf(b, path);
    FilterEndpointsConcat(EndpointsOf(a, path), EndpointsOf(b, path), filterMethods);
  }

  /** The namespace's own index route (key equal to `path`) is never listed. */
  lemma IndexRouteNotListed<D>(path: string, route: Route<D>, filterMethods: seq<string>)
    ensures !IsListed(ToEndpoint(path, route, path), filterMethods)
  {
  }

  /**
   * An option of the namespace select control: `{ label, value }`. The
   * `label` field is called `caption` here, `label` being a Dafny keyword.
   */
  datatype SelectOption<T> = SelectOption(caption: T, value: T)

  /** `map( xs, x => ( { label: x, value: x } ) )` */
  function ToOptions<T>(xs: seq<T>): (r: seq<SelectOption<T>>)
    ensures |r| == |xs|
    ensures forall i :: 0 <= i < |r| ==> r[i].caption == xs[i] && r[i].value == xs[i]
  {
    if xs == [] then [] else [SelectOption(xs[0], xs[0])] + ToOptions(xs[1..])
  }

  /** What `requestNamespaces` resolves to, for either kind of listing. */
  datatype Choices<D> =
    | PathChoices(pathOptions: seq<SelectOption<string>>)
    | EndpointChoices(endpointOptions: seq<SelectOption<Endpoint<D>>>)

  /** `requestNamespaces`: the root index listed, each entry made a select option. */
  function RequestNamespaces<D>(response: IndexResponse<D>): (r: Choices<D>)
    ensures response.namespaces.Some? ==>
      && r.PathChoices?
      && |r.pathOptions| == |response.namespaces.value|
      && forall i :: 0 <= i < |r.pathOptions| ==>
        r.pathOptions[i].caption == "/" + response.namespaces.value[i] && r.pathOptions[i].value == r.pathOptions[i].caption
  {
    match RequestEndpoints(Some(RootPath), None, response)
    case NamespacePaths(paths) => PathChoices(ToOptions(paths))
    case Endpoints(endpoints) => EndpointChoices(ToOptions(endpoints))
  }

  /**
   * The object `requestEndpoint` hands to `apiFetch`: `{ path, method, data }`.
   * The `method` field is called `verb` here, `method` being a Dafny keyword.
   */
  datatype RequestProps<A> = RequestProps(path: string, verb: string, data: Option<A>)

  /** `requestEndpoint( { path, method, endpointArguments } )`, before the fetch. */
  function EndpointRequest<A>(path: string, verb: string, endpointArguments: A): (r: RequestProps<A>)
    ensures r.path == path && r.verb == verb
    ensures r.data.Some? <==> verb != Get
    ensures r.data.Some? ==> r.data.value == endpointArguments
  {
    RequestProps(path, verb, if verb != Get then Some(endpointArguments) else None)
  }
}
