/**
 * The controller cache of `Router` in Sources/zenith/navigation/Router.swift.
 *
 * A route (a `RouteOption`) has an `identifier` and a `controller` property.
 * The protocol only declares that property; the model assumes, as the
 * protocol's documented example does, that every read builds a new view
 * controller. The router keeps the controllers it has built in `routeCache`,
 * keyed by route identifier, when the `cacheRoutes` flag given to `init` is
 * on. Navigation itself (pushing, presenting, replacing the window's root) is
 * toolkit work and is not modelled.
 */
module Routing {

  /** A view controller instance; only its identity and the route it was built for matter. */
  class Controller {
    const route: Route

    constructor (route: Route)
      ensures this.route == route
    {
      this.route := route;
    }
  }

  /** A `RouteOption` value, reduced to its identifier. */
  datatype Route = Route(identifier: string)

  /** `route.controller`, assumed to build a new controller for the route on every read. */
  method BuildController(route: Route) returns (c: Controller)
    ensures fresh(c)
    ensures c.route == route
  {
    c := new Controller(route);
  }

  class Router {
    var routeCache: map<string, Controller>
    const cacheRoutes: bool

    /** Every cached controller was built for a route with the identifier it is cached under. */
    ghost predicate Valid()
      reads this
    {
      forall id :: id in routeCache ==> routeCache[id].route.identifier == id
    }

    /** `init(_ cacheRoutes:)`: the flag is fixed here (it is a `const`) and the cache starts empty. */
    constructor (cacheRoutes: bool)
      ensures Valid()
      ensures this.cacheRoutes == cacheRoutes
      ensures routeCache == map[]
    {
      this.cacheRoutes := cacheRoutes;
      routeCache := map[];
    }

    /**
     * `fetchController(for:)`. With caching off it returns a new controller
     * and leaves the cache alone. With caching on it returns the controller
     * cached under the route's identifier, or builds one, caches it and
     * returns it. Existing entries are never replaced or removed.
     */
    method FetchController(route: Route) returns (c: Controller)
      requires Valid()
      modifies this
      ensures Valid()
      ensures !cacheRoutes ==> fresh(c) && c.route == route && routeCache == old(routeCache)
      ensures cacheRoutes && route.identifier in old(routeCache) ==>
        c == old(routeCache)[route.identifier] && routeCache == old(routeCache)
      ensures cacheRoutes && route.identifier !in old(routeCache) ==>
        fresh(c) && c.route == route && routeCache == old(routeCache)[route.identifier := c]
      ensures c.route.identifier == route.identifier
      ensures forall id :: id in old(routeCache) ==> id in routeCache && routeCache[id] == old(routeCache)[id]
      ensures cacheRoutes ==> route.identifier in routeCache && routeCache[route.identifier] == c
    {
      if !cacheRoutes {
        c := BuildController(route);
        return;
      }
      if route.identifier in routeCache {
        c := routeCache[route.identifier];
      } else {
        c := BuildController(route);
        routeCache := routeCache[route.identifier := c];
      }
    }

    /**
     * With caching on, two fetches of the same route in a row return the same
     * controller, and the cache afterwards holds that controller.
     */
    method FetchTwice(route: Route) returns (first: Controller, second: Controller)
      requires Valid() && cacheRoutes
      modifies this
      ensures Valid()
      ensures first == second
      ensures route.identifier in routeCache && routeCache[route.identifier] == first
      ensures routeCache.Keys == old(routeCache).Keys + {route.identifier}
    {
      first := FetchController(route);
      second := FetchController(route);
    }
  }
}
