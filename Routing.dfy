/**
 * The router: owns the route array, sorted once at construction, and
 * resolves a pathname to the render result of the first matching route.
 */
module Routing {
  import opened Wrappers
  import opened Parts
  import opened Priority
  import opened Matching

  /** The index of the first route, in array order, whose pattern matches `pathname`. */
  function FirstMatch<T>(routes: seq<Route<T>>, pathname: string): (r: Option<nat>)
    ensures r.None? <==> forall k :: 0 <= k < |routes| ==> Matches(pathname, routes[k].path).NoMatch?
    ensures r.Some? ==> && r.value < |routes|
                        && Matches(pathname, routes[r.value].path).Match?
                        && forall k :: 0 <= k < r.value ==> Matches(pathname, routes[k].path).NoMatch?
  {
    if routes == [] then None
    else if Matches(pathname, routes[0].path).Match? then Some(0)
    else
      var later := FirstMatch(routes[1..], pathname);
      assert forall k :: 0 < k < |routes| ==> routes[k] == routes[1..][k - 1];
      match later
      case None => None
      case Some(k) => Some(k + 1)
  }

  /** Route `k` ranks no lower than any route of the table that matches `pathname`. */
  ghost predicate RanksHighest<T>(routes: seq<Route<T>>, pathname: string, k: nat)
    requires k < |routes|
  {
    forall j :: 0 <= j < |routes| && Matches(pathname, routes[j].path).Match? ==>
      ComparePaths(routes[k].path, routes[j].path) <= 0
  }

  /** In a sorted table the first match ranks at least as high as every other
      matching route: the most specific matching route wins. */
  lemma FirstMatchRanksHighest<T>(routes: seq<Route<T>>, pathname: string)
    requires Sorted(routes) && FirstMatch(routes, pathname).Some?
    ensures RanksHighest(routes, pathname, FirstMatch(routes, pathname).value)
  {
    var k := FirstMatch(routes, pathname).value;
    CompareReflexive(routes[k].path);
  }

  class Router<T> {
    const routes: array<Route<T>>

    /** The table is in priority order. */
    ghost predicate Valid()
      reads routes
    {
      Sorted(routes[..])
    }

    /** Takes the caller's array as its own and sorts it in place. */
    constructor (routes: array<Route<T>>)
      modifies routes
      ensures this.routes == routes && Valid()
      ensures multiset(routes[..]) == old(multiset(routes[..]))
    {
      SortRoutes(routes);
      this.routes := routes;
    }

    /** `renderOutlet`, with `window.location.pathname` passed in: the render
        result of the first matching route, whatever that result is, or
        `None` when no route matches. While the table is still sorted, the
        route rendered ranks no lower than any other route that matches. */
    method RenderOutlet(pathname: string) returns (content: Option<T>)
      ensures FirstMatch(routes[..], pathname).None? ==> content == None
      ensures FirstMatch(routes[..], pathname).Some? ==>
        var r := routes[FirstMatch(routes[..], pathname).value];
        content == r.render(Matches(pathname, r.path).params)
      ensures Valid() && FirstMatch(routes[..], pathname).Some? ==>
        RanksHighest(routes[..], pathname, FirstMatch(routes[..], pathname).value)
    {
      ghost var first := FirstMatch(routes[..], pathname);
      if Valid() && first.Some? {
        FirstMatchRanksHighest(routes[..], pathname);
      }
      var i := 0;
      while i < routes.Length
        invariant 0 <= i <= routes.Length
        invariant forall k :: 0 <= k < i ==> Matches(pathname, routes[k].path).NoMatch?
      {
        var r := routes[i];
        var m := Matches(pathname, r.path);
        if m.Match? {
          return r.render(m.params);
        }
        i := i + 1;
      }
      return None;
    }
  }
}
