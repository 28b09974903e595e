/**
 * The front end's two-view router: the `currentRoute` store, `navigateTo`, which sets it and
 * pushes a browser history entry, the `popstate` listener, which restores the route kept in
 * the entry's state, and the initial route chosen from the address at load time.
 *
 * The browser's session history is part of the state: its entries (the `state` object and
 * the path of each) and the index of the current one. Going back or forward moves the index
 * and fires `popstate` with the state of the entry reached.
 */
module ViewRouter {
  import opened Wrappers

  datatype Route = Home | Explorer

  function RouteName(r: Route): string {
    match r
    case Home => "home"
    case Explorer => "explorer"
  }

  /** The address `navigateTo` pushes: `/` for home, `/<route>` otherwise. */
  function PathOf(r: Route): (p: string)
    ensures |p| > 0 && p[0] == '/'
  {
    if r == Home then "/" else "/" + RouteName(r)
  }

  /** The route chosen when the page loads at `path`. */
  function InitialRoute(path: string): Route {
    if path == "/explorer" then Explorer else Home
  }

  /** Loading the page at the address of a route shows that route again. */
  lemma ReloadKeepsRoute(r: Route)
    ensures InitialRoute(PathOf(r)) == r
  {
  }

  /** A session-history entry: the state object (`{ route }` or none) and its path. */
  datatype Entry = Entry(state: Option<Route>, path: string)

  /** `event.state?.route || 'home'`. */
  function RouteOfState(state: Option<Route>): (r: Route)
    ensures state.Some? ==> r == state.value
    ensures state.None? ==> r == Home
  {
    state.GetOr(Home)
  }

  class Router {
    var route: Route
    var entries: seq<Entry>
    var position: nat

    /**
     * The first entry is the page load's, with no state; every later entry was pushed by
     * `navigateTo`, so it holds a route and that route's address. Away from the first entry
     * the shown route is the current entry's; on it, the route is the initial one or, after
     * coming back to it, home.
     */
    ghost predicate Valid()
      reads this
    {
      && position < |entries|
      && entries[0].state.None?
      && (forall i :: 0 < i < |entries| ==> entries[i].state.Some? && entries[i].path == PathOf(entries[i].state.value))
      && (position > 0 ==> route == entries[position].state.value)
      && (position == 0 ==> route == InitialRoute(entries[0].path) || route == Home)
    }

    /** The page loads at `path`: one entry, and the route read from the address. */
    constructor (path: string)
      ensures Valid()
      ensures route == InitialRoute(path)
      ensures entries == [Entry(None, path)] && position == 0
    {
      route := InitialRoute(path);
      entries := [Entry(None, path)];
      position := 0;
    }

    /**
     * `navigateTo(r)`: the route becomes `r`, and `pushState` drops the entries after the
     * current one and appends `r`'s entry.
     */
    method NavigateTo(r: Route)
      requires Valid()
      modifies this
      ensures Valid()
      ensures route == r
      ensures entries == old(entries[..position + 1]) + [Entry(Some(r), PathOf(r))]
      ensures position == old(position) + 1
    {
      route := r;
      entries := entries[..position + 1] + [Entry(Some(r), PathOf(r))];
      position := position + 1;
    }

    /** The entry reached fires `popstate`, and the listener sets the route from its state. */
    method PopState()
      requires position < |entries|
      modifies this`route
      ensures route == RouteOfState(entries[position].state)
    {
      route := RouteOfState(entries[position].state);
    }

    /** The back button: when there is an earlier entry, move to it and fire `popstate`. */
    method Back()
      requires Valid()
      modifies this
      ensures Valid()
      ensures entries == old(entries)
      ensures old(position) == 0 ==> position == 0 && route == old(route)
      ensures old(position) > 0 ==> position == old(position) - 1 && route == RouteOfState(entries[position].state)
    {
      if position > 0 {
        position := position - 1;
        PopState();
      }
    }

    /** The forward button: when there is a later entry, move to it and fire `popstate`. */
    method Forward()
      requires Valid()
      modifies this
      ensures Valid()
      ensures entries == old(entries)
      ensures old(position) + 1 == |entries| ==> position == old(position) && route == old(route)
      ensures old(position) + 1 < |entries| ==> position == old(position) + 1 && route == entries[position].state.value
    {
      if position + 1 < |entries| {
        position := position + 1;
        PopState();
      }
    }
  }

  /** Away from the page-load entry, the shown route is the one the address names. */
  lemma ViewMatchesAddress(router: Router)
    requires router.Valid() && router.position > 0
    ensures InitialRoute(router.entries[router.position].path) == router.route
  {
    ReloadKeepsRoute(router.route);
  }

  /**
   * Loaded at `/explorer`, a navigation home and the back button show home although the
   * address is `/explorer` again: the page-load entry carries no state, and the listener
   * falls back to home.
   */
  method BackToStartShowsHome() returns (shown: Route, address: string)
    ensures address == "/explorer" && shown == Home && InitialRoute(address) == Explorer
  {
    var router := new Router("/explorer");
    router.NavigateTo(Home);
    router.Back();
    shown := router.route;
    address := router.entries[router.position].path;
  }
}
