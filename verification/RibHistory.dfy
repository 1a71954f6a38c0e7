/** What a sequence of served updates leaves in the RIB, read off the updates alone. */
module RibHistory {
  import opened Options
  import opened RibEntries
  import opened RibTrees
  import opened FibSpec
  import opened FibDeltas
  import opened FibAgreement
  import opened FibReplaced
  import opened FibUpdaters
  import opened FibCommit
  import opened RibSystem
  import opened RibDaemon

  /** The route of a list with the face and origin of `x`. */
  function RouteLike(routes: seq<Route>, x: Route): Option<Route> {
    var i := FindRoute(routes, x);
    if i < |routes| then Some(routes[i]) else None
  }

  function RouteAt(rib: RibTable, n: Name, x: Route): Option<Route> {
    if n in rib then RouteLike(rib[n].routes, x) else None
  }

  predicate About(u: RibUpdate, n: Name, x: Route) { u.name == n && SameKey(u.route, x) }

  /** The route that the latest update about a name, face and origin leaves. */
  function LatestRoute(us: seq<RibUpdate>, n: Name, x: Route): Option<Route> {
    if us == [] then None
    else
      var u := us[|us| - 1];
      if !About(u, n, x) then LatestRoute(us[..|us| - 1], n, x)
      else if u.action == Register then Some(u.route)
      else None
  }

  lemma LikeAppended(routes: seq<Route>, r: Route, x: Route)
    requires FindRoute(routes, r) == |routes|
    ensures RouteLike(routes + [r], x) == if SameKey(r, x) then Some(r) else RouteLike(routes, x)
  {
    var i := FindRoute(routes + [r], x);
    assert forall j :: 0 <= j < |routes| ==> (routes + [r])[j] == routes[j];
    assert (routes + [r])[|routes|] == r;
    assert i < |routes| ==> FindRoute(routes, x) == i;
  }

  lemma LikeReplaced(routes: seq<Route>, r: Route, x: Route)
    requires FindRoute(routes, r) < |routes|
    ensures RouteLike(routes[FindRoute(routes, r) := r], x) == if SameKey(r, x) then Some(r) else RouteLike(routes, x)
  {
    var k := FindRoute(routes, r);
    assert forall j :: 0 <= j < |routes| ==> (SameKey(routes[k := r][j], x) <==> SameKey(routes[j], x));
    assert FindRoute(routes[k := r], x) == FindRoute(routes, x);
  }

  lemma FoundAt(routes: seq<Route>, x: Route, i: nat)
    requires i <= |routes| && (forall j :: 0 <= j < i ==> !SameKey(routes[j], x))
    requires i < |routes| ==> SameKey(routes[i], x)
    ensures FindRoute(routes, x) == i
  {
  }

  /** The list without its `i`-th element, of which `k` is another one or the end. */
  lemma Shifted(routes: seq<Route>, rest: seq<Route>, i: nat, k: nat, x: Route)
    requires i < |routes| && rest == routes[..i] + routes[i + 1..]
    requires k <= |routes| && k != i && forall j :: 0 <= j < k ==> j == i || !SameKey(routes[j], x)
    ensures var m := if k < i then k else k - 1;
            && (forall j :: 0 <= j < m ==> !SameKey(rest[j], x))
            && (if k < |routes| then m < |rest| && rest[m] == routes[k] else m == |rest|)
  {
    var m := if k < i then k else k - 1;
    forall j | 0 <= j < m ensures !SameKey(rest[j], x) {
      assert rest[j] == routes[if j < i then j else j + 1];
    }
  }

  lemma LikeErased(routes: seq<Route>, r: Route, x: Route, i: nat)
    requires UniqueRoutes(routes) && i < |routes| && SameKey(routes[i], r)
    ensures RouteLike(routes[..i] + routes[i + 1..], x) == if SameKey(r, x) then None else RouteLike(routes, x)
  {
    var rest := routes[..i] + routes[i + 1..];
    if SameKey(r, x) {
      Shifted(routes, rest, i, |routes|, x);
      FoundAt(rest, x, |rest|);
    } else {
      var k := FindRoute(routes, x);
      Shifted(routes, rest, i, k, x);
      FoundAt(rest, x, if k < i then k else k - 1);
    }
  }

  /** One update that went well. */
  lemma RouteAfter(rib: RibTable, u: RibUpdate, after: RibTable, n: Name, x: Route)
    requires EntriesExact(rib) && MayFollow(rib, u, after)
    ensures RouteAt(after, n, x) ==
            if !About(u, n, x) then RouteAt(rib, n, x) else if u.action == Register then Some(u.route) else None
  {
    if u.name != n {
      assert n in rib <==> n in after;
    } else if u.action == Register {
      if n !in rib {
        LikeAppended([], u.route, x);
        assert [] + [u.route] == [u.route];
      } else if !Known(rib, n, u.route) {
        LikeAppended(rib[n].routes, u.route, x);
      } else {
        LikeReplaced(rib[n].routes, u.route, x);
      }
    } else if Known(rib, n, u.route) {
      ErasedRoute(rib, u, after, x);
    }
  }

  lemma ErasedRoute(rib: RibTable, u: RibUpdate, after: RibTable, x: Route)
    requires EntriesExact(rib) && Known(rib, u.name, u.route)
    requires RouteErased(rib, after, u.name, Existing(rib, u.name, u.route))
    ensures RouteAt(after, u.name, x) == if SameKey(u.route, x) then None else RouteAt(rib, u.name, x)
  {
    var routes, y := rib[u.name].routes, Existing(rib, u.name, u.route);
    assert EntryExact(rib[u.name]) && SameKey(y, u.route);
    LikeErased(routes, y, x, FindRoute(routes, y));
  }

  lemma CoursePrefix(us: seq<RibUpdate>, rss: seq<seq<(nat, Response)>>, tables: seq<RibTable>, fibs: seq<Fib>, k: nat)
    requires |rss| == |us| && k <= |us| && Course(us, rss, tables, fibs) && AllConsistent(us, tables, fibs)
    ensures Course(us[..k], rss[..k], tables[..k + 1], fibs[..k + 1])
    ensures AllConsistent(us[..k], tables[..k + 1], fibs[..k + 1])
  {
    forall i | 0 <= i < k
      ensures Served(tables[..k + 1][i], fibs[..k + 1][i], us[..k][i], rss[..k][i], tables[..k + 1][i + 1],
                     fibs[..k + 1][i + 1])
    {
      assert Served(tables[i], fibs[i], us[i], rss[i], tables[i + 1], fibs[i + 1]);
    }
    forall i | 0 <= i <= k ensures Consistent(tables[..k + 1][i], fibs[..k + 1][i], GoneIn(us[..k][..i])) {
      assert us[..k][..i] == us[..i];
    }
  }

  /** In a course of updates served from an empty RIB the table holds in the end, for every
      name, face and origin, exactly the route that the latest update about it left. */
  lemma {:induction false} TableOfCourse(us: seq<RibUpdate>, rss: seq<seq<(nat, Response)>>, tables: seq<RibTable>,
                                         fibs: seq<Fib>, n: Name, x: Route)
    requires |rss| == |us| && Course(us, rss, tables, fibs) && AllConsistent(us, tables, fibs)
    ensures RouteAt(tables[|us|], n, x) == LatestRoute(us, n, x)
  {
    if us != [] {
      var k := |us| - 1;
      assert Served(tables[k], fibs[k], us[k], rss[k], tables[k + 1], fibs[k + 1]);
      assert Consistent(tables[k], fibs[k], GoneIn(us[..k]));
      CoursePrefix(us, rss, tables, fibs, k);
      TableOfCourse(us[..k], rss[..k], tables[..k + 1], fibs[..k + 1], n, x);
      RouteAfter(tables[k], us[k], tables[k + 1], n, x);
    }
  }

  /** And the FIB then reaches every name with routes on a face that has not been destroyed,
      at the lowest cost of the routes that were last registered there. */
  lemma FibOfCourse(us: seq<RibUpdate>, rss: seq<seq<(nat, Response)>>, tables: seq<RibTable>, fibs: seq<Fib>,
                    n: Name, x: Route)
    requires |rss| == |us| && Course(us, rss, tables, fibs) && AllConsistent(us, tables, fibs)
    requires LatestRoute(us, n, x).Some? && x.faceId !in GoneIn(us)
    ensures var hop := Lookup(fibs[|us|], n, x.faceId);
            && hop.Some? && hop.value <= LatestRoute(us, n, x).value.cost
            && exists y: Route :: y.faceId == x.faceId && LatestRoute(us, n, y) == Some(y) && y.cost == hop.value
  {
    var rib := tables[|us|];
    assert us[..|us|] == us;
    assert Consistent(rib, fibs[|us|], GoneIn(us));
    TableOfCourse(us, rss, tables, fibs, n, x);
    assert EntryExact(rib[n]);
    var routes := rib[n].routes;
    var i := FindRoute(routes, x);
    assert routes[i] in routes && routes[i].faceId == x.faceId;
    var y := Cheapest(routes, x.faceId, false).value;
    assert y in routes && y.faceId == x.faceId;
    OwnKey(routes, y);
    TableOfCourse(us, rss, tables, fibs, n, y);
  }

  lemma OwnKey(routes: seq<Route>, y: Route)
    requires UniqueRoutes(routes) && y in routes
    ensures RouteLike(routes, y) == Some(y)
  {
    var j :| 0 <= j < |routes| && routes[j] == y;
    assert FindRoute(routes, y) == j;
  }
}
