/** RIB entries: the routes of one name prefix, the routes it has inherited, the
    capture counter and the tree links (`RibEntry` in the RIB daemon). */
module RibEntries {
  import opened Options

  type Name = seq<string>
  type FaceId = nat

  /** The flag word of a route is modelled by the two flags the daemon reads. */
  datatype Route = Route(faceId: FaceId, origin: nat, cost: nat, childInherit: bool, capture: bool)

  const COUNTER_MAX: nat := 0xFFFF_FFFF_FFFF_FFFF

  datatype RibEntry = RibEntry(
    parent: Option<Name>,
    children: seq<Name>,
    routes: seq<Route>,
    inherited: seq<Route>,
    nCapture: nat)
  {
    predicate HasCapture() { nCapture > 0 }

    predicate HasFaceId(f: FaceId) { HasRouteOn(routes, f, false) }

    predicate HasInherited(f: FaceId) { HasRouteOn(inherited, f, false) }
  }

  predicate Matches(r: Route, f: FaceId, inheritOnly: bool) {
    r.faceId == f && (inheritOnly ==> r.childInherit)
  }

  predicate HasRouteOn(routes: seq<Route>, f: FaceId, inheritOnly: bool) {
    exists r :: r in routes && Matches(r, f, inheritOnly)
  }

  /** Some route of the list carries the capture flag. */
  predicate Captures(routes: seq<Route>) {
    exists r :: r in routes && r.capture
  }

  predicate SameKey(a: Route, b: Route) { a.faceId == b.faceId && a.origin == b.origin }

  /** At most one route per (face, origin). */
  ghost predicate UniqueRoutes(routes: seq<Route>) {
    forall i, j :: 0 <= i < j < |routes| ==> !SameKey(routes[i], routes[j])
  }

  // ---------------------------------------------------------------- lowest cost

  /** The cheapest route on a face (the earliest one among equals). */
  function Cheapest(routes: seq<Route>, f: FaceId, inheritOnly: bool): (c: Option<Route>)
    ensures c.Some? <==> HasRouteOn(routes, f, inheritOnly)
    ensures c.Some? ==> c.value in routes && Matches(c.value, f, inheritOnly)
    ensures c.Some? ==> forall r :: r in routes && Matches(r, f, inheritOnly) ==> c.value.cost <= r.cost
  {
    if routes == [] then None
    else
      var init, last := routes[..|routes| - 1], routes[|routes| - 1];
      var c := Cheapest(init, f, inheritOnly);
      assert forall r :: r in routes <==> r in init || r == last;
      if Matches(last, f, inheritOnly) && (c.None? || last.cost < c.value.cost) then Some(last) else c
  }

  function CheapestCost(routes: seq<Route>, f: FaceId, inheritOnly: bool): (c: Option<nat>)
    ensures c.Some? <==> HasRouteOn(routes, f, inheritOnly)
  {
    var c := Cheapest(routes, f, inheritOnly);
    if c.Some? then Some(c.value.cost) else None
  }

  /** The scan shared by `getRouteWithLowestCostByFaceId` and
      `getRouteWithLowestCostAndChildInheritByFaceId`. */
  method LowestCostRoute(routes: seq<Route>, f: FaceId, inheritOnly: bool) returns (candidate: Option<Route>)
    ensures candidate == Cheapest(routes, f, inheritOnly)
    ensures candidate.None? ==> forall r :: r in routes ==> !Matches(r, f, inheritOnly)
    ensures candidate.Some? ==> candidate.value in routes && Matches(candidate.value, f, inheritOnly)
    ensures candidate.Some? ==>
              forall r :: r in routes && Matches(r, f, inheritOnly) ==> candidate.value.cost <= r.cost
  {
    candidate := None;
    for i := 0 to |routes|
      invariant candidate == Cheapest(routes[..i], f, inheritOnly)
    {
      assert routes[..i + 1][..i] == routes[..i];
      if Matches(routes[i], f, inheritOnly) {
        if candidate == None {
          candidate := Some(routes[i]);
        } else if routes[i].cost < candidate.value.cost {
          candidate := Some(routes[i]);
        }
      }
    }
    assert routes[..|routes|] == routes;
  }

  /** `s` is the index of a route that has exactly one route on the face before it in
      some order by cost; `b` is the index of that one. */
  ghost predicate SecondCheapestAt(routes: seq<Route>, f: FaceId, b: nat, s: nat) {
    && b < |routes| && s < |routes| && b != s
    && routes[b].faceId == f && routes[s].faceId == f && routes[b].cost <= routes[s].cost
    && forall i :: 0 <= i < |routes| && i != b && routes[i].faceId == f ==> routes[s].cost <= routes[i].cost
  }

  /** What the second-cheapest query may answer; which of equally cheap routes is arbitrary. */
  ghost predicate IsSecond(routes: seq<Route>, f: FaceId, next: Option<Route>) {
    match next
    case None => forall i, j :: 0 <= i < j < |routes| ==> !(routes[i].faceId == f && routes[j].faceId == f)
    case Some(r) => exists b: nat, s: nat :: SecondCheapestAt(routes, f, b, s) && r == routes[s]
  }

  /** `getRouteWithSecondLowestCostByFaceId`. The source selects it with
      `nth_element` on a copy; here one pass keeps the two cheapest. */
  method SecondLowestCostRoute(routes: seq<Route>, f: FaceId) returns (second: Option<Route>)
    ensures IsSecond(routes, f, second)
  {
    var b: nat, s: nat := |routes|, |routes|;
    for i := 0 to |routes|
      invariant b < i || b == |routes|
      invariant b == |routes| ==> s == |routes| && forall j :: 0 <= j < i ==> routes[j].faceId != f
      invariant b < i && s == |routes| ==>
                  routes[b].faceId == f && forall j :: 0 <= j < i && j != b ==> routes[j].faceId != f
      invariant s < i || s == |routes|
      invariant s < i ==>
          b < i && b != s && routes[b].faceId == f && routes[s].faceId == f && routes[b].cost <= routes[s].cost
      invariant s < i ==> forall j :: 0 <= j < i && j != b && routes[j].faceId == f ==> routes[s].cost <= routes[j].cost
    {
      if routes[i].faceId == f {
        if b == |routes| {
          b := i;
        } else if routes[i].cost < routes[b].cost {
          b, s := i, b;
        } else if s == |routes| || routes[i].cost < routes[s].cost {
          s := i;
        }
      }
    }
    if s == |routes| {
      second := None;
    } else {
      assert SecondCheapestAt(routes, f, b, s);
      second := Some(routes[s]);
    }
  }

  method HasChildInheritOnFaceId(routes: seq<Route>, f: FaceId) returns (found: bool)
    ensures found <==> HasRouteOn(routes, f, true)
  {
    for i := 0 to |routes|
      invariant forall j :: 0 <= j < i ==> !Matches(routes[j], f, true)
    {
      if routes[i].faceId == f && routes[i].childInherit {
        assert Matches(routes[i], f, true);
        return true;
      }
    }
    return false;
  }

  /** Which routes on a face exist decides the lowest cost; their order does not. */
  lemma CheapestCostByMembers(a: seq<Route>, b: seq<Route>, f: FaceId, inheritOnly: bool)
    requires forall r :: Matches(r, f, inheritOnly) ==> (r in a <==> r in b)
    ensures CheapestCost(a, f, inheritOnly) == CheapestCost(b, f, inheritOnly)
    ensures HasRouteOn(a, f, inheritOnly) <==> HasRouteOn(b, f, inheritOnly)
  {
  }

  // ---------------------------------------------------------- insert and erase

  /** Index of the route with the same face and origin, or the length of the list. */
  function FindRoute(routes: seq<Route>, r: Route): (i: nat)
    ensures i <= |routes|
    ensures i < |routes| ==> SameKey(routes[i], r)
    ensures forall j :: 0 <= j < i ==> !SameKey(routes[j], r)
  {
    if routes == [] || SameKey(routes[0], r) then 0 else 1 + FindRoute(routes[1..], r)
  }

  function CaptureCount(routes: seq<Route>): nat {
    if routes == [] then 0
    else CaptureCount(routes[..|routes| - 1]) + (if routes[|routes| - 1].capture then 1 else 0)
  }

  function InsertRoute(e: RibEntry, r: Route): RibEntry {
    if FindRoute(e.routes, r) < |e.routes| then e
    else e.(routes := e.routes + [r], nCapture := e.nCapture + (if r.capture then 1 else 0))
  }

  /** The unsigned decrement of the capture counter wraps. */
  function Decrement(n: nat): nat { if n == 0 then COUNTER_MAX else n - 1 }

  function EraseRoute(e: RibEntry, r: Route): RibEntry {
    var i := FindRoute(e.routes, r);
    if i == |e.routes| then e
    else e.(routes := e.routes[..i] + e.routes[i + 1..],
            nCapture := if e.routes[i].capture then Decrement(e.nCapture) else e.nCapture)
  }

  /** `Rib::insert` on an existing (face, origin): cost and flags are replaced in
      place, the capture counter is not touched. */
  function ReplaceRoute(e: RibEntry, r: Route): RibEntry {
    var i := FindRoute(e.routes, r);
    if i == |e.routes| then e else e.(routes := e.routes[i := r])
  }

  ghost predicate CounterExact(e: RibEntry) { e.nCapture == CaptureCount(e.routes) }

  lemma {:induction false} CaptureCountRemove(routes: seq<Route>, i: nat)
    requires i < |routes|
    ensures CaptureCount(routes) ==
            CaptureCount(routes[..i] + routes[i + 1..]) + (if routes[i].capture then 1 else 0)
  {
    var last := |routes| - 1;
    if i == last {
      assert routes[..i] + routes[i + 1..] == routes[..last];
    } else {
      CaptureCountRemove(routes[..last], i);
      var rest := routes[..i] + routes[i + 1..];
      assert routes[i + 1..] == routes[..last][i + 1..] + [routes[last]];
      assert rest == routes[..last][..i] + routes[..last][i + 1..] + [routes[last]];
      assert rest[..|rest| - 1] == routes[..last][..i] + routes[..last][i + 1..];
    }
  }

  lemma {:induction false} CaptureCountPositive(routes: seq<Route>)
    ensures CaptureCount(routes) > 0 <==> Captures(routes)
  {
    if routes != [] {
      var init, last := routes[..|routes| - 1], routes[|routes| - 1];
      CaptureCountPositive(init);
      assert forall r :: r in routes <==> r in init || r == last;
      if last.capture {
        assert last in routes;
      }
    }
  }

  lemma CaptureCountReplace(routes: seq<Route>, i: nat, r: Route)
    requires i < |routes|
    ensures CaptureCount(routes[i := r]) + (if routes[i].capture then 1 else 0) ==
            CaptureCount(routes) + (if r.capture then 1 else 0)
  {
    CaptureCountRemove(routes, i);
    CaptureCountRemove(routes[i := r], i);
    assert routes[i := r][..i] + routes[i := r][i + 1..] == routes[..i] + routes[i + 1..];
  }

  lemma AppendCounts(routes: seq<Route>, r: Route)
    ensures CaptureCount(routes + [r]) == CaptureCount(routes) + (if r.capture then 1 else 0)
  {
  }

  /** Inserting and erasing keep the counter exact. */
  lemma CounterKept(e: RibEntry, r: Route)
    requires CounterExact(e)
    ensures CounterExact(InsertRoute(e, r))
    ensures CounterExact(EraseRoute(e, r))
  {
    AppendCounts(e.routes, r);
    if FindRoute(e.routes, r) < |e.routes| {
      CaptureCountRemove(e.routes, FindRoute(e.routes, r));
    }
  }

  /** A route appended after others with different keys is the one found. */
  lemma {:induction false} FindAppended(routes: seq<Route>, r: Route)
    requires FindRoute(routes, r) == |routes|
    ensures FindRoute(routes + [r], r) == |routes|
  {
    if routes != [] {
      assert (routes + [r])[1..] == routes[1..] + [r];
      FindAppended(routes[1..], r);
    }
  }

  /** Erasing a route undoes inserting it, counter and list alike. */
  lemma EraseUndoesInsert(e: RibEntry, r: Route)
    requires FindRoute(e.routes, r) == |e.routes|
    ensures EraseRoute(InsertRoute(e, r), r) == e
  {
    FindAppended(e.routes, r);
    var all := e.routes + [r];
    assert all[..|e.routes|] == e.routes && all[|e.routes| + 1..] == [];
  }

  /** Inserting and erasing keep routes unique by face and origin. */
  lemma UniqueKept(e: RibEntry, r: Route)
    requires UniqueRoutes(e.routes)
    ensures UniqueRoutes(InsertRoute(e, r).routes)
    ensures UniqueRoutes(EraseRoute(e, r).routes)
  {
  }

  /** Replacing a route keeps the counter exact if and only if its capture flag
      does not change. */
  lemma CounterKeptByReplace(e: RibEntry, r: Route)
    requires CounterExact(e)
    ensures CounterExact(ReplaceRoute(e, r)) <==>
            (FindRoute(e.routes, r) < |e.routes| ==> e.routes[FindRoute(e.routes, r)].capture == r.capture)
  {
    var i := FindRoute(e.routes, r);
    if i < |e.routes| {
      CaptureCountReplace(e.routes, i, r);
    }
  }

  /** The consequence: turn capture on in place, then erase the route, and the
      empty entry reports capture for good. */
  lemma CounterWraps(e: RibEntry, r: Route)
    requires e.routes == [r.(capture := false)] && e.nCapture == 0 && r.capture
    ensures var gone := EraseRoute(ReplaceRoute(e, r), r);
            gone.routes == [] && gone.nCapture == COUNTER_MAX && gone.HasCapture()
  {
  }
}
