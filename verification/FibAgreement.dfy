/** "Delta equals recomputation": the updates computed for one RIB change turn a FIB
    that agrees with the RIB into the FIB recomputed from the changed RIB. */
module FibAgreement {
  import opened Options
  import opened RibEntries
  import opened RibTrees
  import opened FibSpec
  import opened FibDeltas

  /** The inherited-route lists record exactly the faces the FIB has by inheritance. */
  ghost predicate RecordsExact(rib: RibTable) {
    forall n, f :: n in rib ==> (rib[n].HasInherited(f) <==> Inherits(rib, n, f))
  }

  /** The route reported for an ancestor face is a cheapest one of its source. */
  ghost predicate ReportsCheapest(rib: RibTable, n: Name, f: FaceId) {
    AncestorRoute(rib, n, f).Some? ==> InheritCost(rib, n, f) == Some(AncestorRoute(rib, n, f).value.cost)
  }

  lemma AncestorRouteMeansInherit(rib: RibTable, n: Name, f: FaceId)
    ensures AncestorRoute(rib, n, f).Some? <==> InheritCost(rib, n, f).Some?
  {
  }

  /** The walk and the specification are stopped by the same entries. */
  lemma PathClearMeaning(rib: RibTable, n: Name, d: Name, f: FaceId)
    requires CaptureExact(rib) && d in rib && n < d
    ensures PathClear(rib, n, d, f) <==> BetweenClear(rib, n, d, f) && !Stops(rib[d], f)
  {
    if BetweenClear(rib, n, d, f) && !Stops(rib[d], f) {
      forall p | p in rib && n < p && p <= d ensures !StopsWalk(rib[p], f) {
        if p != d {
          assert p < d;
        }
      }
    }
  }

  // -------------------------------------------------------- new name in the RIB

  ghost predicate NewEntryInserted(rib: RibTable, after: RibTable, n: Name, r: Route) {
    && n !in rib && n in after && after[n].routes == [r]
    && SameElsewhere(rib, after, n)
  }

  lemma NewEntryKeyCorrect(rib: RibTable, after: RibTable, n: Name, r: Route, d: Name, f: FaceId)
    requires NewEntryInserted(rib, after, n, r)
    requires CaptureExact(rib)
    requires d in rib ==> (rib[d].HasInherited(f) <==> Inherits(rib, d, f))
    requires r.capture || f == r.faceId || ReportsCheapest(rib, n, f)
    ensures Effect(NextHop(rib, d, f), NewEntryKey(rib, n, r, d, f).op) == NextHop(after, d, f)
  {
    LocalChange(rib, after, n, d, f);
    AncestorRouteMeansInherit(rib, n, f);
    assert r in after[n].routes;
    if d != n && d in rib && n < d {
      PathClearMeaning(rib, n, d, f);
    }
  }

  /** Registering a route under a new name gives the recomputed FIB if and only if
      the route captures or every other face the name inherits is reported at its
      lowest cost. */
  lemma NewEntryAgreement(rib: RibTable, after: RibTable, n: Name, r: Route)
    requires NewEntryInserted(rib, after, n, r)
    requires CaptureExact(rib) && RecordsExact(rib)
    ensures (forall d, f :: Effect(NextHop(rib, d, f), NewEntryKey(rib, n, r, d, f).op) == NextHop(after, d, f))
            <==> (r.capture || forall f :: f != r.faceId ==> ReportsCheapest(rib, n, f))
  {
    if r.capture || forall f :: f != r.faceId ==> ReportsCheapest(rib, n, f) {
      forall d, f ensures Effect(NextHop(rib, d, f), NewEntryKey(rib, n, r, d, f).op) == NextHop(after, d, f) {
        NewEntryKeyCorrect(rib, after, n, r, d, f);
      }
    } else {
      var f :| f != r.faceId && !ReportsCheapest(rib, n, f);
      LocalChange(rib, after, n, n, f);
      assert NextHop(after, n, f) == InheritCost(rib, n, f);
      assert Effect(NextHop(rib, n, f), NewEntryKey(rib, n, r, n, f).op) != NextHop(after, n, f);
    }
  }

  // ------------------------------------------------- new route on an entry

  ghost predicate NewRouteInserted(rib: RibTable, after: RibTable, n: Name, r: Route) {
    && n in rib && n in after && after[n].routes == rib[n].routes + [r]
    && SameElsewhere(rib, after, n)
  }

  /** With capture turned on, a face that the ancestors offer is withdrawn from the
      subtree even where the entry itself hands that face down. */
  ghost predicate Withdrawn(rib: RibTable, n: Name, r: Route, d: Name, f: FaceId) {
    && n in rib && d in rib && n < d && PathClear(rib, n, d, f) && !rib[d].HasFaceId(f)
    && !rib[n].HasCapture() && r.capture
    && AncestorRoute(rib, n, f).Some? && HasRouteOn(rib[n].routes, f, true)
    && NewRouteAdds(rib[n], r, f).None?
  }

  lemma AppendedMembers(routes: seq<Route>, r: Route, f: FaceId, inheritOnly: bool)
    ensures HasRouteOn(routes + [r], f, inheritOnly) <==>
            HasRouteOn(routes, f, inheritOnly) || Matches(r, f, inheritOnly)
    ensures Captures(routes + [r]) <==> Captures(routes) || r.capture
  {
  }

  lemma AppendedCost(routes: seq<Route>, r: Route, f: FaceId, inheritOnly: bool)
    ensures CheapestCost(routes + [r], f, inheritOnly) ==
            if Matches(r, f, inheritOnly) && NotWorse(r, routes, inheritOnly) then Some(r.cost)
            else CheapestCost(routes, f, inheritOnly)
  {
  }

  ghost function NewRouteOp(rib: RibTable, n: Name, r: Route, d: Name, f: FaceId): Op
    requires n in rib
  {
    NewRouteKey(rib, n, rib[n], r, !rib[n].HasCapture() && r.capture, d, f, NOTHING).op
  }

  lemma NewRouteSelf(rib: RibTable, after: RibTable, n: Name, r: Route, f: FaceId)
    requires NewRouteInserted(rib, after, n, r)
    requires CaptureExact(rib)
    requires rib[n].HasInherited(f) <==> Inherits(rib, n, f)
    ensures Effect(NextHop(rib, n, f), NewRouteOp(rib, n, r, n, f)) == NextHop(after, n, f)
  {
    LocalChange(rib, after, n, n, f);
    AncestorRouteMeansInherit(rib, n, f);
    AppendedMembers(rib[n].routes, r, f, false);
    AppendedCost(rib[n].routes, r, f, false);
  }

  lemma NewRouteBelowCost(rib: RibTable, after: RibTable, n: Name, r: Route, f: FaceId)
    requires NewRouteInserted(rib, after, n, r)
    ensures BelowCost(after, n, f) ==
            if NewRouteAdds(rib[n], r, f).Some? then Some(r.cost)
            else if r.capture && !HasRouteOn(rib[n].routes, f, true) then None
            else BelowCost(rib, n, f)
  {
    LocalChange(rib, after, n, n, f);
    AppendedMembers(rib[n].routes, r, f, true);
    AppendedCost(rib[n].routes, r, f, true);
  }

  lemma NewRouteBelow(rib: RibTable, after: RibTable, n: Name, r: Route, d: Name, f: FaceId)
    requires NewRouteInserted(rib, after, n, r)
    requires CaptureExact(rib)
    requires d in rib && n < d && PathClear(rib, n, d, f)
    requires rib[d].HasInherited(f) <==> Inherits(rib, d, f)
    ensures Effect(NextHop(rib, d, f), NewRouteOp(rib, n, r, d, f)) == NextHop(after, d, f)
            <==> !Withdrawn(rib, n, r, d, f)
  {
    PathClearMeaning(rib, n, d, f);
    LocalChange(rib, after, n, d, f);
    AncestorRouteMeansInherit(rib, n, f);
    NewRouteBelowCost(rib, after, n, r, f);
  }

  lemma NewRouteElsewhere(rib: RibTable, after: RibTable, n: Name, r: Route, d: Name, f: FaceId)
    requires NewRouteInserted(rib, after, n, r)
    requires CaptureExact(rib)
    requires d != n && !(d in rib && n < d && PathClear(rib, n, d, f))
    ensures NewRouteOp(rib, n, r, d, f) == Keep && NextHop(rib, d, f) == NextHop(after, d, f)
  {
    LocalChange(rib, after, n, d, f);
    if d in rib && n < d {
      PathClearMeaning(rib, n, d, f);
    }
  }

  lemma NewRouteKeyCorrect(rib: RibTable, after: RibTable, n: Name, r: Route, d: Name, f: FaceId)
    requires NewRouteInserted(rib, after, n, r)
    requires CaptureExact(rib)
    requires d in rib ==> (rib[d].HasInherited(f) <==> Inherits(rib, d, f))
    ensures Effect(NextHop(rib, d, f), NewRouteOp(rib, n, r, d, f)) == NextHop(after, d, f)
            <==> !Withdrawn(rib, n, r, d, f)
  {
    if d == n {
      NewRouteSelf(rib, after, n, r, f);
    } else if d in rib && n < d && PathClear(rib, n, d, f) {
      NewRouteBelow(rib, after, n, r, d, f);
    } else {
      NewRouteElsewhere(rib, after, n, r, d, f);
    }
  }

  /** Adding a route with a new (face, origin) to an entry gives the recomputed FIB
      if and only if no face is withdrawn from a descendant that inherits it from
      the entry itself; in particular always when capture is not turned on. */
  lemma NewRouteAgreement(rib: RibTable, after: RibTable, n: Name, r: Route)
    requires NewRouteInserted(rib, after, n, r)
    requires CaptureExact(rib) && RecordsExact(rib)
    ensures (forall d, f ::
               Effect(NextHop(rib, d, f), NewRouteOp(rib, n, r, d, f)) == NextHop(after, d, f))
            <==> (forall d, f :: !Withdrawn(rib, n, r, d, f))
    ensures rib[n].HasCapture() || !r.capture ==> forall d, f :: !Withdrawn(rib, n, r, d, f)
  {
    forall d, f
      ensures Effect(NextHop(rib, d, f), NewRouteOp(rib, n, r, d, f)) == NextHop(after, d, f)
              <==> !Withdrawn(rib, n, r, d, f)
    {
      NewRouteKeyCorrect(rib, after, n, r, d, f);
    }
  }

  // --------------------------------------------------------- erased route

  ghost predicate RouteErased(rib: RibTable, after: RibTable, n: Name, x: Route) {
    && n in rib && x in rib[n].routes
    && SameElsewhere(rib, after, n)
    && var rest := EraseRoute(rib[n], x);
       && (rest.routes == [] ==> n !in after)
       && (rest.routes != [] ==> n in after && after[n].routes == rest.routes)
  }

  /** Erasing the last route of an entry, if it captures, leaves the ancestors'
      faces on the erased name. */
  ghost predicate LeftBehind(rib: RibTable, n: Name, x: Route, d: Name, f: FaceId) {
    n in rib && d == n && |rib[n].routes| == 1 && x.capture && AncestorRoute(rib, n, f).Some?
  }

  /** The cheapest route of the face stays, but the entry is given the next hop of a
      dearer one, or none. */
  ghost predicate Outbid(rib: RibTable, n: Name, x: Route, next: Option<Route>, d: Name, f: FaceId) {
    && n in rib && d == n && f == x.faceId && next.Some?
    && var low := CheapestCost(rib[n].routes, f, false);
       var anc := AncestorRoute(rib, n, f);
       && low != Some(x.cost) && low != Some(next.value.cost)
       && !(!Captures(EraseRoute(rib[n], x).routes) && anc.Some? && low == Some(anc.value.cost))
  }

  /** `d` takes from `n` what `n` hands down on the face. */
  ghost predicate Takes(rib: RibTable, n: Name, d: Name, f: FaceId) {
    d in rib && n < d && PathClear(rib, n, d, f) && !rib[d].HasFaceId(f)
  }

  /** The second cheapest route is handed down in place of the erased one. */
  predicate HandsDownNext(rest: RibEntry, next: Option<Route>, f: FaceId) {
    next.Some? && NewRouteAdds(rest, next.value, f).Some?
  }

  /** The erased route is itself the second cheapest and is handed down once more. */
  ghost predicate HandedBack(rib: RibTable, n: Name, x: Route, next: Option<Route>, d: Name, f: FaceId) {
    && n in rib && Takes(rib, n, d, f)
    && var rest := EraseRoute(rib[n], x);
       && next == Some(x) && HandsDownNext(rest, next, f)
       && if HasRouteOn(rest.routes, f, true) then CheapestCost(rest.routes, f, true) != Some(x.cost)
          else Captures(rest.routes) || InheritCost(rib, n, f) != Some(x.cost)
  }

  /** The entry still hands the face down, but the face is taken from its subtree. */
  ghost predicate Dropped(rib: RibTable, n: Name, x: Route, next: Option<Route>, d: Name, f: FaceId) {
    && n in rib && Takes(rib, n, d, f) && f == x.faceId && x.childInherit
    && var rest := EraseRoute(rib[n], x);
       && !HandsDownNext(rest, next, f) && HasRouteOn(rest.routes, f, true)
       && (Captures(rest.routes) || AncestorRoute(rib, n, f).None?)
  }

  /** The subtree is offered the ancestors' routes again, also on a face the entry
      keeps handing down itself at another cost. */
  ghost predicate Overridden(rib: RibTable, n: Name, x: Route, next: Option<Route>, d: Name, f: FaceId) {
    && n in rib && Takes(rib, n, d, f)
    && var rest := EraseRoute(rib[n], x);
       && !HandsDownNext(rest, next, f)
       && (x.childInherit || x.capture) && !Captures(rest.routes)
       && AncestorRoute(rib, n, f).Some?
       && HasRouteOn(rest.routes, f, true)
       && CheapestCost(rest.routes, f, true) != Some(AncestorRoute(rib, n, f).value.cost)
  }

  /** The entry or its subtree is offered an ancestor's face again, but not at the
      lowest cost. */
  ghost predicate Mispriced(rib: RibTable, n: Name, x: Route, next: Option<Route>, d: Name, f: FaceId) {
    && n in rib && !ReportsCheapest(rib, n, f)
    && var rest := EraseRoute(rib[n], x);
       && !Captures(rest.routes)
       && if d == n then
            rest.routes != [] && !rest.HasFaceId(f) && (x.capture || f == x.faceId)
          else
            && Takes(rib, n, d, f) && !HandsDownNext(rest, next, f)
            && (x.childInherit || x.capture) && !HasRouteOn(rest.routes, f, true)
  }

  /** Erasing removes exactly the route. */
  lemma ErasedMembers(e: RibEntry, x: Route)
    requires x in e.routes && UniqueRoutes(e.routes)
    ensures var rest := EraseRoute(e, x);
            |rest.routes| == |e.routes| - 1 && forall r :: r in rest.routes <==> r in e.routes && r != x
  {
  }

  lemma ErasedRoutes(e: RibEntry, x: Route)
    requires x in e.routes && CounterExact(e) && UniqueRoutes(e.routes)
    ensures var rest := EraseRoute(e, x);
            && (forall r :: r in rest.routes <==> r in e.routes && r != x)
            && |rest.routes| == |e.routes| - 1
            && (rest.HasCapture() <==> Captures(rest.routes))
            && (e.HasCapture() <==> Captures(e.routes))
            && (Captures(e.routes) <==> x.capture || Captures(rest.routes))
  {
    ErasedMembers(e, x);
    CounterKept(e, x);
    CaptureCountPositive(EraseRoute(e, x).routes);
    CaptureCountPositive(e.routes);
  }

  /** A matching route that no other undercuts gives the lowest cost. */
  lemma LowestCost(routes: seq<Route>, r: Route, f: FaceId, inheritOnly: bool)
    requires r in routes && Matches(r, f, inheritOnly)
    requires forall y :: y in routes && Matches(y, f, inheritOnly) ==> r.cost <= y.cost
    ensures CheapestCost(routes, f, inheritOnly) == Some(r.cost)
  {
  }

  /** What the second cheapest route says about the routes that remain. */
  lemma SecondMeaning(routes: seq<Route>, rest: seq<Route>, x: Route, f: FaceId, next: Option<Route>)
    requires x in routes && x.faceId == f && UniqueRoutes(routes) && IsSecond(routes, f, next)
    requires forall r :: r in rest <==> r in routes && r != x
    ensures next.Some? <==> HasRouteOn(rest, f, false)
    ensures next.Some? ==> next.value.faceId == f && (next.value == x || next.value in rest)
    ensures next.Some? ==>
              var low := CheapestCost(routes, f, false);
              && low.Some?
              && CheapestCost(rest, f, false) == if low.value == x.cost then Some(next.value.cost) else low
  {
    if next.Some? {
      var b: nat, s: nat :| SecondCheapestAt(routes, f, b, s) && next.value == routes[s];
      SecondAt(routes, rest, x, f, b, s);
    }
  }

  lemma SecondAt(routes: seq<Route>, rest: seq<Route>, x: Route, f: FaceId, b: nat, s: nat)
    requires x in routes && x.faceId == f && UniqueRoutes(routes) && SecondCheapestAt(routes, f, b, s)
    requires forall r :: r in rest <==> r in routes && r != x
    ensures HasRouteOn(rest, f, false) && (routes[s] == x || routes[s] in rest)
    ensures CheapestCost(routes, f, false) == Some(routes[b].cost)
    ensures CheapestCost(rest, f, false) == Some(if routes[b].cost == x.cost then routes[s].cost else routes[b].cost)
  {
    forall y | y in routes && Matches(y, f, false) ensures routes[b].cost <= y.cost {
      var i :| 0 <= i < |routes| && routes[i] == y;
    }
    LowestCost(routes, routes[b], f, false);
    var left := if routes[b] == x then s else b;
    assert routes[b] != routes[s] by {
      assert !SameKey(routes[if b < s then b else s], routes[if b < s then s else b]);
    }
    assert routes[left] in rest && Matches(routes[left], f, false);
    forall y | y in rest && Matches(y, f, false) ensures routes[left].cost <= y.cost {
      var i :| 0 <= i < |routes| && routes[i] == y;
    }
    LowestCost(rest, routes[left], f, false);
    if routes[b] != x && routes[b].cost == x.cost {
      var i :| 0 <= i < |routes| && routes[i] == x;
    }
  }

  ghost function UnregisterOp(rib: RibTable, n: Name, x: Route, next: Option<Route>, d: Name, f: FaceId): Op
    requires n in rib
  {
    UnregisterKey(rib, n, rib[n], x, next, d, f).op
  }

  /** A route erased from an entry whose counter and routes are in order. */
  ghost predicate ErasedInOrder(rib: RibTable, after: RibTable, n: Name, x: Route, next: Option<Route>) {
    && RouteErased(rib, after, n, x)
    && CounterExact(rib[n]) && UniqueRoutes(rib[n].routes) && IsSecond(rib[n].routes, x.faceId, next)
  }

  lemma UnregisterSelf(rib: RibTable, after: RibTable, n: Name, x: Route, next: Option<Route>, f: FaceId)
    requires ErasedInOrder(rib, after, n, x, next)
    requires rib[n].HasInherited(f) <==> Inherits(rib, n, f)
    ensures Effect(NextHop(rib, n, f), UnregisterOp(rib, n, x, next, n, f)) == NextHop(after, n, f)
            <==> !LeftBehind(rib, n, x, n, f) && !Mispriced(rib, n, x, next, n, f) && !Outbid(rib, n, x, next, n, f)
  {
    var e := rib[n];
    var rest := EraseRoute(e, x);
    ErasedRoutes(e, x);
    SecondMeaning(e.routes, rest.routes, x, x.faceId, next);
    if f == x.faceId && next.Some? {
      UnregisterSelfShared(rib, after, n, x, next);
    } else {
      LocalChange(rib, after, n, n, f);
      AncestorRouteMeansInherit(rib, n, f);
      UnregisterSelfOp(rib, n, rest, x, next, f);
      if f != x.faceId {
        CheapestCostByMembers(e.routes, rest.routes, f, false);
      }
    }
  }

  /** The second cheapest route matters to its own face only. */
  lemma UnregisterSelfOp(rib: RibTable, n: Name, rest: RibEntry, x: Route, next: Option<Route>, f: FaceId)
    requires n in rib && rest == EraseRoute(rib[n], x)
    requires next.Some? ==> next.value.faceId == x.faceId && f != x.faceId
    ensures UnregisterOp(rib, n, x, next, n, f) == UnregisterOp(rib, n, x, None, n, f)
  {
  }

  lemma UnregisterSharedOp(rib: RibTable, n: Name, rest: RibEntry, x: Route, next: Option<Route>)
    requires n in rib && rest == EraseRoute(rib[n], x)
    requires next.Some? && next.value.faceId == x.faceId && rest.HasFaceId(x.faceId) && |rib[n].routes| > 1
    ensures UnregisterOp(rib, n, x, next, n, x.faceId) ==
            var anc := AncestorRoute(rib, n, x.faceId);
            if NotWorse(next.value, rest.routes, false) then Add(next.value.cost)
            else if !rest.HasCapture() && anc.Some? then Add(anc.value.cost)
            else Remove
  {
  }

  /** What the answer of the second-cheapest query and the routes of the entry mean
      for the pending update of the entry itself. */
  lemma OutbidMeaning(rib: RibTable, n: Name, rest: RibEntry, x: Route, next: Route, low: nat)
    requires n in rib && rest == EraseRoute(rib[n], x) && |rib[n].routes| > 1
    requires next.faceId == x.faceId && rest.HasFaceId(x.faceId)
    requires rest.HasCapture() <==> Captures(rest.routes)
    requires CheapestCost(rib[n].routes, x.faceId, false) == Some(low)
    requires CheapestCost(rest.routes, x.faceId, false) == Some(if low == x.cost then next.cost else low)
    requires low == x.cost || low <= next.cost
    ensures Effect(NextHop(rib, n, x.faceId), UnregisterOp(rib, n, x, Some(next), n, x.faceId))
            == CheapestCost(rest.routes, x.faceId, false)
            <==> !Outbid(rib, n, x, Some(next), n, x.faceId)
  {
    UnregisterSharedOp(rib, n, rest, x, Some(next));
    assert NotWorse(next, rest.routes, false) <==> next.cost <= (if low == x.cost then next.cost else low);
  }

  /** The entry itself on the face of the erased route, when others share the face. */
  lemma UnregisterSelfShared(rib: RibTable, after: RibTable, n: Name, x: Route, next: Option<Route>)
    requires ErasedInOrder(rib, after, n, x, next) && next.Some?
    ensures Effect(NextHop(rib, n, x.faceId), UnregisterOp(rib, n, x, next, n, x.faceId)) == NextHop(after, n, x.faceId)
            <==> !Outbid(rib, n, x, next, n, x.faceId)
    ensures !LeftBehind(rib, n, x, n, x.faceId) && !Mispriced(rib, n, x, next, n, x.faceId)
  {
    var e := rib[n];
    var rest := EraseRoute(e, x);
    ErasedRoutes(e, x);
    SecondMeaning(e.routes, rest.routes, x, x.faceId, next);
    NextNotBelow(e.routes, rest.routes, x, x.faceId, next.value);
    assert rest.HasFaceId(x.faceId);
    OutbidMeaning(rib, n, rest, x, next.value, CheapestCost(e.routes, x.faceId, false).value);
  }

  lemma NextNotBelow(routes: seq<Route>, rest: seq<Route>, x: Route, f: FaceId, next: Route)
    requires x in routes && x.faceId == f && UniqueRoutes(routes) && IsSecond(routes, f, Some(next))
    requires forall r :: r in rest <==> r in routes && r != x
    ensures CheapestCost(rest, f, false).Some? && CheapestCost(rest, f, false).value <= next.cost
  {
    var b: nat, s: nat :| SecondCheapestAt(routes, f, b, s) && next == routes[s];
    SecondAt(routes, rest, x, f, b, s);
  }

  /** What the subtree is handed on a face, before and after. */
  lemma UnregisterBelowCost(rib: RibTable, after: RibTable, n: Name, x: Route, f: FaceId)
    requires RouteErased(rib, after, n, x)
    requires CounterExact(rib[n]) && UniqueRoutes(rib[n].routes)
    ensures var rest := EraseRoute(rib[n], x);
            && BelowCost(after, n, f) ==
               (if HasRouteOn(rest.routes, f, true) then CheapestCost(rest.routes, f, true)
                else if Captures(rest.routes) then None
                else InheritCost(rib, n, f))
            && (if f == x.faceId && x.childInherit then BelowCost(rib, n, f).Some?
                else if x.capture && !HasRouteOn(rest.routes, f, true) then BelowCost(rib, n, f) == None
                else BelowCost(rib, n, f) == BelowCost(after, n, f))
  {
    var e := rib[n];
    var rest := EraseRoute(e, x);
    LocalChange(rib, after, n, n, f);
    ErasedRoutes(e, x);
    if f == x.faceId && x.childInherit {
      assert Matches(x, f, true);
    } else {
      CheapestCostByMembers(e.routes, rest.routes, f, true);
    }
  }

  /** The second cheapest route, unless it is the erased one, is the cheapest that is
      handed down whenever it is handed down. */
  lemma HandedDownNext(e: RibEntry, x: Route, next: Option<Route>, f: FaceId)
    requires x in e.routes && CounterExact(e) && UniqueRoutes(e.routes) && IsSecond(e.routes, x.faceId, next)
    requires HandsDownNext(EraseRoute(e, x), next, f)
    ensures f == x.faceId && Matches(next.value, f, true)
    ensures next != Some(x) ==> CheapestCost(EraseRoute(e, x).routes, f, true) == Some(next.value.cost)
  {
    var rest := EraseRoute(e, x).routes;
    ErasedRoutes(e, x);
    SecondMeaning(e.routes, rest, x, x.faceId, next);
    if next != Some(x) {
      LowestCost(rest, next.value, f, true);
    }
  }

  /** The pending state of an entry the walks reach. */
  lemma UnregisterBelowState(rib: RibTable, n: Name, rest: RibEntry, x: Route, next: Option<Route>, d: Name, f: FaceId)
    requires n in rib && rest == EraseRoute(rib[n], x)
    requires d in rib && n < d && PathClear(rib, n, d, f)
    ensures UnregisterKey(rib, n, rib[n], x, next, d, f) ==
            var anc := AncestorRoute(rib, n, f);
            var gone := x.childInherit && f == x.faceId && rib[d].HasInherited(f);
            var k := if gone then RemoveInherited(NOTHING) else NOTHING;
            if rib[d].HasFaceId(f) then k
            else
              var k1 := if ErasedRouteUncovers(rest, x, rib[n].HasCapture() && !rest.HasCapture()) && anc.Some?
                        then AddInherited(k, anc.value.cost) else k;
              if HandsDownNext(rest, next, f) then AddInherited(k1, next.value.cost) else k1
  {
  }

  /** The routes and costs around an entry below `n` that the walks reach. */
  ghost predicate BelowFacts(rib: RibTable, after: RibTable, n: Name, rest: RibEntry, x: Route, d: Name, f: FaceId) {
    && n in rib && d in rib && d in after && n < d && PathClear(rib, n, d, f)
    && after[d].routes == rib[d].routes && !Captures(rib[d].routes)
    && (rib[d].HasInherited(f) <==> Inherits(rib, d, f))
    && InheritCost(rib, d, f) == BelowCost(rib, n, f) && InheritCost(after, d, f) == BelowCost(after, n, f)
    && rest == EraseRoute(rib[n], x)
    && (rest.HasCapture() <==> Captures(rest.routes))
    && (rib[n].HasCapture() <==> Captures(rib[n].routes))
    && (Captures(rib[n].routes) <==> x.capture || Captures(rest.routes))
    && BelowCost(after, n, f) ==
       (if HasRouteOn(rest.routes, f, true) then CheapestCost(rest.routes, f, true)
        else if Captures(rest.routes) then None
        else InheritCost(rib, n, f))
    && (if f == x.faceId && x.childInherit then BelowCost(rib, n, f).Some?
        else if x.capture && !HasRouteOn(rest.routes, f, true) then BelowCost(rib, n, f) == None
        else BelowCost(rib, n, f) == BelowCost(after, n, f))
  }

  lemma BelowFactsHold(rib: RibTable, after: RibTable, n: Name, x: Route, next: Option<Route>, d: Name, f: FaceId)
    requires ErasedInOrder(rib, after, n, x, next) && CaptureExact(rib)
    requires d in rib && n < d && PathClear(rib, n, d, f)
    requires rib[d].HasInherited(f) <==> Inherits(rib, d, f)
    ensures BelowFacts(rib, after, n, EraseRoute(rib[n], x), x, d, f)
  {
    PathClearMeaning(rib, n, d, f);
    LocalChange(rib, after, n, d, f);
    UnregisterBelowCost(rib, after, n, x, f);
    ErasedRoutes(rib[n], x);
  }

  lemma HandedDownBelow(rib: RibTable, after: RibTable, n: Name, rest: RibEntry, x: Route, next: Option<Route>,
                        d: Name, f: FaceId)
    requires BelowFacts(rib, after, n, rest, x, d, f) && HandsDownNext(rest, next, f)
    requires next != Some(x) ==> CheapestCost(rest.routes, f, true) == Some(next.value.cost)
    ensures Effect(NextHop(rib, d, f), UnregisterOp(rib, n, x, next, d, f)) == NextHop(after, d, f)
            <==> !HandedBack(rib, n, x, next, d, f)
    ensures !Overridden(rib, n, x, next, d, f) && !Mispriced(rib, n, x, next, d, f) && !Dropped(rib, n, x, next, d, f)
  {
    UnregisterBelowState(rib, n, rest, x, next, d, f);
  }

  lemma NotHandedDownBelow(rib: RibTable, after: RibTable, n: Name, rest: RibEntry, x: Route, next: Option<Route>,
                           d: Name, f: FaceId)
    requires BelowFacts(rib, after, n, rest, x, d, f) && !HandsDownNext(rest, next, f)
    ensures Effect(NextHop(rib, d, f), UnregisterOp(rib, n, x, next, d, f)) == NextHop(after, d, f)
            <==> !Overridden(rib, n, x, next, d, f) && !Mispriced(rib, n, x, next, d, f)
                 && !Dropped(rib, n, x, next, d, f)
    ensures !HandedBack(rib, n, x, next, d, f)
  {
    UnregisterBelowState(rib, n, rest, x, next, d, f);
    AncestorRouteMeansInherit(rib, n, f);
  }

  lemma UnregisterBelow(rib: RibTable, after: RibTable, n: Name, x: Route, next: Option<Route>, d: Name, f: FaceId)
    requires ErasedInOrder(rib, after, n, x, next) && CaptureExact(rib)
    requires d in rib && n < d && PathClear(rib, n, d, f)
    requires rib[d].HasInherited(f) <==> Inherits(rib, d, f)
    ensures Effect(NextHop(rib, d, f), UnregisterOp(rib, n, x, next, d, f)) == NextHop(after, d, f)
            <==> !Overridden(rib, n, x, next, d, f) && !Mispriced(rib, n, x, next, d, f)
                 && !HandedBack(rib, n, x, next, d, f) && !Dropped(rib, n, x, next, d, f)
  {
    var e := rib[n];
    var rest := EraseRoute(e, x);
    BelowFactsHold(rib, after, n, x, next, d, f);
    if HandsDownNext(rest, next, f) {
      HandedDownNext(e, x, next, f);
      HandedDownBelow(rib, after, n, rest, x, next, d, f);
    } else {
      NotHandedDownBelow(rib, after, n, rest, x, next, d, f);
    }
  }

  lemma UnregisterElsewhere(rib: RibTable, after: RibTable, n: Name, x: Route, next: Option<Route>, d: Name, f: FaceId)
    requires RouteErased(rib, after, n, x)
    requires CaptureExact(rib)
    requires d != n && !(d in rib && n < d && PathClear(rib, n, d, f))
    ensures UnregisterOp(rib, n, x, next, d, f) == Keep && NextHop(rib, d, f) == NextHop(after, d, f)
  {
    LocalChange(rib, after, n, d, f);
    if d in rib && n < d {
      PathClearMeaning(rib, n, d, f);
    }
  }

  ghost predicate UnregisterFaulty(rib: RibTable, n: Name, x: Route, next: Option<Route>, d: Name, f: FaceId) {
    || LeftBehind(rib, n, x, d, f) || Outbid(rib, n, x, next, d, f) || Mispriced(rib, n, x, next, d, f)
    || Overridden(rib, n, x, next, d, f) || HandedBack(rib, n, x, next, d, f) || Dropped(rib, n, x, next, d, f)
  }

  /** Which faults can occur where. */
  lemma FaultPlaces(rib: RibTable, n: Name, x: Route, next: Option<Route>, d: Name, f: FaceId)
    ensures d != n ==> !LeftBehind(rib, n, x, d, f) && !Outbid(rib, n, x, next, d, f)
    ensures !Takes(rib, n, d, f) ==>
              && !Overridden(rib, n, x, next, d, f) && !HandedBack(rib, n, x, next, d, f)
              && !Dropped(rib, n, x, next, d, f) && (d != n ==> !Mispriced(rib, n, x, next, d, f))
  {
  }

  lemma UnregisterKeyCorrect(rib: RibTable, after: RibTable, n: Name, x: Route, next: Option<Route>, d: Name, f: FaceId)
    requires ErasedInOrder(rib, after, n, x, next) && CaptureExact(rib)
    requires d in rib ==> (rib[d].HasInherited(f) <==> Inherits(rib, d, f))
    ensures Effect(NextHop(rib, d, f), UnregisterOp(rib, n, x, next, d, f)) == NextHop(after, d, f)
            <==> !UnregisterFaulty(rib, n, x, next, d, f)
  {
    FaultPlaces(rib, n, x, next, d, f);
    if d == n {
      assert !Takes(rib, n, d, f);
      UnregisterSelf(rib, after, n, x, next, f);
    } else if d in rib && n < d && PathClear(rib, n, d, f) {
      UnregisterBelow(rib, after, n, x, next, d, f);
    } else {
      assert !Takes(rib, n, d, f);
      UnregisterElsewhere(rib, after, n, x, next, d, f);
    }
  }

  /** Unregistering a route gives the recomputed FIB if and only if no (name, face)
      pair is left behind, outbid, mispriced, overridden, handed back or dropped. */
  lemma UnregisterAgreement(rib: RibTable, after: RibTable, n: Name, x: Route, next: Option<Route>)
    requires ErasedInOrder(rib, after, n, x, next)
    requires CaptureExact(rib) && RecordsExact(rib)
    ensures (forall d, f :: Effect(NextHop(rib, d, f), UnregisterOp(rib, n, x, next, d, f)) == NextHop(after, d, f))
            <==> (forall d, f :: !UnregisterFaulty(rib, n, x, next, d, f))
  {
    forall d, f
      ensures Effect(NextHop(rib, d, f), UnregisterOp(rib, n, x, next, d, f)) == NextHop(after, d, f)
              <==> !UnregisterFaulty(rib, n, x, next, d, f)
    {
      UnregisterKeyCorrect(rib, after, n, x, next, d, f);
    }
  }
}
