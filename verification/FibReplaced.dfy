/** "Delta equals recomputation" for a route of an entry that is registered again with
    another cost or other flags. */
module FibReplaced {
  import opened Options
  import opened RibEntries
  import opened RibTrees
  import opened FibSpec
  import opened FibDeltas
  import opened FibAgreement
  import opened FibRecords

  /** The route `x` of the entry of `n` is replaced in place by `r`. */
  ghost predicate RouteReplaced(rib: RibTable, after: RibTable, n: Name, x: Route, r: Route) {
    && n in rib && x in rib[n].routes && SameKey(x, r) && UniqueRoutes(rib[n].routes)
    && SameElsewhere(rib, after, n)
    && n in after && after[n].routes == ReplaceRoute(rib[n], r).routes
  }

  ghost function ReplacedState(rib: RibTable, n: Name, x: Route, r: Route, d: Name, f: FaceId): KeyState
    requires n in rib
  {
    ReplacedRouteKey(rib, n, ReplaceRoute(rib[n], r), r, x, d, f, NOTHING)
  }

  // ------------------------------------------------------------------- the faults

  /** The cost rises above another route's: the entry is given the cheapest route that
      it hands down, not its cheapest. */
  ghost predicate NotTheCheapest(rib: RibTable, n: Name, x: Route, r: Route, d: Name, f: FaceId) {
    && n in rib && d == n && f == r.faceId
    && var e := ReplaceRoute(rib[n], r);
       var low := CheapestCost(e.routes, f, false);
       low.Some? && x.cost < low.value < r.cost && CheapestCost(e.routes, f, true) != low
  }

  /** Capture is turned off: the ancestors' routes are given back although another route
      still captures, over a face the entry hands down, or not at the lowest cost. */
  ghost predicate Reopened(rib: RibTable, n: Name, x: Route, r: Route, d: Name, f: FaceId) {
    && n in rib && CaptureTurnedOff(x, r) && AncestorRoute(rib, n, f).Some?
    && var e := ReplaceRoute(rib[n], r);
       if d == n then !e.HasFaceId(f) && (Captures(e.routes) || !ReportsCheapest(rib, n, f))
       else
         && Takes(rib, n, d, f)
         && if HasRouteOn(e.routes, f, true)
             then CheapestCost(e.routes, f, true) != Some(AncestorRoute(rib, n, f).value.cost)
            else Captures(e.routes) || !ReportsCheapest(rib, n, f)
  }

  /** Capture is turned on: a face that the entry hands down is withdrawn. */
  ghost predicate Shut(rib: RibTable, n: Name, x: Route, r: Route, d: Name, f: FaceId) {
    && n in rib && Takes(rib, n, d, f) && CaptureTurnedOn(x, r) && AncestorRoute(rib, n, f).Some?
    && HasRouteOn(ReplaceRoute(rib[n], r).routes, f, true)
    && (HasRouteOn(rib[n].routes, f, true) || !Captures(rib[n].routes))
  }

  /** Child-inherit is turned off: the subtree is given the ancestor's route through a
      capture, or not at the lowest cost. */
  ghost predicate LetThrough(rib: RibTable, n: Name, x: Route, r: Route, d: Name, f: FaceId) {
    && n in rib && Takes(rib, n, d, f) && ReplacedRemoves(r, x, f) && !CaptureTurnedOn(x, r)
    && AncestorRoute(rib, n, f).Some?
    && var e := ReplaceRoute(rib[n], r);
       !HasRouteOn(e.routes, f, true) && (Captures(e.routes) || !ReportsCheapest(rib, n, f))
  }

  /** The lowest cost handed down changes, but the subtree is not told: the route is no
      longer the cheapest, or its capture flag changes at the same time. */
  ghost predicate NotTold(rib: RibTable, n: Name, x: Route, r: Route, d: Name, f: FaceId) {
    && n in rib && Takes(rib, n, d, f) && f == r.faceId && x.childInherit && r.childInherit
    && var e := ReplaceRoute(rib[n], r);
       && CheapestCost(rib[n].routes, f, true) != CheapestCost(e.routes, f, true)
       && (x.capture != r.capture || !NotWorse(r, e.routes, true))
       && (x.capture == r.capture || AncestorRoute(rib, n, f).None?)
  }

  ghost predicate ReplacedFaulty(rib: RibTable, n: Name, x: Route, r: Route, d: Name, f: FaceId) {
    || NotTheCheapest(rib, n, x, r, d, f) || Reopened(rib, n, x, r, d, f) || Shut(rib, n, x, r, d, f)
    || LetThrough(rib, n, x, r, d, f) || NotTold(rib, n, x, r, d, f)
  }

  // ------------------------------------------------------------- the changed entry

  lemma ReplacedMembers(e: RibEntry, x: Route, r: Route)
    requires x in e.routes && SameKey(x, r) && UniqueRoutes(e.routes)
    ensures var e' := ReplaceRoute(e, r);
            && e' == e.(routes := e'.routes)
            && (forall y :: y in e'.routes <==> y == r || (y in e.routes && y != x))
            && e.routes[FindRoute(e.routes, r)] == x
  {
    var i := FindRoute(e.routes, r);
    var j :| 0 <= j < |e.routes| && e.routes[j] == x;
    assert i == j;
    var l := e.routes[i := r];
    forall y ensures y in l <==> y == r || (y in e.routes && y != x) {
      if y == r {
        assert l[i] == r;
      } else if y in e.routes && y != x {
        var k :| 0 <= k < |e.routes| && e.routes[k] == y;
        assert l[k] == y;
      }
    }
  }

  /** What the replacement means for one face. */
  lemma ReplacedFaces(a: seq<Route>, b: seq<Route>, x: Route, r: Route, f: FaceId, inheritOnly: bool)
    requires x in a && SameKey(x, r) && forall y :: y in b <==> y == r || (y in a && y != x)
    ensures HasRouteOn(a, f, false) <==> HasRouteOn(b, f, false)
    ensures !(f == r.faceId && (x.childInherit || r.childInherit)) && inheritOnly ==>
              CheapestCost(a, f, inheritOnly) == CheapestCost(b, f, inheritOnly)
    ensures f != r.faceId ==> CheapestCost(a, f, inheritOnly) == CheapestCost(b, f, inheritOnly)
    ensures (x.capture == r.capture ==> (Captures(a) <==> Captures(b)))
    ensures x.capture ==> Captures(a)
    ensures r.capture ==> Captures(b)
    ensures CaptureTurnedOn(x, r) && !Captures(a) ==> forall y :: y in b && y.capture ==> y == r
    ensures x.capture ==> (Captures(b) ==> Captures(a))
  {
    if f != r.faceId || (inheritOnly && !x.childInherit && !r.childInherit) {
      CheapestCostByMembers(a, b, f, inheritOnly);
    }
    assert Matches(x, x.faceId, false) && Matches(r, r.faceId, false);
    assert r in b;
  }

  // ----------------------------------------------------------------- the entry itself

  lemma ReplacedSelfOp(e: RibEntry, r: Route, x: Route, f: FaceId, before: Option<nat>, a: seq<Route>)
    requires x in a && SameKey(x, r) && f == r.faceId && forall y :: y in e.routes <==> y == r || (y in a && y != x)
    requires before == CheapestCost(a, f, false)
    requires !ReadsMissingRoute(e, r, x)
    ensures Effect(before, ReplacedOp(e, r, x, Keep)) == CheapestCost(e.routes, f, false)
            <==> var low := CheapestCost(e.routes, f, false);
                 !(low.Some? && x.cost < low.value < r.cost && CheapestCost(e.routes, f, true) != low)
  {
    assert r in e.routes && Matches(r, f, false) && Matches(x, f, false);
    var low := CheapestCost(e.routes, f, false).value;
    if r.cost == x.cost || (low < r.cost && low <= x.cost) {
      LowestKept(a, e.routes, x, r, f, before.value, low);
    }
  }

  /** The lowest cost stays when neither route undercuts another one. */
  lemma LowestKept(a: seq<Route>, b: seq<Route>, x: Route, r: Route, f: FaceId, lowA: nat, lowB: nat)
    requires x in a && SameKey(x, r) && f == r.faceId && forall y :: y in b <==> y == r || (y in a && y != x)
    requires CheapestCost(a, f, false) == Some(lowA) && CheapestCost(b, f, false) == Some(lowB)
    requires r.cost == x.cost || (lowB < r.cost && lowB <= x.cost)
    ensures lowA == lowB
  {
    var ca, cb := Cheapest(a, f, false).value, Cheapest(b, f, false).value;
    assert Matches(r, f, false) && Matches(x, f, false);
    assert cb != r ==> cb in a;
    assert ca != x ==> ca in b;
    assert r in b;
  }

  lemma ReplacedSelfOwn(rib: RibTable, after: RibTable, n: Name, x: Route, r: Route)
    requires RouteReplaced(rib, after, n, x, r) && !ReadsMissingRoute(ReplaceRoute(rib[n], r), r, x)
    requires !rib[n].HasInherited(r.faceId)
    ensures var f := r.faceId;
            Effect(NextHop(rib, n, f), ReplacedState(rib, n, x, r, n, f).op) == NextHop(after, n, f)
            <==> !NotTheCheapest(rib, n, x, r, n, f)
    ensures !Reopened(rib, n, x, r, n, r.faceId)
  {
    var e := ReplaceRoute(rib[n], r);
    ReplacedMembers(rib[n], x, r);
    assert Matches(x, r.faceId, false) && Matches(r, r.faceId, false);
    assert HasRouteOn(e.routes, r.faceId, false) by { assert r in e.routes; }
    ReplacedSelfOp(e, r, x, r.faceId, NextHop(rib, n, r.faceId), rib[n].routes);
  }

  lemma ReplacedSelf(rib: RibTable, after: RibTable, n: Name, x: Route, r: Route, f: FaceId)
    requires RouteReplaced(rib, after, n, x, r) && CaptureExact(rib)
    requires !ReadsMissingRoute(ReplaceRoute(rib[n], r), r, x)
    requires rib[n].HasInherited(f) <==> Inherits(rib, n, f)
    ensures Effect(NextHop(rib, n, f), ReplacedState(rib, n, x, r, n, f).op) == NextHop(after, n, f)
            <==> !NotTheCheapest(rib, n, x, r, n, f) && !Reopened(rib, n, x, r, n, f)
  {
    if f == r.faceId {
      assert Matches(x, f, false);
      ReplacedSelfOwn(rib, after, n, x, r);
    } else {
      ReplacedMembers(rib[n], x, r);
      ReplacedFaces(rib[n].routes, ReplaceRoute(rib[n], r).routes, x, r, f, false);
      LocalChange(rib, after, n, n, f);
      AncestorRouteMeansInherit(rib, n, f);
    }
  }

  // ------------------------------------------------------------------- the subtree

  lemma ReplacedBelowOp(rib: RibTable, n: Name, e: RibEntry, x: Route, r: Route, d: Name, f: FaceId)
    requires n in rib && e == ReplaceRoute(rib[n], r)
    requires d in rib && n < d && PathClear(rib, n, d, f)
    ensures ReplacedState(rib, n, x, r, d, f).op ==
            var anc := AncestorRoute(rib, n, f);
            var add := ReplacedAdds(e, r, x, anc, f);
            if CaptureTurnedOn(x, r) && anc.Some? && rib[d].HasInherited(f) then Remove
            else if CaptureTurnedOff(x, r) && anc.Some? && !rib[d].HasFaceId(f) then Add(anc.value.cost)
            else if add.Some? && !rib[d].HasFaceId(f) then Add(add.value.cost)
            else if ReplacedRemoves(r, x, f) && rib[d].HasInherited(f) then Remove
            else Keep
  {
  }

  /** The routes and costs around an entry below `n` that the walks reach. */
  ghost predicate BelowReplaced(rib: RibTable, after: RibTable, n: Name, e: RibEntry, d: Name, f: FaceId) {
    && n in rib && d in rib && d in after && n < d && PathClear(rib, n, d, f)
    && after[d].routes == rib[d].routes && !Captures(rib[d].routes)
    && (rib[d].HasInherited(f) <==> Inherits(rib, d, f))
    && InheritCost(rib, d, f) == BelowCost(rib, n, f) && InheritCost(after, d, f) == BelowCost(after, n, f)
    && BelowCost(after, n, f) ==
       (if HasRouteOn(e.routes, f, true) then CheapestCost(e.routes, f, true)
        else if Captures(e.routes) then None
        else InheritCost(rib, n, f))
  }

  lemma BelowReplacedHolds(rib: RibTable, after: RibTable, n: Name, x: Route, r: Route, d: Name, f: FaceId)
    requires RouteReplaced(rib, after, n, x, r) && CaptureExact(rib)
    requires d in rib && n < d && PathClear(rib, n, d, f)
    requires rib[d].HasInherited(f) <==> Inherits(rib, d, f)
    ensures BelowReplaced(rib, after, n, ReplaceRoute(rib[n], r), d, f)
  {
    PathClearMeaning(rib, n, d, f);
    LocalChange(rib, after, n, d, f);
    LocalChange(rib, after, n, n, f);
  }

  lemma ReplacedBelowOther(rib: RibTable, after: RibTable, n: Name, e: RibEntry, x: Route, r: Route, d: Name, f: FaceId)
    requires n in rib && e == ReplaceRoute(rib[n], r) && BelowReplaced(rib, after, n, e, d, f) && f != r.faceId
    requires x in rib[n].routes && SameKey(x, r)
    requires forall y :: y in e.routes <==> y == r || (y in rib[n].routes && y != x)
    ensures Effect(NextHop(rib, d, f), ReplacedState(rib, n, x, r, d, f).op) == NextHop(after, d, f)
            <==> !ReplacedFaulty(rib, n, x, r, d, f)
  {
    ReplacedBelowOp(rib, n, e, x, r, d, f);
    AncestorRouteMeansInherit(rib, n, f);
    ReplacedFaces(rib[n].routes, e.routes, x, r, f, true);
  }

  lemma ReplacedBelowOwn(rib: RibTable, after: RibTable, n: Name, e: RibEntry, x: Route, r: Route, d: Name, f: FaceId)
    requires n in rib && e == ReplaceRoute(rib[n], r) && BelowReplaced(rib, after, n, e, d, f) && f == r.faceId
    requires x in rib[n].routes && SameKey(x, r)
    requires forall y :: y in e.routes <==> y == r || (y in rib[n].routes && y != x)
    ensures Effect(NextHop(rib, d, f), ReplacedState(rib, n, x, r, d, f).op) == NextHop(after, d, f)
            <==> !ReplacedFaulty(rib, n, x, r, d, f)
  {
    ReplacedBelowOp(rib, n, e, x, r, d, f);
    AncestorRouteMeansInherit(rib, n, f);
    ReplacedFaces(rib[n].routes, e.routes, x, r, f, true);
    if !rib[d].HasFaceId(f) {
      HandedDownCosts(rib[n].routes, e.routes, x, r, f);
    }
  }

  lemma HandedDownCosts(a: seq<Route>, b: seq<Route>, x: Route, r: Route, f: FaceId)
    requires x in a && SameKey(x, r) && f == r.faceId
    requires forall y :: y in b <==> y == r || (y in a && y != x)
    ensures r.childInherit ==>
        HasRouteOn(b, f, true) && (NotWorse(r, b, true) <==> CheapestCost(b, f, true) == Some(r.cost))
    ensures x.childInherit ==> HasRouteOn(a, f, true)
    ensures r.childInherit && !x.childInherit && !NotWorse(r, b, true) ==>
        CheapestCost(a, f, true) == CheapestCost(b, f, true)
    ensures r.childInherit && x.childInherit && r.cost == x.cost ==>
        CheapestCost(a, f, true) == CheapestCost(b, f, true)
    ensures !r.childInherit && HasRouteOn(b, f, true) ==> HasRouteOn(a, f, true)
  {
    assert r.childInherit ==> r in b && Matches(r, f, true);
    assert x.childInherit ==> Matches(x, f, true);
  }

  /** Registering a route again gives the recomputed next hop of a pair if and only if
      the pair is none of the faulty ones. */
  lemma ReplacedKeyCorrect(rib: RibTable, after: RibTable, n: Name, x: Route, r: Route, d: Name, f: FaceId)
    requires RouteReplaced(rib, after, n, x, r) && CaptureExact(rib)
    requires !ReadsMissingRoute(ReplaceRoute(rib[n], r), r, x)
    requires d in rib ==> (rib[d].HasInherited(f) <==> Inherits(rib, d, f))
    ensures Effect(NextHop(rib, d, f), ReplacedState(rib, n, x, r, d, f).op) == NextHop(after, d, f)
            <==> !ReplacedFaulty(rib, n, x, r, d, f)
  {
    if d == n {
      ReplacedSelf(rib, after, n, x, r, f);
    } else if d in rib && n < d && PathClear(rib, n, d, f) {
      BelowReplacedHolds(rib, after, n, x, r, d, f);
      ReplacedMembers(rib[n], x, r);
      if f == r.faceId {
        ReplacedBelowOwn(rib, after, n, ReplaceRoute(rib[n], r), x, r, d, f);
      } else {
        ReplacedBelowOther(rib, after, n, ReplaceRoute(rib[n], r), x, r, d, f);
      }
    } else {
      LocalChange(rib, after, n, d, f);
      if d in rib && n < d {
        PathClearMeaning(rib, n, d, f);
      }
    }
  }

  /** Registering a route again with another cost or other flags gives the FIB
      recomputed from scratch if and only if no pair is faulty. */
  lemma ReplacedAgreement(rib: RibTable, after: RibTable, n: Name, x: Route, r: Route)
    requires RouteReplaced(rib, after, n, x, r) && CaptureExact(rib) && RecordsExact(rib)
    requires !ReadsMissingRoute(ReplaceRoute(rib[n], r), r, x)
    ensures (forall d, f :: Effect(NextHop(rib, d, f), ReplacedState(rib, n, x, r, d, f).op) == NextHop(after, d, f))
            <==> (forall d, f :: !ReplacedFaulty(rib, n, x, r, d, f))
  {
    forall d, f
      ensures Effect(NextHop(rib, d, f), ReplacedState(rib, n, x, r, d, f).op) == NextHop(after, d, f)
              <==> !ReplacedFaulty(rib, n, x, r, d, f)
    {
      ReplacedKeyCorrect(rib, after, n, x, r, d, f);
    }
  }

  // --------------------------------------------------------------------- the records

  /** An ancestor's route is recorded although another route of the entry captures. */
  ghost predicate Phantom(rib: RibTable, n: Name, x: Route, r: Route, d: Name, f: FaceId) {
    && n in rib && AncestorRoute(rib, n, f).Some?
    && var e := ReplaceRoute(rib[n], r);
       && Captures(e.routes)
       && if d == n then CaptureTurnedOff(x, r) && !e.HasFaceId(f)
          else
            && Takes(rib, n, d, f) && !HasRouteOn(e.routes, f, true)
            && (CaptureTurnedOff(x, r) || (ReplacedRemoves(r, x, f) && !CaptureTurnedOn(x, r)))
  }

  /** The face is withdrawn although the entry hands it down, and not given again. */
  ghost predicate Lost(rib: RibTable, n: Name, x: Route, r: Route, d: Name, f: FaceId) {
    && Shut(rib, n, x, r, d, f)
    && !(f == r.faceId && r.childInherit && !x.childInherit && NotWorse(r, ReplaceRoute(rib[n], r).routes, true))
  }

  /** A face is withdrawn from an entry that recorded it more than once. */
  ghost predicate ReplacedDoubled(rib: RibTable, n: Name, x: Route, r: Route, d: Name, f: FaceId) {
    && n in rib && RecordCount(rib, d, f) > 1
    && var e, anc := ReplaceRoute(rib[n], r), AncestorRoute(rib, n, f);
       if d == n then CaptureTurnedOn(x, r) && anc.Some?
       else
         && Takes(rib, n, d, f)
         && if CaptureTurnedOn(x, r) && anc.Some? then ReplacedRemoves(r, x, f) || ReplacedAdds(e, r, x, anc, f).None?
            else ReplacedRemoves(r, x, f) && anc.None? && !HasRouteOn(e.routes, f, true)
  }

  ghost predicate ReplacedRecordsFaulty(rib: RibTable, n: Name, x: Route, r: Route, d: Name, f: FaceId) {
    || Phantom(rib, n, x, r, d, f)
    || (Lost(rib, n, x, r, d, f) <==> !ReplacedDoubled(rib, n, x, r, d, f))
  }

  lemma ReplacedRecordsSelf(rib: RibTable, after: RibTable, n: Name, x: Route, r: Route, f: FaceId)
    requires RouteReplaced(rib, after, n, x, r) && CaptureExact(rib) && RecordsExact(rib)
    ensures RecordsRight(rib, after, ReplacedState(rib, n, x, r, n, f), n, f)
            <==> !ReplacedRecordsFaulty(rib, n, x, r, n, f)
  {
    var e := ReplaceRoute(rib[n], r);
    ReplacedMembers(rib[n], x, r);
    ReplacedFaces(rib[n].routes, e.routes, x, r, f, false);
    LocalChange(rib, after, n, n, f);
    AncestorRouteMeansInherit(rib, n, f);
    RecordCountMeaning(rib, n, f);
  }

  lemma ReplacedBelowState(rib: RibTable, n: Name, e: RibEntry, x: Route, r: Route, d: Name, f: FaceId)
    requires n in rib && e == ReplaceRoute(rib[n], r)
    requires d in rib && n < d && PathClear(rib, n, d, f)
    ensures var k := ReplacedState(rib, n, x, r, d, f);
            var anc := AncestorRoute(rib, n, f);
            var inherited, own := rib[d].HasInherited(f), rib[d].HasFaceId(f);
            && k.unregs == (if ReplacedRemoves(r, x, f) && inherited then 1 else 0)
                           + (if CaptureTurnedOn(x, r) && anc.Some? && inherited then 1 else 0)
            && k.regs == (if ReplacedAdds(e, r, x, anc, f).Some? && !own then 1 else 0)
                         + (if CaptureTurnedOff(x, r) && anc.Some? && !own then 1 else 0)
            && (k.need > 0 ==> inherited) && (!own ==> k.need <= 1)
  {
  }

  lemma ReplacedRecordsBelow(rib: RibTable, after: RibTable, n: Name, x: Route, r: Route, d: Name, f: FaceId)
    requires RouteReplaced(rib, after, n, x, r) && CaptureExact(rib) && RecordsExact(rib)
    requires d in rib && n < d && PathClear(rib, n, d, f)
    ensures RecordsRight(rib, after, ReplacedState(rib, n, x, r, d, f), d, f)
            <==> !ReplacedRecordsFaulty(rib, n, x, r, d, f)
  {
    var e := ReplaceRoute(rib[n], r);
    RecordCountMeaning(rib, d, f);
    BelowReplacedHolds(rib, after, n, x, r, d, f);
    ReplacedMembers(rib[n], x, r);
    ReplacedFaces(rib[n].routes, e.routes, x, r, f, true);
    if f == r.faceId {
      HandedDownCosts(rib[n].routes, e.routes, x, r, f);
    }
    if rib[d].HasFaceId(f) {
      ReplacedOwnFace(rib, after, n, e, x, r, d, f);
    } else {
      ReplacedBelowCount(rib, after, n, e, x, r, d, f);
    }
  }

  lemma ReplacedOwnFace(rib: RibTable, after: RibTable, n: Name, e: RibEntry, x: Route, r: Route, d: Name, f: FaceId)
    requires n in rib && e == ReplaceRoute(rib[n], r) && BelowReplaced(rib, after, n, e, d, f) && rib[d].HasFaceId(f)
    requires RecordCount(rib, d, f) > 0 <==> Inherits(rib, d, f)
    ensures RecordsRight(rib, after, ReplacedState(rib, n, x, r, d, f), d, f)
    ensures !ReplacedRecordsFaulty(rib, n, x, r, d, f)
  {
    OwnFaceNeverInherits(rib, after, n, e, d, f);
    ReplacedBelowState(rib, n, e, x, r, d, f);
    NothingOnOwnFace(rib, after, ReplacedState(rib, n, x, r, d, f), d, f);
    assert d != n && !Takes(rib, n, d, f);
  }

  lemma OwnFaceNeverInherits(rib: RibTable, after: RibTable, n: Name, e: RibEntry, d: Name, f: FaceId)
    requires BelowReplaced(rib, after, n, e, d, f) && rib[d].HasFaceId(f)
    ensures d in after && !Inherits(rib, d, f) && !Inherits(after, d, f) && !rib[d].HasInherited(f)
  {
  }

  lemma NothingOnOwnFace(rib: RibTable, after: RibTable, k: KeyState, d: Name, f: FaceId)
    requires d in after && !Inherits(after, d, f) && RecordCount(rib, d, f) == 0
    requires k.regs == k.unregs == k.need == 0
    ensures RecordsRight(rib, after, k, d, f)
  {
  }

  /** What the cases of an entry below `n` start from. */
  ghost predicate ReplacedFacts(rib: RibTable, n: Name, e: RibEntry, x: Route, r: Route, f: FaceId) {
    && n in rib && e == ReplaceRoute(rib[n], r)
    && (x.capture ==> Captures(rib[n].routes))
    && (r.capture ==> Captures(e.routes))
    && (x.capture == r.capture ==> (Captures(rib[n].routes) <==> Captures(e.routes)))
    && var before, now := HasRouteOn(rib[n].routes, f, true), HasRouteOn(e.routes, f, true);
       if f != r.faceId then before <==> now
       else
         && (!x.childInherit && !r.childInherit ==> (before <==> now))
         && (r.childInherit ==> now) && (x.childInherit ==> before)
         && (r.childInherit && !x.childInherit && !NotWorse(r, e.routes, true) ==> before)
         && (!r.childInherit && now ==> before)
  }

  /** The faults of a pair without an own route, spelled out. */
  lemma ReplacedFaultsBelow(rib: RibTable, n: Name, e: RibEntry, x: Route, r: Route, d: Name, f: FaceId)
    requires n in rib && e == ReplaceRoute(rib[n], r) && Takes(rib, n, d, f)
    ensures var anc := AncestorRoute(rib, n, f);
            var before, now := HasRouteOn(rib[n].routes, f, true), HasRouteOn(e.routes, f, true);
            var off, on := CaptureTurnedOff(x, r), CaptureTurnedOn(x, r);
            && (Phantom(rib, n, x, r, d, f) <==>
                anc.Some? && Captures(e.routes) && !now && (off || (ReplacedRemoves(r, x, f) && !on)))
            && (Lost(rib, n, x, r, d, f) <==>
                && on && anc.Some? && now && (before || !Captures(rib[n].routes))
                && !(f == r.faceId && r.childInherit && !x.childInherit && NotWorse(r, e.routes, true)))
            && (ReplacedDoubled(rib, n, x, r, d, f) <==>
                && RecordCount(rib, d, f) > 1
                && if on && anc.Some? then ReplacedRemoves(r, x, f) || ReplacedAdds(e, r, x, anc, f).None?
                   else ReplacedRemoves(r, x, f) && anc.None? && !now)
  {
  }

  lemma InheritsBelow(rib: RibTable, after: RibTable, n: Name, e: RibEntry, d: Name, f: FaceId)
    requires BelowReplaced(rib, after, n, e, d, f) && !rib[d].HasFaceId(f)
    ensures Inherits(after, d, f) <==>
            HasRouteOn(e.routes, f, true) || (!Captures(e.routes) && AncestorRoute(rib, n, f).Some?)
    ensures Inherits(rib, d, f) <==>
            HasRouteOn(rib[n].routes, f, true) || (!Captures(rib[n].routes) && AncestorRoute(rib, n, f).Some?)
  {
    AncestorRouteMeansInherit(rib, n, f);
  }

  predicate GivesAgain(e: RibEntry, r: Route, x: Route) {
    (!x.childInherit || (SameFlags(r, x) && r.cost != x.cost)) && NotWorse(r, e.routes, true)
  }

  lemma AddsMeaning(e: RibEntry, r: Route, x: Route, anc: Option<Route>, f: FaceId)
    ensures ReplacedAdds(e, r, x, anc, f).Some? <==>
            && f == r.faceId
            && if r.childInherit then GivesAgain(e, r, x)
               else x.childInherit && (HasRouteOn(e.routes, f, true) || anc.Some?)
  {
  }

  lemma ReplacedBelowCount(rib: RibTable, after: RibTable, n: Name, e: RibEntry, x: Route, r: Route, d: Name, f: FaceId)
    requires ReplacedFacts(rib, n, e, x, r, f) && BelowReplaced(rib, after, n, e, d, f) && !rib[d].HasFaceId(f)
    requires RecordCount(rib, d, f) > 0 <==> Inherits(rib, d, f)
    ensures RecordsRight(rib, after, ReplacedState(rib, n, x, r, d, f), d, f)
            <==> !ReplacedRecordsFaulty(rib, n, x, r, d, f)
  {
    ReplacedBelowState(rib, n, e, x, r, d, f);
    InheritsBelow(rib, after, n, e, d, f);
    AddsMeaning(e, r, x, AncestorRoute(rib, n, f), f);
    ReplacedFaultsBelow(rib, n, e, x, r, d, f);
    ReplacedCount(rib, after, n, e, x, r, d, f, ReplacedState(rib, n, x, r, d, f),
                  Facts(HasRouteOn(rib[n].routes, f, true), HasRouteOn(e.routes, f, true),
                        Captures(rib[n].routes), Captures(e.routes), AncestorRoute(rib, n, f).Some?));
  }

  /** What decides the count of a pair: whether the entry handed the face down and
      captured before, and does now, and whether an ancestor hands the face down. */
  datatype Facts = Facts(before: bool, now: bool, capturedBefore: bool, capturedNow: bool, anc: bool)

  predicate FactsFit(v: Facts, own: bool, x: Route, r: Route, notWorse: bool) {
    && (x.capture ==> v.capturedBefore) && (r.capture ==> v.capturedNow)
    && (x.capture == r.capture ==> v.capturedBefore == v.capturedNow)
    && if !own then v.before == v.now
       else
         && (!x.childInherit && !r.childInherit ==> v.before == v.now)
         && (r.childInherit ==> v.now) && (x.childInherit ==> v.before)
         && (r.childInherit && !x.childInherit && !notWorse ==> v.before)
         && (!r.childInherit && v.now ==> v.before)
  }

  lemma ReplacedCount(rib: RibTable, after: RibTable, n: Name, e: RibEntry, x: Route, r: Route, d: Name, f: FaceId,
                      k: KeyState, v: Facts)
    requires d in after && FactsFit(v, f == r.faceId, x, r, NotWorse(r, e.routes, true))
    requires RecordCount(rib, d, f) > 0 <==> v.before || (!v.capturedBefore && v.anc)
    requires Inherits(after, d, f) <==> v.now || (!v.capturedNow && v.anc)
    requires var c := RecordCount(rib, d, f);
             var adds := f == r.faceId && if r.childInherit then GivesAgain(e, r, x)
                 else x.childInherit && (v.now || v.anc);
             && k.unregs == (if ReplacedRemoves(r, x, f) && c > 0 then 1 else 0)
                            + (if CaptureTurnedOn(x, r) && v.anc && c > 0 then 1 else 0)
             && k.regs == (if adds then 1 else 0) + (if CaptureTurnedOff(x, r) && v.anc then 1 else 0)
             && (k.need > 0 ==> c > 0) && k.need <= 1
             && (ReplacedDoubled(rib, n, x, r, d, f) <==>
                 && c > 1
                 && if CaptureTurnedOn(x, r) && v.anc then ReplacedRemoves(r, x, f) || !adds
                    else ReplacedRemoves(r, x, f) && !v.anc && !v.now)
    requires Phantom(rib, n, x, r, d, f) <==>
             && v.anc && v.capturedNow && !v.now
             && (CaptureTurnedOff(x, r) || (ReplacedRemoves(r, x, f) && !CaptureTurnedOn(x, r)))
    requires Lost(rib, n, x, r, d, f) <==>
             && CaptureTurnedOn(x, r) && v.anc && v.now && (v.before || !v.capturedBefore)
             && !(f == r.faceId && r.childInherit && !x.childInherit && NotWorse(r, e.routes, true))
    ensures RecordsRight(rib, after, k, d, f) <==> !ReplacedRecordsFaulty(rib, n, x, r, d, f)
  {
    CountLogic(RecordCount(rib, d, f), k.regs, k.unregs, f == r.faceId, x, r,
               GivesAgain(e, r, x), NotWorse(r, e.routes, true), v);
  }

  /** The count of a pair after the records are applied, against what it should be. */
  lemma CountLogic(c: nat, regs: nat, unregs: nat, own: bool, x: Route, r: Route, gives: bool, notWorse: bool, v: Facts)
    requires FactsFit(v, own, x, r, notWorse) && (c > 0 <==> v.before || (!v.capturedBefore && v.anc))
    requires gives <==> (!x.childInherit || (SameFlags(r, x) && r.cost != x.cost)) && notWorse
    requires var removes := own && x.childInherit && !r.childInherit;
             var adds := own && if r.childInherit then gives else x.childInherit && (v.now || v.anc);
             && unregs ==
                 (if removes && c > 0 then 1 else 0) + (if CaptureTurnedOn(x, r) && v.anc && c > 0 then 1 else 0)
             && regs == (if adds then 1 else 0) + (if CaptureTurnedOff(x, r) && v.anc then 1 else 0)
    ensures var removes := own && x.childInherit && !r.childInherit;
            var adds := own && if r.childInherit then gives else x.childInherit && (v.now || v.anc);
            var on := CaptureTurnedOn(x, r);
            var phantom := v.anc && v.capturedNow && !v.now && (CaptureTurnedOff(x, r) || (removes && !on));
            var lost := && on && v.anc && v.now && (v.before || !v.capturedBefore)
                        && !(own && r.childInherit && !x.childInherit && notWorse);
            var doubled := c > 1 && if on && v.anc then removes || !adds else removes && !v.anc && !v.now;
            (c + regs - unregs > 0 <==> v.now || (!v.capturedNow && v.anc)) <==> !phantom && (lost <==> doubled)
  {
  }

  /** Registering a route again leaves the records of a pair right if and only if none is
      recorded through a capture, and a face is lost wrongly exactly where it was recorded
      more than once. Two removals may be pending for one record, but then a new record
      comes between them, so that each finds one at its turn. */
  lemma ReplacedRecords(rib: RibTable, after: RibTable, n: Name, x: Route, r: Route, d: Name, f: FaceId)
    requires RouteReplaced(rib, after, n, x, r) && CaptureExact(rib) && RecordsExact(rib)
    ensures RecordsRight(rib, after, ReplacedState(rib, n, x, r, d, f), d, f)
            <==> !ReplacedRecordsFaulty(rib, n, x, r, d, f)
    ensures ReplacedState(rib, n, x, r, d, f).need <= RecordCount(rib, d, f)
  {
    RemovalsFit(rib, n, x, r, d, f);
    if d == n {
      ReplacedRecordsSelf(rib, after, n, x, r, f);
    } else if d in rib && n < d && PathClear(rib, n, d, f) {
      ReplacedRecordsBelow(rib, after, n, x, r, d, f);
    } else {
      RecordCountMeaning(rib, d, f);
      ElsewhereInherits(rib, after, n, d, f);
    }
  }

  lemma RemovalsFit(rib: RibTable, n: Name, x: Route, r: Route, d: Name, f: FaceId)
    requires n in rib && CaptureExact(rib) && RecordsExact(rib)
    ensures ReplacedState(rib, n, x, r, d, f).need <= RecordCount(rib, d, f)
  {
    RecordCountMeaning(rib, d, f);
    if d in rib && n < d && PathClear(rib, n, d, f) {
      ReplacedBelowState(rib, n, ReplaceRoute(rib[n], r), x, r, d, f);
    }
  }
}
