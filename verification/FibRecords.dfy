/** The inherited-route lists after a RIB change: do they again record exactly what
    the FIB holds by inheritance? */
module FibRecords {
  import opened Options
  import opened RibEntries
  import opened RibTrees
  import opened FibSpec
  import opened FibDeltas
  import opened FibAgreement

  function CountOn(routes: seq<Route>, f: FaceId): nat {
    if routes == [] then 0
    else CountOn(routes[..|routes| - 1], f) + (if routes[|routes| - 1].faceId == f then 1 else 0)
  }

  lemma {:induction false} CountOnPositive(routes: seq<Route>, f: FaceId)
    ensures CountOn(routes, f) > 0 <==> HasRouteOn(routes, f, false)
  {
    if routes != [] {
      var init, last := routes[..|routes| - 1], routes[|routes| - 1];
      CountOnPositive(init, f);
      assert forall r :: r in routes <==> r in init || r == last;
      assert Matches(last, last.faceId, false);
    }
  }

  /** Number of records on a face; a name without an entry has none. */
  function RecordCount(rib: RibTable, n: Name, f: FaceId): nat {
    if n in rib then CountOn(rib[n].inherited, f) else 0
  }

  /** The number of records once the pending ones are applied. */
  function CountAfter(before: nat, k: KeyState): int { before + k.regs - k.unregs }

  /** The pending records can be applied and leave the list right about the pair. */
  ghost predicate RecordsRight(rib: RibTable, after: RibTable, k: KeyState, d: Name, f: FaceId) {
    var c := RecordCount(rib, d, f);
    && k.need <= c
    && if d in after then CountAfter(c, k) > 0 <==> Inherits(after, d, f) else k.regs == k.unregs == 0
  }

  // The walk adds a record even where one exists, but a removal takes away only one. The
  // next three predicates say when a face is withdrawn from an entry that recorded it
  // more than once.

  /** A new name that captures withdraws an ancestor's face from its subtree. */
  ghost predicate NameDoubled(rib: RibTable, n: Name, r: Route, d: Name, f: FaceId) {
    && Takes(rib, n, d, f) && RecordCount(rib, d, f) > 1
    && r.capture && AncestorRoute(rib, n, f).Some? && !(r.childInherit && f == r.faceId)
  }

  /** A new route that turns capture on withdraws it from the entry and its subtree. */
  ghost predicate RouteDoubled(rib: RibTable, n: Name, r: Route, d: Name, f: FaceId) {
    && n in rib && RecordCount(rib, d, f) > 1
    && !rib[n].HasCapture() && r.capture && AncestorRoute(rib, n, f).Some?
    && (d == n || (Takes(rib, n, d, f) && NewRouteAdds(rib[n], r, f).None?))
  }

  /** An erased route is withdrawn, and nothing is handed down in its place. */
  ghost predicate ErasedDoubled(rib: RibTable, n: Name, x: Route, next: Option<Route>, d: Name, f: FaceId) {
    && n in rib && Takes(rib, n, d, f) && RecordCount(rib, d, f) > 1
    && x.childInherit && f == x.faceId
    && var rest := EraseRoute(rib[n], x);
       !HandsDownNext(rest, next, f) && (Captures(rest.routes) || AncestorRoute(rib, n, f).None?)
  }

  lemma RecordCountMeaning(rib: RibTable, d: Name, f: FaceId)
    requires RecordsExact(rib)
    ensures RecordCount(rib, d, f) > 0 <==> Inherits(rib, d, f)
    ensures d in rib ==> (rib[d].HasInherited(f) <==> Inherits(rib, d, f))
  {
    if d in rib {
      CountOnPositive(rib[d].inherited, f);
      assert rib[d].HasInherited(f) <==> Inherits(rib, d, f);
    }
  }

  lemma NewEntryRecordsBelow(rib: RibTable, after: RibTable, n: Name, r: Route, d: Name, f: FaceId)
    requires NewEntryInserted(rib, after, n, r)
    requires CaptureExact(rib) && RecordsExact(rib)
    requires d in rib && n < d && PathClear(rib, n, d, f)
    ensures RecordsRight(rib, after, NewEntryKey(rib, n, r, d, f), d, f)
            <==> !NameDoubled(rib, n, r, d, f)
  {
    RecordCountMeaning(rib, d, f);
    PathClearMeaning(rib, n, d, f);
    LocalChange(rib, after, n, d, f);
    AncestorRouteMeansInherit(rib, n, f);
    SingleRoute(after[n].routes, r, f);
  }

  lemma SingleRoute(routes: seq<Route>, r: Route, f: FaceId)
    requires routes == [r]
    ensures HasRouteOn(routes, f, false) <==> r.faceId == f
    ensures HasRouteOn(routes, f, true) <==> r.faceId == f && r.childInherit
    ensures Captures(routes) <==> r.capture
  {
  }

  /** A new name leaves the lists right if and only if no face is withdrawn from an
      entry that recorded it more than once. */
  lemma NewEntryRecords(rib: RibTable, after: RibTable, n: Name, r: Route, d: Name, f: FaceId)
    requires NewEntryInserted(rib, after, n, r)
    requires CaptureExact(rib) && RecordsExact(rib)
    ensures RecordsRight(rib, after, NewEntryKey(rib, n, r, d, f), d, f)
            <==> !NameDoubled(rib, n, r, d, f)
  {
    if d == n {
      LocalChange(rib, after, n, n, f);
      AncestorRouteMeansInherit(rib, n, f);
      SingleRoute(after[n].routes, r, f);
    } else if d in rib && n < d && PathClear(rib, n, d, f) {
      NewEntryRecordsBelow(rib, after, n, r, d, f);
    } else {
      RecordCountMeaning(rib, d, f);
      ElsewhereInherits(rib, after, n, d, f);
    }
  }

  /** The entry gets its own route on a face it inherits: the record of the
      inherited route stays behind. */
  ghost predicate Stale(rib: RibTable, n: Name, r: Route, d: Name, f: FaceId) {
    d == n && f == r.faceId && Inherits(rib, n, f) && !r.capture
  }

  ghost function NewRouteState(rib: RibTable, n: Name, r: Route, d: Name, f: FaceId): KeyState
    requires n in rib
  {
    NewRouteKey(rib, n, rib[n], r, !rib[n].HasCapture() && r.capture, d, f, NOTHING)
  }

  lemma NewRouteRecordsSelf(rib: RibTable, after: RibTable, n: Name, r: Route, f: FaceId)
    requires NewRouteInserted(rib, after, n, r)
    requires CaptureExact(rib) && RecordsExact(rib)
    ensures RecordsRight(rib, after, NewRouteState(rib, n, r, n, f), n, f)
            <==> !Stale(rib, n, r, n, f) && !RouteDoubled(rib, n, r, n, f)
  {
    RecordCountMeaning(rib, n, f);
    LocalChange(rib, after, n, n, f);
    AncestorRouteMeansInherit(rib, n, f);
    AppendedMembers(rib[n].routes, r, f, false);
  }

  lemma NewRouteRecordsBelow(rib: RibTable, after: RibTable, n: Name, r: Route, d: Name, f: FaceId)
    requires NewRouteInserted(rib, after, n, r)
    requires CaptureExact(rib) && RecordsExact(rib)
    requires d in rib && n < d && PathClear(rib, n, d, f)
    ensures RecordsRight(rib, after, NewRouteState(rib, n, r, d, f), d, f)
            <==> (Withdrawn(rib, n, r, d, f) <==> RouteDoubled(rib, n, r, d, f))
  {
    RecordCountMeaning(rib, d, f);
    PathClearMeaning(rib, n, d, f);
    LocalChange(rib, after, n, d, f);
    AncestorRouteMeansInherit(rib, n, f);
    NewRouteBelowCost(rib, after, n, r, f);
  }

  /** A new route on an entry leaves the lists right if and only if the entry did not
      inherit the face of the route, and a face is withdrawn wrongly exactly where
      it was recorded more than once. */
  lemma NewRouteRecords(rib: RibTable, after: RibTable, n: Name, r: Route, d: Name, f: FaceId)
    requires NewRouteInserted(rib, after, n, r)
    requires CaptureExact(rib) && RecordsExact(rib)
    ensures RecordsRight(rib, after, NewRouteState(rib, n, r, d, f), d, f)
            <==> !Stale(rib, n, r, d, f)
                 && (Withdrawn(rib, n, r, d, f) <==> RouteDoubled(rib, n, r, d, f))
  {
    if d == n {
      NewRouteRecordsSelf(rib, after, n, r, f);
    } else if d in rib && n < d && PathClear(rib, n, d, f) {
      NewRouteRecordsBelow(rib, after, n, r, d, f);
    } else {
      RecordCountMeaning(rib, d, f);
      NewRouteElsewhere(rib, after, n, r, d, f);
      ElsewhereInherits(rib, after, n, d, f);
    }
  }

  lemma ElsewhereInherits(rib: RibTable, after: RibTable, n: Name, d: Name, f: FaceId)
    requires SameElsewhere(rib, after, n) && CaptureExact(rib)
    requires d != n && !(d in rib && n < d && PathClear(rib, n, d, f))
    ensures Inherits(rib, d, f) <==> Inherits(after, d, f)
  {
    LocalChange(rib, after, n, d, f);
    if d in rib && n < d {
      PathClearMeaning(rib, n, d, f);
    }
  }

  /** The entry still has a route of its own on the face, but the ancestor's route is
      recorded as inherited. */
  ghost predicate Superfluous(rib: RibTable, n: Name, x: Route, next: Option<Route>, d: Name, f: FaceId) {
    && n in rib && d == n && f == x.faceId && next.Some?
    && !Captures(EraseRoute(rib[n], x).routes) && AncestorRoute(rib, n, f).Some?
  }

  /** The erased route is recorded once more although nothing hands the face down. */
  ghost predicate Orphaned(rib: RibTable, n: Name, x: Route, next: Option<Route>, d: Name, f: FaceId) {
    && HandedBack(rib, n, x, next, d, f)
    && var rest := EraseRoute(rib[n], x);
       !HasRouteOn(rest.routes, f, true) && (Captures(rest.routes) || AncestorRoute(rib, n, f).None?)
  }

  ghost function UnregisterState(rib: RibTable, n: Name, x: Route, next: Option<Route>, d: Name, f: FaceId): KeyState
    requires n in rib
  {
    UnregisterKey(rib, n, rib[n], x, next, d, f)
  }

  lemma UnregisterSelfState(rib: RibTable, n: Name, rest: RibEntry, x: Route, next: Option<Route>, f: FaceId)
    requires n in rib && rest == EraseRoute(rib[n], x)
    ensures var k := UnregisterState(rib, n, x, next, n, f);
            var anc := AncestorRoute(rib, n, f);
            && k.unregs == k.need == 0
            && (k.regs > 0 <==>
                  && anc.Some?
                  && ( || (x.capture && rib[n].HasCapture() && !rest.HasCapture() && !rest.HasFaceId(f))
                       || (!rest.HasCapture() && rest.routes != [] && f == x.faceId)))
  {
  }

  lemma UnregisterRecordsSelf(rib: RibTable, after: RibTable, n: Name, x: Route, next: Option<Route>, f: FaceId)
    requires ErasedInOrder(rib, after, n, x, next)
    requires CaptureExact(rib) && RecordsExact(rib)
    ensures RecordsRight(rib, after, UnregisterState(rib, n, x, next, n, f), n, f)
            <==> !LeftBehind(rib, n, x, n, f) && !Superfluous(rib, n, x, next, n, f)
    ensures !ErasedDoubled(rib, n, x, next, n, f)
  {
    var e := rib[n];
    var rest := EraseRoute(e, x);
    RecordCountMeaning(rib, n, f);
    ErasedRoutes(e, x);
    SecondMeaning(e.routes, rest.routes, x, x.faceId, next);
    UnregisterSelfState(rib, n, rest, x, next, f);
    LocalChange(rib, after, n, n, f);
    if f != x.faceId {
      CheapestCostByMembers(e.routes, rest.routes, f, false);
    }
    SelfCount(rib, after, n, rest, x, next, f, UnregisterState(rib, n, x, next, n, f));
  }

  lemma SelfCount(rib: RibTable, after: RibTable, n: Name, rest: RibEntry, x: Route, next: Option<Route>, f: FaceId,
                  k: KeyState)
    requires n in rib && rest == EraseRoute(rib[n], x) && x in rib[n].routes
    requires InheritCost(rib, n, f) == InheritCost(after, n, f)
    requires |rest.routes| == |rib[n].routes| - 1
    requires if rest.routes == [] then n !in after else n in after && after[n].routes == rest.routes
    requires rest.HasCapture() <==> Captures(rest.routes)
    requires rib[n].HasCapture() <==> Captures(rib[n].routes)
    requires Captures(rib[n].routes) <==> x.capture || Captures(rest.routes)
    requires f != x.faceId ==> (HasRouteOn(rib[n].routes, f, false) <==> HasRouteOn(rest.routes, f, false))
    requires next.Some? <==> HasRouteOn(rest.routes, x.faceId, false)
    requires RecordCount(rib, n, f) > 0 <==> Inherits(rib, n, f)
    requires k.unregs == k.need == 0
    requires k.regs > 0 <==>
               && AncestorRoute(rib, n, f).Some?
               && ( || (x.capture && rib[n].HasCapture() && !rest.HasCapture() && !rest.HasFaceId(f))
                    || (!rest.HasCapture() && rest.routes != [] && f == x.faceId))
    ensures RecordsRight(rib, after, k, n, f) <==> !LeftBehind(rib, n, x, n, f) && !Superfluous(rib, n, x, next, n, f)
  {
    AncestorRouteMeansInherit(rib, n, f);
    assert HasRouteOn(rib[n].routes, x.faceId, false) by { assert Matches(x, x.faceId, false); }
  }

  lemma UnregisterRecordsBelow(rib: RibTable, after: RibTable, n: Name, x: Route, next: Option<Route>, d: Name,
                               f: FaceId)
    requires ErasedInOrder(rib, after, n, x, next)
    requires CaptureExact(rib) && RecordsExact(rib)
    requires d in rib && n < d && PathClear(rib, n, d, f)
    ensures RecordsRight(rib, after, UnregisterState(rib, n, x, next, d, f), d, f)
            <==> !Orphaned(rib, n, x, next, d, f)
                 && (Dropped(rib, n, x, next, d, f) <==> ErasedDoubled(rib, n, x, next, d, f))
  {
    var rest := EraseRoute(rib[n], x);
    RecordCountMeaning(rib, d, f);
    BelowFactsHold(rib, after, n, x, next, d, f);
    if HandsDownNext(rest, next, f) {
      HandedDownNext(rib[n], x, next, f);
    }
    BelowCount(rib, after, n, rest, x, next, d, f);
  }

  lemma BelowCount(rib: RibTable, after: RibTable, n: Name, rest: RibEntry, x: Route, next: Option<Route>, d: Name,
                   f: FaceId)
    requires BelowFacts(rib, after, n, rest, x, d, f)
    requires HandsDownNext(rest, next, f) && next != Some(x) ==>
        CheapestCost(rest.routes, f, true) == Some(next.value.cost)
    requires RecordCount(rib, d, f) > 0 <==> Inherits(rib, d, f)
    ensures RecordsRight(rib, after, UnregisterState(rib, n, x, next, d, f), d, f)
            <==> !Orphaned(rib, n, x, next, d, f)
                 && (Dropped(rib, n, x, next, d, f) <==> ErasedDoubled(rib, n, x, next, d, f))
  {
    UnregisterBelowState(rib, n, rest, x, next, d, f);
    AncestorRouteMeansInherit(rib, n, f);
  }

  /** Unregistering leaves the lists right if and only if nothing is left behind on an
      erased name, recorded beside an own route or recorded without a source, and a
      face is dropped wrongly exactly where it was recorded more than once. */
  lemma UnregisterRecords(rib: RibTable, after: RibTable, n: Name, x: Route, next: Option<Route>, d: Name, f: FaceId)
    requires ErasedInOrder(rib, after, n, x, next)
    requires CaptureExact(rib) && RecordsExact(rib)
    ensures RecordsRight(rib, after, UnregisterState(rib, n, x, next, d, f), d, f)
            <==> && !LeftBehind(rib, n, x, d, f) && !Superfluous(rib, n, x, next, d, f)
                 && !Orphaned(rib, n, x, next, d, f)
                 && (Dropped(rib, n, x, next, d, f) <==> ErasedDoubled(rib, n, x, next, d, f))
  {
    RecordFaultPlaces(rib, n, x, next, d, f);
    if d == n {
      UnregisterRecordsSelf(rib, after, n, x, next, f);
    } else if d in rib && n < d && PathClear(rib, n, d, f) {
      UnregisterRecordsBelow(rib, after, n, x, next, d, f);
    } else {
      assert !Takes(rib, n, d, f);
      RecordCountMeaning(rib, d, f);
      ElsewhereInherits(rib, after, n, d, f);
      UnregisterElsewhereState(rib, n, x, next, d, f);
    }
  }

  lemma RecordFaultPlaces(rib: RibTable, n: Name, x: Route, next: Option<Route>, d: Name, f: FaceId)
    ensures d != n ==> !LeftBehind(rib, n, x, d, f) && !Superfluous(rib, n, x, next, d, f)
    ensures !Takes(rib, n, d, f) ==>
              !Orphaned(rib, n, x, next, d, f) && !Dropped(rib, n, x, next, d, f) &&
                  !ErasedDoubled(rib, n, x, next, d, f)
    ensures d == n ==> !Takes(rib, n, d, f)
  {
  }

  lemma UnregisterElsewhereState(rib: RibTable, n: Name, x: Route, next: Option<Route>, d: Name, f: FaceId)
    requires n in rib && d != n && !(d in rib && n < d && PathClear(rib, n, d, f))
    ensures UnregisterState(rib, n, x, next, d, f) == NOTHING
  {
  }
}
