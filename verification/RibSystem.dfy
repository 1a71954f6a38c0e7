/** What one whole update of the daemon does to RIB, records and FIB, and exactly when
    everything is consistent again afterwards. */
module RibSystem {
  import opened Options
  import opened RibEntries
  import opened RibTrees
  import opened FibSpec
  import opened FibDeltas
  import opened FibAgreement
  import opened FibRecords
  import opened FibReplaced
  import opened FibUpdaters
  import opened FibCommit
  import opened RibStore

  ghost predicate EntriesExact(rib: RibTable) {
    forall n :: n in rib ==> EntryExact(rib[n])
  }

  ghost predicate EntryExact(e: RibEntry) {
    CounterExact(e) && UniqueRoutes(e.routes) && e.routes != []
  }

  /** The FIB is the one of the RIB on every face that has not been destroyed. */
  ghost predicate FibAgrees(rib: RibTable, fib: Fib, gone: set<FaceId>) {
    forall n, f :: f !in gone ==> Lookup(fib, n, f) == NextHop(rib, n, f)
  }

  /** RIB links, counters, inherited-route records and FIB all agree. */
  ghost predicate Consistent(rib: RibTable, fib: Fib, gone: set<FaceId>) {
    Linked(rib) && EntriesExact(rib) && RecordsExact(rib) && FibAgrees(rib, fib, gone)
  }

  lemma EntriesCapture(rib: RibTable)
    requires EntriesExact(rib)
    ensures CaptureExact(rib)
  {
    forall n | n in rib ensures rib[n].HasCapture() <==> Captures(rib[n].routes) {
      assert EntryExact(rib[n]);
      CaptureCountPositive(rib[n].routes);
    }
  }

  /** The entry has a route with the face and origin of `r`. */
  predicate Known(rib: RibTable, n: Name, r: Route) {
    n in rib && FindRoute(rib[n].routes, r) < |rib[n].routes|
  }

  function Existing(rib: RibTable, n: Name, r: Route): Route
    requires Known(rib, n, r)
  {
    rib[n].routes[FindRoute(rib[n].routes, r)]
  }

  // -------------------------------------------------------------------- guards

  /** When the delta of a registration is right for FIB and records everywhere. */
  ghost predicate RegisterGood(rib: RibTable, n: Name, r: Route, gone: set<FaceId>) {
    if n !in rib then
      && (r.capture || forall f :: f !in gone && f != r.faceId ==> ReportsCheapest(rib, n, f))
      && (forall d, f :: !NameDoubled(rib, n, r, d, f))
    else if !Known(rib, n, r) then
      forall d, f :: RouteGood(rib, n, r, d, f, gone)
    else
      forall d, f :: ReplacedGood(rib, n, Existing(rib, n, r), r, d, f, gone)
  }

  ghost predicate RouteGood(rib: RibTable, n: Name, r: Route, d: Name, f: FaceId, gone: set<FaceId>) {
    && (f !in gone ==> !Withdrawn(rib, n, r, d, f)) && !Stale(rib, n, r, d, f)
    && (Withdrawn(rib, n, r, d, f) <==> RouteDoubled(rib, n, r, d, f))
  }

  ghost predicate ReplacedGood(rib: RibTable, n: Name, x: Route, r: Route, d: Name, f: FaceId, gone: set<FaceId>) {
    (f !in gone ==> !ReplacedFaulty(rib, n, x, r, d, f)) && !ReplacedRecordsFaulty(rib, n, x, r, d, f)
  }

  /** The capture counter stays exact: a route registered again keeps its capture flag. */
  predicate CaptureKept(rib: RibTable, n: Name, r: Route) {
    Known(rib, n, r) ==> Existing(rib, n, r).capture == r.capture
  }

  /** When registering a route keeps everything consistent. */
  ghost predicate RegisterSafe(rib: RibTable, n: Name, r: Route, gone: set<FaceId>) {
    RegisterGood(rib, n, r, gone) && CaptureKept(rib, n, r)
  }

  /** When unregistering the route `x` keeps everything consistent. */
  ghost predicate UnregisterSafe(rib: RibTable, n: Name, x: Route, next: Option<Route>, gone: set<FaceId>) {
    forall d, f :: ErasedGood(rib, n, x, next, d, f, gone)
  }

  ghost predicate ErasedGood(rib: RibTable, n: Name, x: Route, next: Option<Route>, d: Name, f: FaceId,
                             gone: set<FaceId>)
  {
    && (f !in gone ==> !UnregisterFaulty(rib, n, x, next, d, f))
    && !LeftBehind(rib, n, x, d, f) && !Superfluous(rib, n, x, next, d, f) && !Orphaned(rib, n, x, next, d, f)
    && (Dropped(rib, n, x, next, d, f) <==> ErasedDoubled(rib, n, x, next, d, f))
  }

  /** The run of the commit protocol ended well: success, no missing face, and no
      REMOVE that timed out. */
  ghost predicate WentWell(s: Commit) { s.nSuccess > 0 && Undisturbed(s) }

  ghost predicate Undisturbed(s: Commit) {
    s.missing == {} && forall u :: u in s.retried ==> u.action == AddNextHop
  }

  // ------------------------------------------------- what a delta does to the state

  ghost predicate FibRight(rib: RibTable, after: RibTable, k: KeyState, d: Name, f: FaceId) {
    Effect(NextHop(rib, d, f), k.op) == NextHop(after, d, f)
  }

  /** The pending state turns the old next hop and records into those of `after`. */
  ghost predicate DeltaRight(rib: RibTable, after: RibTable, k: KeyState, d: Name, f: FaceId, gone: set<FaceId>) {
    (f !in gone ==> FibRight(rib, after, k, d, f)) && RecordsRight(rib, after, k, d, f)
  }

  /** The updater holds the right state for every pair. */
  ghost predicate AllRight(rib: RibTable, after: RibTable, u: FibUpdater, gone: set<FaceId>)
    reads u
  {
    forall d, f :: DeltaRight(rib, after, u.At(d, f), d, f, gone)
  }

  ghost predicate RecordsAllRight(rib: RibTable, after: RibTable, u: FibUpdater)
    reads u
  {
    forall d, f :: RecordsRight(rib, after, u.At(d, f), d, f)
  }

  ghost predicate RegisterRight(rib: RibTable, after: RibTable, n: Name, r: Route, gone: set<FaceId>) {
    forall d, f :: DeltaRight(rib, after, RegisterKey(rib, n, r, d, f), d, f, gone)
  }

  ghost predicate UnregisterRight(rib: RibTable, after: RibTable, n: Name, x: Route, next: Option<Route>,
                                  gone: set<FaceId>)
    requires n in rib
  {
    forall d, f :: DeltaRight(rib, after, UnregisterKey(rib, n, rib[n], x, next, d, f), d, f, gone)
  }

  lemma RegisterHeld(rib: RibTable, after: RibTable, n: Name, r: Route, u: FibUpdater, gone: set<FaceId>)
    requires forall d, f :: u.At(d, f) == RegisterKey(rib, n, r, d, f)
    ensures AllRight(rib, after, u, gone) <==> RegisterRight(rib, after, n, r, gone)
  {
    if AllRight(rib, after, u, gone) {
      forall d, f ensures DeltaRight(rib, after, RegisterKey(rib, n, r, d, f), d, f, gone) {
        assert DeltaRight(rib, after, u.At(d, f), d, f, gone);
      }
    }
  }

  lemma StateHeld(rib: RibTable, after: RibTable, k: KeyState, key: KeyState, d: Name, f: FaceId, gone: set<FaceId>)
    requires HoldsState(k, key, f in gone)
    ensures DeltaRight(rib, after, k, d, f, gone) <==> DeltaRight(rib, after, key, d, f, gone)
  {
  }

  /** The FIB updates for destroyed faces do not matter. */
  lemma UnregisterHeld(rib: RibTable, after: RibTable, n: Name, x: Route, next: Option<Route>, u: FibUpdater,
                       gone: set<FaceId>)
    requires n in rib
    requires forall d, f :: HoldsState(u.At(d, f), UnregisterKey(rib, n, rib[n], x, next, d, f), f in gone)
    ensures AllRight(rib, after, u, gone) <==> UnregisterRight(rib, after, n, x, next, gone)
  {
    forall d, f
      ensures DeltaRight(rib, after, u.At(d, f), d, f, gone) <==>
              DeltaRight(rib, after, UnregisterKey(rib, n, rib[n], x, next, d, f), d, f, gone)
    {
      StateHeld(rib, after, u.At(d, f), UnregisterKey(rib, n, rib[n], x, next, d, f), d, f, gone);
    }
  }

  /** `k` is the state `key`, its FIB update dropped if the face is gone. */
  predicate HoldsState(k: KeyState, key: KeyState, faceGone: bool) {
    k == key || (faceGone && k == key.(op := Keep))
  }

  lemma AllRightMeansRecords(rib: RibTable, after: RibTable, u: FibUpdater, gone: set<FaceId>)
    requires AllRight(rib, after, u, gone)
    ensures RecordsAllRight(rib, after, u)
  {
    forall d, f ensures RecordsRight(rib, after, u.At(d, f), d, f) {
      assert DeltaRight(rib, after, u.At(d, f), d, f, gone);
    }
  }

  // ------------------------------------------------------------- registrations

  /** What a registration makes of the routes. */
  ghost predicate RouteRegistered(rib: RibTable, after: RibTable, n: Name, r: Route) {
    if n !in rib then NewEntryInserted(rib, after, n, r)
    else if !Known(rib, n, r) then NewRouteInserted(rib, after, n, r)
    else RouteReplaced(rib, after, n, Existing(rib, n, r), r)
  }

  /** The pending records find their entry and what they remove. */
  ghost predicate Applicable(rib: RibTable, after: RibTable, k: KeyState, d: Name, f: FaceId) {
    k.need <= RecordCount(rib, d, f) && (d !in after ==> k.regs == k.unregs == 0)
  }

  ghost predicate AllApplicable(rib: RibTable, after: RibTable, u: FibUpdater)
    reads u
  {
    forall d, f :: Applicable(rib, after, u.At(d, f), d, f)
  }

  lemma RegisterPairApplies(rib: RibTable, after: RibTable, n: Name, r: Route, d: Name, f: FaceId)
    requires RecordsExact(rib) && CaptureExact(rib) && RouteRegistered(rib, after, n, r)
    ensures Applicable(rib, after, RegisterKey(rib, n, r, d, f), d, f)
  {
    if d in rib {
      CountOnPositive(rib[d].inherited, f);
      RecordCountMeaning(rib, d, f);
    }
    if Known(rib, n, r) {
      RemovalsFit(rib, n, Existing(rib, n, r), r, d, f);
    }
  }

  lemma RegisterApplies(rib: RibTable, after: RibTable, n: Name, r: Route, u: FibUpdater)
    requires RecordsExact(rib) && CaptureExact(rib) && RouteRegistered(rib, after, n, r)
    requires forall d, f :: u.At(d, f) == RegisterKey(rib, n, r, d, f)
    ensures AllApplicable(rib, after, u)
  {
    forall d, f ensures Applicable(rib, after, u.At(d, f), d, f) {
      RegisterPairApplies(rib, after, n, r, d, f);
    }
  }

  lemma NewEntryExact(rib: RibTable, after: RibTable, n: Name, r: Route, gone: set<FaceId>)
    requires CaptureExact(rib) && RecordsExact(rib) && NewEntryInserted(rib, after, n, r)
    ensures RegisterRight(rib, after, n, r, gone) <==> RegisterGood(rib, n, r, gone)
  {
    forall d, f
      ensures RecordsRight(rib, after, RegisterKey(rib, n, r, d, f), d, f) <==> !NameDoubled(rib, n, r, d, f)
    {
      NewEntryRecords(rib, after, n, r, d, f);
    }
    if r.capture || forall f :: f !in gone && f != r.faceId ==> ReportsCheapest(rib, n, f) {
      forall d, f | f !in gone ensures FibRight(rib, after, RegisterKey(rib, n, r, d, f), d, f) {
        NewEntryKeyCorrect(rib, after, n, r, d, f);
      }
      assert forall d, f :: DeltaRight(rib, after, RegisterKey(rib, n, r, d, f), d, f, gone)
                            <==> RecordsRight(rib, after, RegisterKey(rib, n, r, d, f), d, f);
    } else {
      var f :| f !in gone && f != r.faceId && !ReportsCheapest(rib, n, f);
      NotReported(rib, after, n, r, f);
      assert !DeltaRight(rib, after, RegisterKey(rib, n, r, n, f), n, f, gone);
    }
  }

  lemma NotReported(rib: RibTable, after: RibTable, n: Name, r: Route, f: FaceId)
    requires NewEntryInserted(rib, after, n, r) && !r.capture && f != r.faceId && !ReportsCheapest(rib, n, f)
    ensures !FibRight(rib, after, RegisterKey(rib, n, r, n, f), n, f)
  {
    LocalChange(rib, after, n, n, f);
    SingleRoute(after[n].routes, r, f);
  }

  lemma NewRouteExact(rib: RibTable, after: RibTable, n: Name, r: Route, d: Name, f: FaceId, gone: set<FaceId>)
    requires CaptureExact(rib) && RecordsExact(rib) && !Known(rib, n, r) && NewRouteInserted(rib, after, n, r)
    ensures DeltaRight(rib, after, RegisterKey(rib, n, r, d, f), d, f, gone) <==> RouteGood(rib, n, r, d, f, gone)
  {
    RecordCountMeaning(rib, d, f);
    NewRouteKeyCorrect(rib, after, n, r, d, f);
    NewRouteRecords(rib, after, n, r, d, f);
    assert RegisterKey(rib, n, r, d, f) == NewRouteState(rib, n, r, d, f);
  }

  lemma ReplacedExact(rib: RibTable, after: RibTable, n: Name, r: Route, d: Name, f: FaceId, gone: set<FaceId>)
    requires CaptureExact(rib) && RecordsExact(rib) && !RegistrationBreaks(rib, n, r)
    requires Known(rib, n, r) && RouteReplaced(rib, after, n, Existing(rib, n, r), r)
    ensures DeltaRight(rib, after, RegisterKey(rib, n, r, d, f), d, f, gone)
            <==> ReplacedGood(rib, n, Existing(rib, n, r), r, d, f, gone)
  {
    RecordCountMeaning(rib, d, f);
    ReplacedKeyCorrect(rib, after, n, Existing(rib, n, r), r, d, f);
    ReplacedRecords(rib, after, n, Existing(rib, n, r), r, d, f);
    assert RegisterKey(rib, n, r, d, f) == ReplacedState(rib, n, Existing(rib, n, r), r, d, f);
  }

  /** The delta of a registration is right everywhere if and only if the registration is
      good, whether name and route are new or not. */
  lemma RegisterExact(rib: RibTable, after: RibTable, n: Name, r: Route, gone: set<FaceId>)
    requires CaptureExact(rib) && RecordsExact(rib) && !RegistrationBreaks(rib, n, r)
    requires RouteRegistered(rib, after, n, r)
    ensures RegisterRight(rib, after, n, r, gone) <==> RegisterGood(rib, n, r, gone)
  {
    if n !in rib {
      NewEntryExact(rib, after, n, r, gone);
    } else if !Known(rib, n, r) {
      forall d, f
        ensures DeltaRight(rib, after, RegisterKey(rib, n, r, d, f), d, f, gone) <==> RouteGood(rib, n, r, d, f, gone)
      {
        NewRouteExact(rib, after, n, r, d, f, gone);
      }
    } else {
      forall d, f
        ensures DeltaRight(rib, after, RegisterKey(rib, n, r, d, f), d, f, gone)
                <==> ReplacedGood(rib, n, Existing(rib, n, r), r, d, f, gone)
      {
        ReplacedExact(rib, after, n, r, d, f, gone);
      }
    }
  }

  // ----------------------------------------------------------- unregistrations

  lemma UnregisterApplies(rib: RibTable, after: RibTable, n: Name, x: Route, next: Option<Route>, d: Name, f: FaceId)
    requires RecordsExact(rib) && CaptureExact(rib) && ErasedInOrder(rib, after, n, x, next)
    ensures var k := UnregisterKey(rib, n, rib[n], x, next, d, f);
            && k.need <= RecordCount(rib, d, f)
            && (d !in after ==> (k.regs == k.unregs == 0 <==> !LeftBehind(rib, n, x, d, f)))
            && (LeftBehind(rib, n, x, d, f) ==> d !in after)
  {
    if d == n {
      ErasedRoutes(rib[n], x);
      UnregisterSelfState(rib, n, EraseRoute(rib[n], x), x, next, f);
      SelfLeftBehind(rib, n, EraseRoute(rib[n], x), x, next, f);
    } else if d in rib {
      CountOnPositive(rib[d].inherited, f);
    }
  }

  lemma SelfLeftBehind(rib: RibTable, n: Name, rest: RibEntry, x: Route, next: Option<Route>, f: FaceId)
    requires n in rib && rest == EraseRoute(rib[n], x) && |rest.routes| == |rib[n].routes| - 1
    requires rest.HasCapture() <==> Captures(rest.routes)
    requires rib[n].HasCapture() <==> Captures(rib[n].routes)
    requires Captures(rib[n].routes) <==> x.capture || Captures(rest.routes)
    ensures rest.routes == [] ==>
              (UnregisterKey(rib, n, rib[n], x, next, n, f).regs == 0 <==> !LeftBehind(rib, n, x, n, f))
    ensures LeftBehind(rib, n, x, n, f) ==> rest.routes == []
  {
    UnregisterSelfState(rib, n, rest, x, next, f);
  }

  /** The delta of an unregistration is right everywhere if and only if it is safe. */
  lemma UnregisterExact(rib: RibTable, after: RibTable, n: Name, x: Route, next: Option<Route>, gone: set<FaceId>)
    requires CaptureExact(rib) && RecordsExact(rib) && ErasedInOrder(rib, after, n, x, next)
    ensures UnregisterRight(rib, after, n, x, next, gone) <==> UnregisterSafe(rib, n, x, next, gone)
  {
    forall d, f
      ensures DeltaRight(rib, after, UnregisterKey(rib, n, rib[n], x, next, d, f), d, f, gone)
              <==> ErasedGood(rib, n, x, next, d, f, gone)
    {
      RecordCountMeaning(rib, d, f);
      UnregisterKeyCorrect(rib, after, n, x, next, d, f);
      UnregisterRecords(rib, after, n, x, next, d, f);
    }
  }

  // ------------------------------------------------------- what the commit does

  /** The delta and the two halves of the commit, put together: after a run that went
      well the FIB is the one of the changed RIB if and only if the delta is right. */
  lemma CommittedFib(rib: RibTable, after: RibTable, fib: Fib, u: FibUpdater, rs: seq<(nat, Response)>,
                     gone: set<FaceId>)
    requires u.Valid() && FibAgrees(rib, fib, gone)
    requires WentWell(RunOf(u, fib, rs))
    ensures FibAgrees(after, RunOf(u, fib, rs).fib, gone) <==>
            forall d, f :: f !in gone ==> FibRight(rib, after, u.At(d, f), d, f)
  {
    var batch, nonBatch := u.updatesForBatchFaceId, u.updatesForNonBatchFaceId;
    var s := RunOf(u, fib, rs);
    forall n, f | f !in gone
      ensures Lookup(s.fib, n, f) == NextHop(after, n, f) <==> FibRight(rib, after, u.At(n, f), n, f)
    {
      assert u.At(n, f) == u.Listed(n, f);
      CommitContent(fib, u.batchFaceId, batch, nonBatch, rs, n, f);
    }
  }

  /** The run of the commit for what the updater has computed. */
  ghost function RunOf(u: FibUpdater, fib: Fib, rs: seq<(nat, Response)>): Commit
    reads u
  {
    Run(Start(u.batchFaceId, u.updatesForBatchFaceId, u.updatesForNonBatchFaceId, fib), rs)
  }

  /** The records can be applied to the changed table. */
  lemma LogApplies(rib: RibTable, after: RibTable, u: FibUpdater)
    requires u.Valid()
    requires AllApplicable(rib, after, u)
    requires forall d, f :: d in after ==> RecordCount(after, d, f) == RecordCount(rib, d, f)
    ensures Covered(after, u.inheritedRoutes)
  {
    forall x | x in u.inheritedRoutes ensures x.name in after {
      InLogCounts(u.inheritedRoutes, x);
      assert u.At(x.name, x.route.faceId) == u.Listed(x.name, x.route.faceId);
      assert Applicable(rib, after, u.At(x.name, x.route.faceId), x.name, x.route.faceId);
    }
    forall n, f ensures Need(u.inheritedRoutes, n, f) <= RecordCount(after, n, f) {
      assert u.At(n, f) == u.Listed(n, f);
      assert Applicable(rib, after, u.At(n, f), n, f);
      NeedMeansRecorded(u.inheritedRoutes, n, f);
    }
  }

  lemma {:induction false} NeedMeansRecorded(log: seq<RibUpdate>, n: Name, f: FaceId)
    ensures CountRecords(log, Unregister, n, f) == 0 ==> Need(log, n, f) == 0
  {
    if log != [] {
      NeedMeansRecorded(log[..|log| - 1], n, f);
    }
  }

  lemma {:induction false} InLogCounts(log: seq<RibUpdate>, x: RibUpdate)
    requires x in log
    ensures CountRecords(log, x.action, x.name, x.route.faceId) > 0
  {
    var init := log[..|log| - 1];
    if log[|log| - 1] != x {
      assert x in init by { assert log == init + [log[|log| - 1]]; }
      InLogCounts(init, x);
    }
  }

  lemma {:induction false} CountedInLog(log: seq<RibUpdate>, a: RibAction, n: Name, f: FaceId)
    requires CountRecords(log, a, n, f) > 0
    ensures exists x :: x in log && x.action == a && x.name == n && x.route.faceId == f
  {
    var init, last := log[..|log| - 1], log[|log| - 1];
    if last.action == a && last.name == n && last.route.faceId == f {
      assert last in log;
    } else {
      CountedInLog(init, a, n, f);
      assert forall x :: x in init ==> x in log;
    }
  }

  ghost predicate CountsFollow(rib: RibTable, final: RibTable, u: FibUpdater)
    reads u
  {
    forall d, f :: d in final ==> RecordCount(final, d, f) == CountAfter(RecordCount(rib, d, f), u.At(d, f))
  }

  /** After the records are applied the lists are exact for the new table if and only
      if the pending records were right. */
  lemma LogMakesExact(rib: RibTable, after: RibTable, final: RibTable, u: FibUpdater)
    requires AllApplicable(rib, after, u)
    requires final.Keys == after.Keys && forall m :: m in after ==> final[m].routes == after[m].routes
    requires CountsFollow(rib, final, u)
    ensures RecordsExact(final) <==> RecordsAllRight(rib, after, u)
  {
    forall d, f
      ensures RecordsRight(rib, after, u.At(d, f), d, f) <==> RecordRight(final, d, f)
    {
      assert Applicable(rib, after, u.At(d, f), d, f);
      PairMakesExact(rib, after, final, u.At(d, f), d, f);
    }
    if RecordsAllRight(rib, after, u) {
      forall d, f | d in final ensures final[d].HasInherited(f) <==> Inherits(final, d, f) {
        assert RecordsRight(rib, after, u.At(d, f), d, f);
        assert RecordRight(final, d, f);
      }
    } else {
      var d, f :| !RecordsRight(rib, after, u.At(d, f), d, f);
      assert !RecordRight(final, d, f);
    }
  }

  ghost predicate RecordRight(rib: RibTable, d: Name, f: FaceId) {
    d in rib ==> (rib[d].HasInherited(f) <==> Inherits(rib, d, f))
  }

  lemma PairMakesExact(rib: RibTable, after: RibTable, final: RibTable, k: KeyState, d: Name, f: FaceId)
    requires Applicable(rib, after, k, d, f)
    requires final.Keys == after.Keys && forall m :: m in after ==> final[m].routes == after[m].routes
    requires d in after ==> RecordCount(final, d, f) == CountAfter(RecordCount(rib, d, f), k)
    ensures RecordsRight(rib, after, k, d, f) <==> RecordRight(final, d, f)
  {
    NextHopByRoutes(after, final, d, f);
    if d in final {
      CountOnPositive(final[d].inherited, f);
    }
  }

  // ------------------------------------------------------------ the changed table

  lemma AppendedEntryExact(e: RibEntry, r: Route)
    requires EntryExact(e) && FindRoute(e.routes, r) == |e.routes|
    ensures EntryExact(InsertRoute(e, r)) && InsertRoute(e, r).routes == e.routes + [r]
  {
  }

  lemma ReplacedEntryExact(e: RibEntry, r: Route)
    requires EntryExact(e) && FindRoute(e.routes, r) < |e.routes|
    ensures EntryExact(ReplaceRoute(e, r)) <==> e.routes[FindRoute(e.routes, r)].capture == r.capture
  {
    CounterKeptByReplace(e, r);
  }

  lemma FirstEntryExact(r: Route)
    ensures EntryExact(NewEntry(r))
  {
    AppendCounts([], r);
    assert [] + [r] == [r];
  }

  /** The entry of `n` after `Rib::insert`, links aside. */
  function EntryWith(rib: RibTable, n: Name, r: Route): RibEntry {
    if n !in rib then NewEntry(r)
    else if !Known(rib, n, r) then InsertRoute(rib[n], r)
    else ReplaceRoute(rib[n], r)
  }

  lemma EntryWithExact(rib: RibTable, n: Name, r: Route)
    requires EntriesExact(rib)
    ensures EntryExact(EntryWith(rib, n, r)) <==> CaptureKept(rib, n, r)
  {
    assert n in rib ==> EntryExact(rib[n]);
    if n !in rib {
      FirstEntryExact(r);
    } else if !Known(rib, n, r) {
      AppendedEntryExact(rib[n], r);
    } else {
      ReplacedEntryExact(rib[n], r);
    }
  }

  lemma RegisteredRoutes(rib: RibTable, after: RibTable, n: Name, r: Route)
    requires EntriesExact(rib) && SamePayloadBut(rib, after, n) && n in after &&
        SamePayload(after[n], EntryWith(rib, n, r))
    ensures RouteRegistered(rib, after, n, r)
  {
    assert n in rib ==> EntryExact(rib[n]);
    if Known(rib, n, r) {
      assert Existing(rib, n, r) in rib[n].routes && SameKey(Existing(rib, n, r), r);
    }
  }

  lemma RegisteredEntry(rib: RibTable, after: RibTable, n: Name, r: Route)
    requires EntriesExact(rib) && SamePayloadBut(rib, after, n) && n in after &&
        SamePayload(after[n], EntryWith(rib, n, r))
    ensures EntriesExact(after) <==> CaptureKept(rib, n, r)
    ensures RouteRegistered(rib, after, n, r)
    ensures forall d, f :: d in after ==> RecordCount(after, d, f) == RecordCount(rib, d, f)
  {
    RegisteredRoutes(rib, after, n, r);
    EntryWithExact(rib, n, r);
    SameExact(after[n], EntryWith(rib, n, r));
    OtherEntriesExact(rib, after, n);
    SameCounts(rib, after, n);
  }

  lemma SameExact(a: RibEntry, b: RibEntry)
    requires SamePayload(a, b)
    ensures EntryExact(a) <==> EntryExact(b)
  {
  }

  lemma OtherEntriesExact(rib: RibTable, after: RibTable, n: Name)
    requires EntriesExact(rib) && SamePayloadBut(rib, after, n)
    ensures EntriesExact(after) <==> (n in after ==> EntryExact(after[n]))
  {
    forall m | m in after && m != n ensures EntryExact(after[m]) {
      assert EntryExact(rib[m]);
    }
  }

  lemma ErasedEntry(rib: RibTable, after: RibTable, n: Name, r: Route, next: Option<Route>)
    requires EntriesExact(rib) && SamePayloadBut(rib, after, n)
    requires Known(rib, n, r) && IsSecond(rib[n].routes, r.faceId, next)
    requires EraseRoute(rib[n], r).routes == [] ==> n !in after
    requires EraseRoute(rib[n], r).routes != [] ==> n in after && SamePayload(after[n], EraseRoute(rib[n], r))
    ensures EntriesExact(after)
    ensures ErasedInOrder(rib, after, n, Existing(rib, n, r), next)
    ensures forall d, f :: d in after ==> RecordCount(after, d, f) == RecordCount(rib, d, f)
  {
    FoundRoute(rib[n], r);
    assert EntryExact(rib[n]);
    RestExact(rib[n], r);
    if n in after {
      SameExact(after[n], EraseRoute(rib[n], r));
    }
    OtherEntriesExact(rib, after, n);
    SameCounts(rib, after, n);
  }

  lemma RestExact(e: RibEntry, r: Route)
    requires EntryExact(e)
    ensures EraseRoute(e, r).routes != [] ==> EntryExact(EraseRoute(e, r))
    ensures EraseRoute(e, r).inherited == e.inherited
  {
    CounterKept(e, r);
    UniqueKept(e, r);
  }

  lemma SameCounts(rib: RibTable, after: RibTable, n: Name)
    requires SamePayloadBut(rib, after, n)
    requires n in after ==> after[n].inherited == if n in rib then rib[n].inherited else []
    ensures forall d, f :: d in after ==> RecordCount(after, d, f) == RecordCount(rib, d, f)
  {
    forall d, f | d in after ensures RecordCount(after, d, f) == RecordCount(rib, d, f) {
      assert d != n ==> SamePayload(rib[d], after[d]);
    }
  }

  /** Erasing by key is erasing the route found. */
  lemma FoundRoute(e: RibEntry, r: Route)
    requires FindRoute(e.routes, r) < |e.routes|
    ensures var x := e.routes[FindRoute(e.routes, r)];
            x in e.routes && x.faceId == r.faceId && EraseRoute(e, x) == EraseRoute(e, r)
  {
    FindRouteOfFound(e.routes, r);
  }

  lemma SameEntries(after: RibTable, final: RibTable)
    requires final.Keys == after.Keys
    requires forall m :: m in after ==> final[m].routes == after[m].routes && final[m].nCapture == after[m].nCapture
    ensures EntriesExact(final) <==> EntriesExact(after)
  {
    forall m | m in after ensures EntryExact(final[m]) <==> EntryExact(after[m]) {
    }
  }

  lemma SameAgreement(after: RibTable, final: RibTable, fib: Fib, gone: set<FaceId>)
    requires final.Keys == after.Keys && forall m :: m in after ==> final[m].routes == after[m].routes
    ensures FibAgrees(final, fib, gone) <==> FibAgrees(after, fib, gone)
  {
    forall n, f ensures NextHop(after, n, f) == NextHop(final, n, f) {
      NextHopByRoutes(after, final, n, f);
    }
  }

  /** After a run that went well FIB and records are those of the changed RIB if and only
      if the delta was right. */
  lemma AgreesAgain(before: RibTable, after: RibTable, final: RibTable, fib: Fib, u: FibUpdater,
                    rs: seq<(nat, Response)>, gone: set<FaceId>)
    requires u.Valid() && FibAgrees(before, fib, gone) && WentWell(RunOf(u, fib, rs))
    requires final.Keys == after.Keys && forall m :: m in after ==> final[m].routes == after[m].routes
    requires RecordsExact(final) <==> RecordsAllRight(before, after, u)
    ensures RecordsExact(final) && FibAgrees(final, RunOf(u, fib, rs).fib, gone) <==> AllRight(before, after, u, gone)
  {
    CommittedFib(before, after, fib, u, rs, gone);
    SameAgreement(after, final, RunOf(u, fib, rs).fib, gone);
    if FibAgrees(after, RunOf(u, fib, rs).fib, gone) && RecordsAllRight(before, after, u) {
      forall d, f ensures DeltaRight(before, after, u.At(d, f), d, f, gone) {
        assert f !in gone ==> FibRight(before, after, u.At(d, f), d, f);
        assert RecordsRight(before, after, u.At(d, f), d, f);
      }
    }
    if AllRight(before, after, u, gone) {
      AllRightMeansRecords(before, after, u, gone);
      forall d, f | f !in gone ensures FibRight(before, after, u.At(d, f), d, f) {
        assert DeltaRight(before, after, u.At(d, f), d, f, gone);
      }
    }
  }
}
