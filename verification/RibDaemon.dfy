/** The daemon over whole updates: compute, commit over the asynchronous channel, then
    change the RIB and the records. Consistency is carried from update to update. */
module RibDaemon {
  import opened Options
  import opened RibEntries
  import opened RibTrees
  import opened FibSpec
  import opened FibDeltas
  import opened FibAgreement
  import opened FibRecords
  import opened FibUpdaters
  import opened FibCommit
  import opened FibTimeouts
  import opened RibStore
  import opened RibSystem

  // -------------------------------------------------------------------- the commit

  /** The responses of the FIB manager arrive one by one; one that answers no command in
      flight is ignored. `clean` tells whether no face was missing and no REMOVE retried. */
  method Deliver(sender: FibSender, ghost fib: Fib, rs: seq<(nat, Response)>) returns (clean: bool, ghost s: Commit)
    requires sender.retried == {}
    modifies sender
    ensures s == Run(old(sender.View(fib, {})), rs) && sender.View(s.fib, s.missing) == s
    ensures clean <==> Undisturbed(s)
  {
    clean, s := true, sender.View(fib, {});
    for j := 0 to |rs|
      invariant s == Run(old(sender.View(fib, {})), rs[..j]) && sender.View(s.fib, s.missing) == s
      invariant clean <==> Undisturbed(s)
    {
      assert rs[..j + 1][..j] == rs[..j];
      var (i, resp) := rs[j];
      if !sender.threw && i < |sender.outbox| {
        var c := sender.outbox[i];
        Disturbance(s, i, resp);
        clean := clean && !Disturbs(c, resp);
        ghost var s1 := Respond(s, i, resp);
        sender.Receive(i, resp, s.fib, s.missing);
        s := s1;
      }
    }
    assert rs[..|rs|] == rs;
  }

  /** The response reports a missing face, or makes the sender retry a REMOVE. */
  predicate Disturbs(c: Command, resp: Response) {
    || resp.FaceNotFound?
    || (resp.Timeout? && c.nTimeouts < MAX_NUM_TIMEOUTS && c.update.action == RemoveNextHop)
  }

  lemma Disturbance(s: Commit, i: nat, resp: Response)
    requires Enabled(s, i)
    ensures Undisturbed(Respond(s, i, resp)) <==> Undisturbed(s) && !Disturbs(s.inFlight[i], resp)
  {
  }

  /** The lists handed to the commit hold exactly what is pending. */
  ghost predicate ListsHold(faceId: FaceId, lists: (seq<FibUpdate>, seq<FibUpdate>), u: FibUpdater)
    reads u
  {
    && ProperLists(faceId, lists.0, lists.1)
    && forall d, f :: PendingIn(faceId, lists.0, lists.1, d, f) == u.At(d, f).op
  }

  lemma PendingAreAt(u: FibUpdater)
    requires u.Valid()
    ensures ListsHold(u.batchFaceId, (u.updatesForBatchFaceId, u.updatesForNonBatchFaceId), u)
  {
    forall d, f
      ensures PendingIn(u.batchFaceId, u.updatesForBatchFaceId, u.updatesForNonBatchFaceId, d, f) == u.At(d, f).op
    {
      assert u.At(d, f) == u.Listed(d, f);
    }
  }

  /** After a failure the FIB holds for every face but that of the batch what it held before. */
  ghost predicate FailureHarmless(s: Commit, fib: Fib, faceId: FaceId) {
    s.nFailure > 0 ==> s.nSuccess == 0 && forall n, f :: f != faceId ==> Lookup(s.fib, n, f) == Lookup(fib, n, f)
  }

  /** Sends what has been computed and awaits the responses. */
  method Commits(u: FibUpdater, ghost fib: Fib, rs: seq<(nat, Response)>)
    returns (done: bool, clean: bool, ghost s: Commit, ghost lists: (seq<FibUpdate>, seq<FibUpdate>))
    requires u.Valid()
    ensures lists == (u.updatesForBatchFaceId, u.updatesForNonBatchFaceId) && ListsHold(u.batchFaceId, lists, u)
    ensures s == Run(Start(u.batchFaceId, lists.0, lists.1, fib), rs)
    ensures done <==> s.nSuccess > 0
    ensures clean <==> Undisturbed(s)
    ensures FailureHarmless(s, fib, u.batchFaceId)
  {
    lists := (u.updatesForBatchFaceId, u.updatesForNonBatchFaceId);
    PendingAreAt(u);
    var sender := new FibSender(u.batchFaceId, u.updatesForBatchFaceId, u.updatesForNonBatchFaceId);
    assert sender.View(fib, {}) == Start(u.batchFaceId, lists.0, lists.1, fib);
    assert sender.View(fib, {}).retried == {};
    clean, s := Deliver(sender, fib, rs);
    done := sender.nSuccess > 0;
    CommitSafety(fib, u.batchFaceId, lists.0, lists.1, rs);
    if s.nFailure > 0 {
      forall n, f | f != u.batchFaceId ensures Lookup(s.fib, n, f) == Lookup(fib, n, f) {
        FailureContent(fib, u.batchFaceId, lists.0, lists.1, rs, n, f);
      }
    }
  }

  // -------------------------------------------------------------- the records follow

  /** The last step of an update: the RIB has been changed, the records follow. */
  method ApplyRecords(rib: Rib, ghost before: RibTable, u: FibUpdater)
    requires u.Valid() && Linked(rib.table)
    requires AllApplicable(before, rib.table, u)
    requires forall d, f :: d in rib.table ==> RecordCount(rib.table, d, f) == RecordCount(before, d, f)
    modifies rib
    ensures Linked(rib.table) && rib.table.Keys == old(rib.table).Keys
    ensures EntriesExact(rib.table) <==> EntriesExact(old(rib.table))
    ensures forall m :: m in rib.table ==> rib.table[m].routes == old(rib.table)[m].routes
    ensures CountsFollow(before, rib.table, u)
    ensures RecordsExact(rib.table) <==> RecordsAllRight(before, old(rib.table), u)
  {
    ghost var after := rib.table;
    LogApplies(before, after, u);
    rib.ModifyInheritedRoutes(u.inheritedRoutes);
    forall d, f | d in rib.table
      ensures RecordCount(rib.table, d, f) == CountAfter(RecordCount(before, d, f), u.At(d, f))
    {
      assert u.At(d, f) == u.Listed(d, f);
      assert RecordCount(rib.table, d, f) == RecordCount(after, d, f) + RecordDelta(u.inheritedRoutes, d, f);
    }
    LogMakesExact(before, after, rib.table, u);
    SameEntries(after, rib.table);
  }

  // ------------------------------------------------------------------ registration

  /** What a registration that succeeded makes of the RIB. */
  ghost predicate Registered(before: RibTable, final: RibTable, n: Name, r: Route) {
    && Linked(final) && RouteRegistered(before, final, n, r)
    && (EntriesExact(final) <==> CaptureKept(before, n, r))
    && forall d, f :: d in final ==>
         RecordCount(final, d, f) == CountAfter(RecordCount(before, d, f), RegisterKey(before, n, r, d, f))
  }

  /** Registers a route, new or not. `ok` is false if the source follows a null pointer
      on the way. Otherwise the computed lists are committed with the responses `rs`, and
      the RIB is changed only if the commit succeeds. Then, if the commit went well,
      everything is consistent again exactly when the registration was safe. */
  method RegisterRoute(rib: Rib, ghost fib: Fib, ghost gone: set<FaceId>, n: Name, r: Route, rs: seq<(nat, Response)>)
    returns (ok: bool, done: bool, clean: bool, ghost s: Commit, ghost lists: (seq<FibUpdate>, seq<FibUpdate>))
    requires Consistent(rib.table, fib, gone)
    modifies rib
    ensures ok <==> !RegistrationBreaks(old(rib.table), n, r)
    ensures ok ==> ProperLists(r.faceId, lists.0, lists.1)
    ensures ok ==> forall d, f ::
                     PendingIn(r.faceId, lists.0, lists.1, d, f) == RegisterKey(old(rib.table), n, r, d, f).op
    ensures ok ==> s == Run(Start(r.faceId, lists.0, lists.1, fib), rs) && FailureHarmless(s, fib, r.faceId)
    ensures ok ==> (done <==> s.nSuccess > 0) && (clean <==> Undisturbed(s))
    ensures !(ok && done) ==> rib.table == old(rib.table)
    ensures ok && done ==> Registered(old(rib.table), rib.table, n, r)
    ensures ok && done && RegisterGood(old(rib.table), n, r, gone) ==> RecordsExact(rib.table)
    ensures ok && done && clean ==> (Consistent(rib.table, s.fib, gone) <==> RegisterSafe(old(rib.table), n, r, gone))
  {
    EntriesCapture(rib.table);
    var u := new FibUpdater(r.faceId);
    ok := u.ComputeUpdatesForRegistration(rib.table, n, r);
    done, clean, s, lists := Commits(u, fib, rs);
    if ok && done {
      FinishRegistration(rib, fib, gone, n, r, u, rs);
    }
  }

  /** `onFibUpdateSuccess` for a registration. */
  method FinishRegistration(rib: Rib, ghost fib: Fib, ghost gone: set<FaceId>, n: Name, r: Route, u: FibUpdater,
                            ghost rs: seq<(nat, Response)>)
    requires Consistent(rib.table, fib, gone) && !RegistrationBreaks(rib.table, n, r) && u.Valid()
    requires forall d, f :: u.At(d, f) == RegisterKey(rib.table, n, r, d, f)
    modifies rib
    ensures Registered(old(rib.table), rib.table, n, r)
    ensures RegisterGood(old(rib.table), n, r, gone) ==> RecordsExact(rib.table)
    ensures WentWell(RunOf(u, fib, rs)) ==>
              (Consistent(rib.table, RunOf(u, fib, rs).fib, gone) <==> RegisterSafe(old(rib.table), n, r, gone))
  {
    ghost var before := rib.table;
    EntriesCapture(before);
    rib.Insert(n, r);
    ghost var after := rib.table;
    RegisteredEntry(before, after, n, r);
    RegisterApplies(before, after, n, r, u);
    ApplyRecords(rib, before, u);
    RegistrationEnds(before, after, rib.table, fib, gone, n, r, u, rs);
    RegisteredStays(before, after, rib.table, n, r);
    RegisteredCounts(before, rib.table, n, r, u);
  }

  lemma RegisteredStays(before: RibTable, after: RibTable, final: RibTable, n: Name, r: Route)
    requires RouteRegistered(before, after, n, r)
    requires final.Keys == after.Keys && forall m :: m in after ==> final[m].routes == after[m].routes
    ensures RouteRegistered(before, final, n, r)
  {
  }

  lemma RegisteredCounts(before: RibTable, final: RibTable, n: Name, r: Route, u: FibUpdater)
    requires CountsFollow(before, final, u) && forall d, f :: u.At(d, f) == RegisterKey(before, n, r, d, f)
    ensures forall d, f :: d in final ==>
              RecordCount(final, d, f) == CountAfter(RecordCount(before, d, f), RegisterKey(before, n, r, d, f))
  {
    forall d, f | d in final
      ensures RecordCount(final, d, f) == CountAfter(RecordCount(before, d, f), RegisterKey(before, n, r, d, f))
    {
      assert u.At(d, f) == RegisterKey(before, n, r, d, f);
    }
  }

  lemma RegistrationEnds(before: RibTable, after: RibTable, final: RibTable, fib: Fib, gone: set<FaceId>,
                         n: Name, r: Route, u: FibUpdater, rs: seq<(nat, Response)>)
    requires Consistent(before, fib, gone) && CaptureExact(before) && u.Valid()
    requires !RegistrationBreaks(before, n, r) && RouteRegistered(before, after, n, r)
    requires forall d, f :: u.At(d, f) == RegisterKey(before, n, r, d, f)
    requires Linked(final) && (EntriesExact(final) <==> CaptureKept(before, n, r))
    requires final.Keys == after.Keys && forall m :: m in after ==> final[m].routes == after[m].routes
    requires RecordsExact(final) <==> RecordsAllRight(before, after, u)
    ensures RegisterGood(before, n, r, gone) ==> RecordsExact(final)
    ensures WentWell(RunOf(u, fib, rs)) ==>
              (Consistent(final, RunOf(u, fib, rs).fib, gone) <==> RegisterSafe(before, n, r, gone))
  {
    RegisterExact(before, after, n, r, gone);
    RegisterHeld(before, after, n, r, u, gone);
    if RegisterGood(before, n, r, gone) {
      AllRightMeansRecords(before, after, u, gone);
    }
    if WentWell(RunOf(u, fib, rs)) {
      AgreesAgain(before, after, final, fib, u, rs, gone);
    }
  }

  // ---------------------------------------------------------------- unregistration

  /** What an unregistration leaves to be sent; nothing for the face if it is destroyed. */
  ghost function UnregisterSent(rib: RibTable, n: Name, r: Route, next: Option<Route>, destroyed: bool, d: Name,
                                f: FaceId): KeyState
  {
    var k := UnregisterIfFound(rib, n, r, next, d, f);
    if destroyed && f == r.faceId then k.(op := Keep) else k
  }

  /** The records follow an unregistration. */
  ghost predicate RecordsFollow(before: RibTable, final: RibTable, n: Name, x: Route, next: Option<Route>)
    requires n in before
  {
    forall d, f :: d in final ==>
      RecordCount(final, d, f) ==
      CountAfter(RecordCount(before, d, f), UnregisterKey(before, n, before[n], x, next, d, f))
  }

  /** What an unregistration of the route `x` that succeeded makes of the RIB; unless `ok`
      the records have not followed. */
  ghost predicate Unregistered(before: RibTable, final: RibTable, n: Name, x: Route, next: Option<Route>,
                               gone: set<FaceId>, ok: bool)
    requires n in before
  {
    && Linked(final) && EntriesExact(final) && RouteErased(before, final, n, x)
    && (ok <==> forall f :: !LeftBehind(before, n, x, n, f))
    && (ok ==> RecordsFollow(before, final, n, x, next))
    && (UnregisterSafe(before, n, x, next, gone) ==> ok && RecordsExact(final))
  }

  /** Unregisters the route with the face and origin of `r`, if there is one, or takes it
      away because its face is destroyed. When the commit succeeds the route goes, and its
      entry with the last one; `ok` is false if the source then stops because a record
      names the erased entry. Otherwise, if the commit went well, everything is consistent
      again exactly when the unregistration was safe. */
  method UnregisterRoute(rib: Rib, ghost fib: Fib, ghost gone: set<FaceId>, n: Name, r: Route, destroyed: bool,
                         rs: seq<(nat, Response)>)
    returns (ok: bool, done: bool, clean: bool, next: Option<Route>, ghost s: Commit,
             ghost lists: (seq<FibUpdate>, seq<FibUpdate>))
    requires Consistent(rib.table, fib, gone) && (destroyed ==> r.faceId in gone)
    modifies rib
    ensures if n in old(rib.table) then IsSecond(old(rib.table)[n].routes, r.faceId, next) else next == None
    ensures ProperLists(r.faceId, lists.0, lists.1)
    ensures forall d, f :: PendingIn(r.faceId, lists.0, lists.1, d, f) ==
                           UnregisterSent(old(rib.table), n, r, next, destroyed, d, f).op
    ensures s == Run(Start(r.faceId, lists.0, lists.1, fib), rs) && FailureHarmless(s, fib, r.faceId)
    ensures (done <==> s.nSuccess > 0) && (clean <==> Undisturbed(s))
    ensures !done ==> ok && rib.table == old(rib.table)
    ensures !Known(old(rib.table), n, r) ==> ok && done && clean && rib.table == old(rib.table) && s.fib == fib
    ensures done && Known(old(rib.table), n, r) ==>
              Unregistered(old(rib.table), rib.table, n, Existing(old(rib.table), n, r), next, gone, ok)
    ensures done && Known(old(rib.table), n, r) && ok && clean ==>
              (Consistent(rib.table, s.fib, gone) <==>
               UnregisterSafe(old(rib.table), n, Existing(old(rib.table), n, r), next, gone))
  {
    var u;
    u, next := ComputeUnregistration(rib.table, fib, gone, n, r, destroyed);
    done, clean, s, lists := Commits(u, fib, rs);
    ok := true;
    if Known(rib.table, n, r) {
      if done {
        ok := FinishUnregistration(rib, fib, gone, n, r, next, u, rs);
      }
    } else {
      NothingToDo(fib, u, rs);
      rib.Erase(n, r);
    }
  }

  method ComputeUnregistration(rib: RibTable, ghost fib: Fib, ghost gone: set<FaceId>, n: Name, r: Route,
                               destroyed: bool)
    returns (u: FibUpdater, next: Option<Route>)
    requires Consistent(rib, fib, gone) && (destroyed ==> r.faceId in gone)
    ensures fresh(u) && u.Valid() && u.batchFaceId == r.faceId
    ensures if n in rib then IsSecond(rib[n].routes, r.faceId, next) else next == None
    ensures forall d, f :: u.At(d, f) == UnregisterSent(rib, n, r, next, destroyed, d, f)
    ensures Known(rib, n, r) ==> HeldFor(u, rib, n, Existing(rib, n, r), next, gone)
    ensures !Known(rib, n, r) ==> forall d, f :: u.At(d, f) == NOTHING
  {
    EntriesCapture(rib);
    u := new FibUpdater(r.faceId);
    var ok;
    ok, next := u.ComputeUpdates(rib, RibUpdate(if destroyed then RemoveFace else Unregister, n, r));
  }

  /** With nothing pending the commit succeeds at once and changes nothing. */
  lemma NothingToDo(fib: Fib, u: FibUpdater, rs: seq<(nat, Response)>)
    requires u.Valid() && forall d, f :: u.At(d, f) == NOTHING
    ensures u.updatesForBatchFaceId == u.updatesForNonBatchFaceId == [] && u.inheritedRoutes == []
    ensures RunOf(u, fib, rs).nSuccess == 1 && RunOf(u, fib, rs).fib == fib && Undisturbed(RunOf(u, fib, rs))
  {
    if u.updatesForBatchFaceId != [] {
      var x := u.updatesForBatchFaceId[0];
      PendingHead(u.updatesForBatchFaceId, x);
      var k := u.Listed(x.name, x.faceId);
    }
    if u.updatesForNonBatchFaceId != [] {
      var x := u.updatesForNonBatchFaceId[0];
      PendingHead(u.updatesForNonBatchFaceId, x);
      var k := u.Listed(x.name, x.faceId);
    }
    if u.inheritedRoutes != [] {
      var x := u.inheritedRoutes[0];
      InLogCounts(u.inheritedRoutes, x);
      var k := u.Listed(x.name, x.route.faceId);
    }
    RunOfNothing(Start(u.batchFaceId, [], [], fib), rs);
  }

  lemma PendingHead(us: seq<FibUpdate>, u: FibUpdate)
    requires us != [] && us[0] == u
    ensures u in us && PendingOp(us, u.name, u.faceId) == ToOp(u)
  {
  }

  lemma {:induction false} RunOfNothing(s: Commit, rs: seq<(nat, Response)>)
    requires s.inFlight == []
    ensures Run(s, rs) == s
  {
    if rs != [] {
      RunOfNothing(s, rs[..|rs| - 1]);
      assert !Enabled(s, rs[|rs| - 1].0);
    }
  }

  predicate AllNamed(log: seq<RibUpdate>, rib: RibTable) {
    forall x :: x in log ==> x.name in rib
  }

  /** `onFibUpdateSuccess` for an unregistration. */
  method FinishUnregistration(rib: Rib, ghost fib: Fib, ghost gone: set<FaceId>, n: Name, r: Route,
                              ghost next: Option<Route>, u: FibUpdater, ghost rs: seq<(nat, Response)>)
                                  returns (ok: bool)
    requires Consistent(rib.table, fib, gone) && Known(rib.table, n, r) && u.Valid()
    requires IsSecond(rib.table[n].routes, r.faceId, next)
    requires HeldFor(u, rib.table, n, Existing(rib.table, n, r), next, gone)
    modifies rib
    ensures Unregistered(old(rib.table), rib.table, n, Existing(old(rib.table), n, r), next, gone, ok)
    ensures ok && WentWell(RunOf(u, fib, rs)) ==>
              (Consistent(rib.table, RunOf(u, fib, rs).fib, gone) <==>
               UnregisterSafe(old(rib.table), n, Existing(old(rib.table), n, r), next, gone))
  {
    ghost var before := rib.table;
    ghost var x := Existing(before, n, r);
    rib.Erase(n, r);
    ghost var after := rib.table;
    ErasedEntry(before, after, n, r, next);
    EntriesCapture(before);
    ok := AllNamed(u.inheritedRoutes, rib.table);
    AllNamedMeans(before, after, n, x, next, u, gone);
    if ok {
      FollowUnregistration(rib, before, fib, gone, n, x, next, u, rs);
      ErasedStays(before, after, rib.table, n, x);
    }
  }

  /** The updater holds what the unregistration leaves pending, but for destroyed faces. */
  ghost predicate HeldFor(u: FibUpdater, rib: RibTable, n: Name, x: Route, next: Option<Route>, gone: set<FaceId>)
    requires n in rib
    reads u
  {
    forall d, f :: HoldsState(u.At(d, f), UnregisterKey(rib, n, rib[n], x, next, d, f), f in gone)
  }

  lemma ErasedStays(before: RibTable, after: RibTable, final: RibTable, n: Name, x: Route)
    requires RouteErased(before, after, n, x)
    requires final.Keys == after.Keys && forall m :: m in after ==> final[m].routes == after[m].routes
    ensures RouteErased(before, final, n, x)
  {
  }

  /** The records of an unregistration follow, and all of them can be applied. */
  method FollowUnregistration(rib: Rib, ghost before: RibTable, ghost fib: Fib, ghost gone: set<FaceId>, ghost n: Name,
                              ghost x: Route, ghost next: Option<Route>, u: FibUpdater, ghost rs: seq<(nat, Response)>)
    requires Consistent(before, fib, gone) && u.Valid() && ErasedInOrder(before, rib.table, n, x, next)
    requires Linked(rib.table) && EntriesExact(rib.table) && AllApplicable(before, rib.table, u)
    requires forall d, f :: d in rib.table ==> RecordCount(rib.table, d, f) == RecordCount(before, d, f)
    requires HeldFor(u, before, n, x, next, gone)
    modifies rib
    ensures Linked(rib.table) && EntriesExact(rib.table)
    ensures rib.table.Keys == old(rib.table).Keys
    ensures forall m :: m in rib.table ==> rib.table[m].routes == old(rib.table)[m].routes
    ensures RecordsFollow(before, rib.table, n, x, next)
    ensures UnregisterSafe(before, n, x, next, gone) ==> RecordsExact(rib.table)
    ensures WentWell(RunOf(u, fib, rs)) ==>
              (Consistent(rib.table, RunOf(u, fib, rs).fib, gone) <==> UnregisterSafe(before, n, x, next, gone))
  {
    ghost var after := rib.table;
    ApplyRecords(rib, before, u);
    UnregistrationEnds(before, after, rib.table, fib, gone, n, x, next, u, rs);
    UnregisteredNow(before, rib.table, n, x, next, u, gone);
  }

  lemma UnregisteredNow(before: RibTable, final: RibTable, n: Name, x: Route, next: Option<Route>, u: FibUpdater,
                        gone: set<FaceId>)
    requires n in before && CountsFollow(before, final, u) && HeldFor(u, before, n, x, next, gone)
    ensures RecordsFollow(before, final, n, x, next)
  {
    forall d, f | d in final
      ensures RecordCount(final, d, f) ==
              CountAfter(RecordCount(before, d, f), UnregisterKey(before, n, before[n], x, next, d, f))
    {
      assert HoldsState(u.At(d, f), UnregisterKey(before, n, before[n], x, next, d, f), f in gone);
    }
  }

  lemma UnregistrationEnds(before: RibTable, after: RibTable, final: RibTable, fib: Fib, gone: set<FaceId>, n: Name,
                           x: Route, next: Option<Route>, u: FibUpdater, rs: seq<(nat, Response)>)
    requires Consistent(before, fib, gone) && u.Valid() && ErasedInOrder(before, after, n, x, next)
    requires HeldFor(u, before, n, x, next, gone)
    requires Linked(final) && EntriesExact(final)
    requires final.Keys == after.Keys && forall m :: m in after ==> final[m].routes == after[m].routes
    requires RecordsExact(final) <==> RecordsAllRight(before, after, u)
    ensures UnregisterSafe(before, n, x, next, gone) ==> RecordsExact(final)
    ensures WentWell(RunOf(u, fib, rs)) ==>
              (Consistent(final, RunOf(u, fib, rs).fib, gone) <==> UnregisterSafe(before, n, x, next, gone))
  {
    EntriesCapture(before);
    UnregisterExact(before, after, n, x, next, gone);
    UnregisterHeld(before, after, n, x, next, u, gone);
    if UnregisterSafe(before, n, x, next, gone) {
      AllRightMeansRecords(before, after, u, gone);
    }
    if WentWell(RunOf(u, fib, rs)) {
      AgreesAgain(before, after, final, fib, u, rs, gone);
    }
  }

  /** What is pending can be applied, and names an erased entry only where something is
      left behind. */
  ghost predicate NamesErased(rib: RibTable, after: RibTable, n: Name, x: Route, k: KeyState, d: Name, f: FaceId)
    requires n in rib
  {
    && k.need <= RecordCount(rib, d, f)
    && (d !in after ==> (k.regs == k.unregs == 0 <==> !LeftBehind(rib, n, x, d, f)))
    && (LeftBehind(rib, n, x, d, f) ==> d == n && d !in after)
  }

  /** The records all name entries if and only if nothing is left behind on an erased name. */
  lemma AllNamedMeans(rib: RibTable, after: RibTable, n: Name, x: Route, next: Option<Route>, u: FibUpdater,
                      gone: set<FaceId>)
    requires u.Valid() && RecordsExact(rib) && CaptureExact(rib) && ErasedInOrder(rib, after, n, x, next)
    requires HeldFor(u, rib, n, x, next, gone)
    ensures AllNamed(u.inheritedRoutes, after) <==> forall f :: !LeftBehind(rib, n, x, n, f)
    ensures AllNamed(u.inheritedRoutes, after) ==> AllApplicable(rib, after, u)
    ensures UnregisterSafe(rib, n, x, next, gone) ==> AllNamed(u.inheritedRoutes, after)
  {
    forall d, f
      ensures NamesErased(rib, after, n, x, u.At(d, f), d, f) && u.At(d, f) == u.Listed(d, f)
    {
      UnregisterApplies(rib, after, n, x, next, d, f);
      assert HoldsState(u.At(d, f), UnregisterKey(rib, n, rib[n], x, next, d, f), f in gone);
    }
    NamedByLog(rib, after, n, x, u);
    if UnregisterSafe(rib, n, x, next, gone) {
      forall f ensures !LeftBehind(rib, n, x, n, f) {
        assert ErasedGood(rib, n, x, next, n, f, gone);
      }
    }
  }

  lemma NamedByLog(rib: RibTable, after: RibTable, n: Name, x: Route, u: FibUpdater)
    requires n in rib && u.Valid()
    requires forall d, f :: NamesErased(rib, after, n, x, u.At(d, f), d, f) && u.At(d, f) == u.Listed(d, f)
    ensures AllNamed(u.inheritedRoutes, after) <==> forall f :: !LeftBehind(rib, n, x, n, f)
    ensures AllNamed(u.inheritedRoutes, after) ==> AllApplicable(rib, after, u)
  {
    if forall f :: !LeftBehind(rib, n, x, n, f) {
      forall y | y in u.inheritedRoutes ensures y.name in after {
        var d, f := y.name, y.route.faceId;
        InLogCounts(u.inheritedRoutes, y);
        assert NamesErased(rib, after, n, x, u.At(d, f), d, f) && u.At(d, f) == u.Listed(d, f);
        assert !LeftBehind(rib, n, x, d, f);
      }
      assert AllApplicable(rib, after, u);
    } else {
      var f :| LeftBehind(rib, n, x, n, f);
      assert NamesErased(rib, after, n, x, u.At(n, f), n, f) && u.At(n, f) == u.Listed(n, f);
      LoggedSomewhere(u.inheritedRoutes, n, f);
    }
  }

  lemma LoggedSomewhere(log: seq<RibUpdate>, n: Name, f: FaceId)
    requires CountRecords(log, Register, n, f) > 0 || CountRecords(log, Unregister, n, f) > 0
    ensures exists x :: x in log && x.name == n
  {
    CountedInLog(log, if CountRecords(log, Register, n, f) > 0 then Register else Unregister, n, f);
  }

  // --------------------------------------------------------------- runs of updates

  function GoneAfter(gone: set<FaceId>, u: RibUpdate): set<FaceId> {
    if u.action == RemoveFace then gone + {u.route.faceId} else gone
  }

  /** The faces destroyed in the course of some updates. */
  function GoneIn(us: seq<RibUpdate>): set<FaceId> {
    if us == [] then {} else GoneAfter(GoneIn(us[..|us| - 1]), us[|us| - 1])
  }

  /** The update keeps everything consistent, whichever second-cheapest route is found. */
  ghost predicate UpdateSafe(rib: RibTable, u: RibUpdate, gone: set<FaceId>) {
    if u.action == Register then
      !RegistrationBreaks(rib, u.name, u.route) && RegisterSafe(rib, u.name, u.route, gone)
    else
      Known(rib, u.name, u.route) ==>
        forall next :: IsSecond(rib[u.name].routes, u.route.faceId, next) ==>
          UnregisterSafe(rib, u.name, Existing(rib, u.name, u.route), next, GoneAfter(gone, u))
  }

  /** What an update that went well may make of the RIB. */
  ghost predicate MayFollow(rib: RibTable, u: RibUpdate, after: RibTable) {
    if u.action == Register then Registered(rib, after, u.name, u.route)
    else if !Known(rib, u.name, u.route) then after == rib
    else
      && RouteErased(rib, after, u.name, Existing(rib, u.name, u.route))
      && exists next :: IsSecond(rib[u.name].routes, u.route.faceId, next)
                        && RecordsFollow(rib, after, u.name, Existing(rib, u.name, u.route), next)
  }

  /** Every update is safe in whatever RIB the ones before it may have made. */
  ghost predicate SafeRun(rib: RibTable, us: seq<RibUpdate>, gone: set<FaceId>)
    decreases |us|
  {
    us != [] ==>
      && UpdateSafe(rib, us[0], gone)
      && forall after :: MayFollow(rib, us[0], after) ==> SafeRun(after, us[1..], GoneAfter(gone, us[0]))
  }

  /** The daemon starts with an empty RIB, and nothing of it in the FIB. */
  method StartDaemon() returns (rib: Rib)
    ensures fresh(rib) && rib.table == map[] && Consistent(rib.table, map[], {})
  {
    rib := new Rib();
  }

  /** The lists hold exactly what the update leaves to be sent. */
  ghost predicate ListsFor(rib: RibTable, u: RibUpdate, next: Option<Route>, lists: (seq<FibUpdate>, seq<FibUpdate>)) {
    && ProperLists(u.route.faceId, lists.0, lists.1)
    && if u.action == Register then
         forall d, f :: PendingIn(u.route.faceId, lists.0, lists.1, d, f) == RegisterKey(rib, u.name, u.route, d, f).op
       else
         && (if u.name in rib then IsSecond(rib[u.name].routes, u.route.faceId, next) else next == None)
         && forall d, f :: PendingIn(u.route.faceId, lists.0, lists.1, d, f) ==
                           UnregisterSent(rib, u.name, u.route, next, u.action == RemoveFace, d, f).op
  }

  /** `s` is a commit of what the update leaves to be sent, under the responses `rs`. */
  ghost predicate CommitOf(rib: RibTable, u: RibUpdate, fib: Fib, rs: seq<(nat, Response)>, s: Commit) {
    exists lists, next :: ListsFor(rib, u, next, lists) && s == Run(Start(u.route.faceId, lists.0, lists.1, fib), rs)
  }

  /** The RIB changes once the commit succeeds, and only then. */
  ghost predicate Follows(rib: RibTable, u: RibUpdate, s: Commit, after: RibTable) {
    if s.nSuccess > 0 then MayFollow(rib, u, after) else after == rib
  }

  /** One safe update of any kind. */
  method Update(rib: Rib, ghost fib: Fib, ghost gone: set<FaceId>, u: RibUpdate, rs: seq<(nat, Response)>)
    returns (well: bool, ghost s: Commit)
    requires Consistent(rib.table, fib, gone) && UpdateSafe(rib.table, u, gone)
    modifies rib
    ensures CommitOf(old(rib.table), u, fib, rs, s) && Follows(old(rib.table), u, s, rib.table)
    ensures well <==> WentWell(s)
    ensures well ==> Consistent(rib.table, s.fib, GoneAfter(gone, u))
  {
    var ok, done, clean, next;
    ghost var lists;
    if u.action == Register {
      ok, done, clean, s, lists := RegisterRoute(rib, fib, gone, u.name, u.route, rs);
      next := None;
    } else {
      ok, done, clean, next, s, lists :=
        UnregisterRoute(rib, fib, GoneAfter(gone, u), u.name, u.route, u.action == RemoveFace, rs);
      assert done && Known(old(rib.table), u.name, u.route) ==>
             UnregisterSafe(old(rib.table), u.name, Existing(old(rib.table), u.name, u.route), next,
                 GoneAfter(gone, u));
    }
    assert ListsFor(old(rib.table), u, next, lists);
    well := done && clean;
  }

  /** Every command was answered, none with a missing face or another error, no update
      timed out more than ten times, and no REMOVE did. */
  ghost predicate GoodResponses(u: RibUpdate, lists: (seq<FibUpdate>, seq<FibUpdate>), fib: Fib,
                                rs: seq<(nat, Response)>)
  {
    var s0 := Start(u.route.faceId, lists.0, lists.1, fib);
    && NoFaceMissing(rs) && NoneRefused(rs) && Run(s0, rs).inFlight == []
    && forall x :: TimeoutsOf(s0, rs, x) <= if x.action == AddNextHop then 10 else 0
  }

  lemma GoodCommitGoesWell(rib: RibTable, u: RibUpdate, next: Option<Route>, lists: (seq<FibUpdate>, seq<FibUpdate>),
                           fib: Fib, rs: seq<(nat, Response)>)
    requires ListsFor(rib, u, next, lists) && GoodResponses(u, lists, fib, rs)
    ensures WentWell(Run(Start(u.route.faceId, lists.0, lists.1, fib), rs))
  {
    var s0 := Start(u.route.faceId, lists.0, lists.1, fib);
    assert forall x :: TimeoutsOf(s0, rs, x) <= 10;
    CommitSucceeds(fib, u.route.faceId, lists.0, lists.1, rs);
  }

  lemma DoneCommitGoesWell(rib: RibTable, u: RibUpdate, next: Option<Route>, lists: (seq<FibUpdate>, seq<FibUpdate>),
                           fib: Fib, rs: seq<(nat, Response)>)
    requires ListsFor(rib, u, next, lists) && AllDone(rs) && |rs| >= |lists.0| + |lists.1|
    ensures WentWell(Run(Start(u.route.faceId, lists.0, lists.1, fib), rs))
  {
    AllDoneSucceeds(fib, u.route.faceId, lists.0, lists.1, rs);
  }

  /** Whatever lists the update leads to, the responses let its commit go well. */
  ghost predicate AnsweredWell(rib: RibTable, u: RibUpdate, fib: Fib, rs: seq<(nat, Response)>) {
    forall next, lists :: ListsFor(rib, u, next, lists) ==>
      GoodResponses(u, lists, fib, rs) || (AllDone(rs) && |rs| >= |lists.0| + |lists.1|)
  }

  lemma AnsweredCommitGoesWell(rib: RibTable, u: RibUpdate, fib: Fib, rs: seq<(nat, Response)>, s: Commit)
    requires CommitOf(rib, u, fib, rs, s) && AnsweredWell(rib, u, fib, rs)
    ensures WentWell(s)
  {
    var lists, next :| ListsFor(rib, u, next, lists) && s == Run(Start(u.route.faceId, lists.0, lists.1, fib), rs);
    if GoodResponses(u, lists, fib, rs) {
      GoodCommitGoesWell(rib, u, next, lists, fib, rs);
    } else {
      DoneCommitGoesWell(rib, u, next, lists, fib, rs);
    }
  }

  /** One update of a run, served. */
  ghost predicate Served(rib: RibTable, fib: Fib, u: RibUpdate, rs: seq<(nat, Response)>, after: RibTable, fib': Fib) {
    MayFollow(rib, u, after) && exists s :: CommitOf(rib, u, fib, rs, s) && WentWell(s) && s.fib == fib'
  }

  /** The tables and FIBs from an empty RIB on, one more than there are updates. */
  ghost predicate Course(us: seq<RibUpdate>, rss: seq<seq<(nat, Response)>>, tables: seq<RibTable>, fibs: seq<Fib>)
    requires |rss| == |us|
  {
    && |tables| == |fibs| == |us| + 1 && tables[0] == map[] && fibs[0] == map[]
    && forall i :: 0 <= i < |us| ==> Served(tables[i], fibs[i], us[i], rss[i], tables[i + 1], fibs[i + 1])
  }

  /** After every update RIB, records and FIB agree, but for the faces destroyed so far. */
  ghost predicate AllConsistent(us: seq<RibUpdate>, tables: seq<RibTable>, fibs: seq<Fib>)
    requires |tables| == |fibs| == |us| + 1
  {
    forall i :: 0 <= i <= |us| ==> Consistent(tables[i], fibs[i], GoneIn(us[..i]))
  }

  lemma OneMoreConsistent(us: seq<RibUpdate>, i: nat, tables: seq<RibTable>, fibs: seq<Fib>, after: RibTable, fib: Fib)
    requires i < |us| && |tables| == |fibs| == i + 1 && AllConsistent(us[..i], tables, fibs)
    requires Consistent(after, fib, GoneIn(us[..i + 1]))
    ensures AllConsistent(us[..i + 1], tables + [after], fibs + [fib])
  {
    forall j | 0 <= j <= i + 1 ensures Consistent((tables + [after])[j], (fibs + [fib])[j], GoneIn(us[..i + 1][..j])) {
      if j <= i {
        assert us[..i + 1][..j] == us[..i][..j];
        assert Consistent(tables[j], fibs[j], GoneIn(us[..i][..j]));
      } else {
        assert us[..i + 1][..j] == us[..i + 1];
      }
    }
  }

  lemma OneMoreServed(us: seq<RibUpdate>, rss: seq<seq<(nat, Response)>>, i: nat, tables: seq<RibTable>,
                      fibs: seq<Fib>, after: RibTable, s: Commit)
    requires |rss| == |us| && i < |us| && Course(us[..i], rss[..i], tables, fibs)
    requires MayFollow(tables[i], us[i], after) && CommitOf(tables[i], us[i], fibs[i], rss[i], s) && WentWell(s)
    ensures Course(us[..i + 1], rss[..i + 1], tables + [after], fibs + [s.fib])
  {
    var tables', fibs' := tables + [after], fibs + [s.fib];
    forall j | 0 <= j < i + 1 ensures Served(tables'[j], fibs'[j], us[j], rss[j], tables'[j + 1], fibs'[j + 1]) {
      assert j < i ==> Served(tables[j], fibs[j], us[..i][j], rss[..i][j], tables[j + 1], fibs[j + 1]);
    }
  }

  /** The first `i` updates have been served, which made the table what it is. */
  ghost predicate Underway(us: seq<RibUpdate>, rss: seq<seq<(nat, Response)>>, i: nat, table: RibTable,
                           tables: seq<RibTable>, fibs: seq<Fib>)
    requires |rss| == |us|
  {
    && i <= |us| && Course(us[..i], rss[..i], tables, fibs) && AllConsistent(us[..i], tables, fibs)
    && table == tables[i] && SafeRun(table, us[i..], GoneIn(us[..i]))
  }

  lemma UnderwayAtFirst(us: seq<RibUpdate>, rss: seq<seq<(nat, Response)>>)
    requires |rss| == |us| && SafeRun(map[], us, {}) && Consistent(map[], map[], {})
    ensures Underway(us, rss, 0, map[], [map[]], [map[]])
  {
    assert us[0..] == us && us[..0] == [] && us[..0][..0] == [];
  }

  lemma UnderwaySafe(us: seq<RibUpdate>, rss: seq<seq<(nat, Response)>>, i: nat, table: RibTable,
                     tables: seq<RibTable>, fibs: seq<Fib>)
    requires |rss| == |us| && Underway(us, rss, i, table, tables, fibs) && i < |us|
    ensures Consistent(table, fibs[i], GoneIn(us[..i])) && UpdateSafe(table, us[i], GoneIn(us[..i]))
  {
    assert us[..i][..i] == us[..i] && us[i..][0] == us[i];
  }

  lemma UnderwayNext(us: seq<RibUpdate>, rss: seq<seq<(nat, Response)>>, i: nat, table: RibTable,
                     tables: seq<RibTable>, fibs: seq<Fib>, after: RibTable, s: Commit)
    requires |rss| == |us| && Underway(us, rss, i, table, tables, fibs) && i < |us|
    requires CommitOf(table, us[i], fibs[i], rss[i], s) && WentWell(s) && MayFollow(table, us[i], after)
    requires Consistent(after, s.fib, GoneAfter(GoneIn(us[..i]), us[i]))
    ensures Underway(us, rss, i + 1, after, tables + [after], fibs + [s.fib])
  {
    assert us[i..][0] == us[i] && us[i..][1..] == us[i + 1..];
    assert us[..i + 1][..i] == us[..i];
    OneMoreServed(us, rss, i, tables, fibs, after, s);
    OneMoreConsistent(us, i, tables, fibs, after, s.fib);
  }

  /** Serves updates one after the other, each with the responses to its commands, until
      one does not go well. Up to there each has been committed and has changed the table
      as it must, and RIB, records and FIB are consistent, whatever the order of the
      responses was. The one that does not go well has been committed too, but not answered
      well. */
  method Serve(us: seq<RibUpdate>, rss: seq<seq<(nat, Response)>>)
    returns (rib: Rib, served: nat, ghost tables: seq<RibTable>, ghost fibs: seq<Fib>, ghost last: Commit)
    requires |rss| == |us| && SafeRun(map[], us, {})
    ensures fresh(rib) && served <= |us| && Course(us[..served], rss[..served], tables, fibs)
    ensures AllConsistent(us[..served], tables, fibs)
    ensures served == |us| ==> rib.table == tables[served]
    ensures served < |us| ==>
              && CommitOf(tables[served], us[served], fibs[served], rss[served], last) && !WentWell(last)
              && Follows(tables[served], us[served], last, rib.table)
    ensures served < |us| ==> !AnsweredWell(tables[served], us[served], fibs[served], rss[served])
  {
    rib := StartDaemon();
    served, tables, fibs, last := 0, [rib.table], [map[]], Start(0, [], [], map[]);
    UnderwayAtFirst(us, rss);
    while served < |us|
      invariant fresh(rib) && Underway(us, rss, served, rib.table, tables, fibs)
    {
      UnderwaySafe(us, rss, served, rib.table, tables, fibs);
      ghost var before := rib.table;
      var well;
      well, last := Update(rib, fibs[served], GoneIn(us[..served]), us[served], rss[served]);
      if !well {
        if AnsweredWell(before, us[served], fibs[served], rss[served]) {
          AnsweredCommitGoesWell(before, us[served], fibs[served], rss[served], last);
        }
        return;
      }
      UnderwayNext(us, rss, served, before, tables, fibs, rib.table, last);
      tables, fibs, served := tables + [rib.table], fibs + [last.fib], served + 1;
    }
  }

  // Runs of safe updates exist: routes without flags, each new to its entry.

  predicate PlainRoute(r: Route) { !r.childInherit && !r.capture }

  predicate PlainRoutes(routes: seq<Route>) {
    forall y :: y in routes ==> PlainRoute(y)
  }

  ghost predicate Plain(rib: RibTable) {
    forall m :: m in rib ==> PlainRoutes(rib[m].routes)
  }

  predicate SameRoute(a: RibUpdate, b: RibUpdate) { a.name == b.name && SameKey(a.route, b.route) }

  /** Plain routes, none of which the table or an earlier update has. */
  ghost predicate PlainRegistrations(rib: RibTable, us: seq<RibUpdate>) {
    && (forall u :: u in us ==> u.action == Register && PlainRoute(u.route) && !Known(rib, u.name, u.route))
    && forall i, j :: 0 <= i < j < |us| ==> !SameRoute(us[i], us[j])
  }

  lemma {:induction false} PlainInheritsNothing(rib: RibTable, n: Name, k: nat, f: FaceId)
    requires Plain(rib) && k <= |n|
    ensures Source(rib, n, k, f) == None
  {
    if k > 0 {
      var p := n[..k - 1];
      assert p in rib ==> PlainRoutes(rib[p].routes);
      PlainInheritsNothing(rib, n, k - 1, f);
    }
  }

  lemma PlainIsSafe(rib: RibTable, n: Name, r: Route, gone: set<FaceId>)
    requires Plain(rib) && PlainRoute(r) && !Known(rib, n, r)
    ensures RegisterSafe(rib, n, r, gone)
  {
    forall f ensures AncestorRoute(rib, n, f) == None && !Inherits(rib, n, f) {
      PlainInheritsNothing(rib, n, |n|, f);
    }
    if n in rib {
      forall d, f ensures RouteGood(rib, n, r, d, f, gone) {
      }
    }
  }

  lemma PlainAfter(rib: RibTable, after: RibTable, u: RibUpdate, rest: seq<RibUpdate>)
    requires Plain(rib) && PlainRegistrations(rib, [u] + rest) && MayFollow(rib, u, after)
    ensures Plain(after) && PlainRegistrations(after, rest)
  {
    var us := [u] + rest;
    assert us[0] == u && forall i :: 0 <= i < |rest| ==> rest[i] == us[i + 1];
    forall x | x in rest ensures x.action == Register && PlainRoute(x.route) && !Known(after, x.name, x.route) {
      var i :| 0 <= i < |rest| && rest[i] == x;
      assert us[i + 1] in us && !SameRoute(us[0], us[i + 1]);
      KnownAfter(rib, after, u, x);
    }
  }

  lemma KnownAfter(rib: RibTable, after: RibTable, u: RibUpdate, x: RibUpdate)
    requires !Known(rib, u.name, u.route) && RouteRegistered(rib, after, u.name, u.route)
    requires !Known(rib, x.name, x.route) && !SameRoute(u, x)
    ensures !Known(after, x.name, x.route)
  {
    assert x.name != u.name ==> (x.name in rib <==> x.name in after);
  }

  /** Any sequence of registrations of plain, distinct routes is safe, in any table of
      plain routes. */
  lemma {:induction false} PlainRunSafe(rib: RibTable, us: seq<RibUpdate>, gone: set<FaceId>)
    requires Plain(rib) && PlainRegistrations(rib, us)
    ensures SafeRun(rib, us, gone)
    decreases |us|
  {
    if us != [] {
      assert us == [us[0]] + us[1..];
      assert us[0] in us;
      PlainIsSafe(rib, us[0].name, us[0].route, gone);
      forall after | MayFollow(rib, us[0], after) ensures SafeRun(after, us[1..], GoneAfter(gone, us[0])) {
        PlainAfter(rib, after, us[0], us[1..]);
        PlainRunSafe(after, us[1..], GoneAfter(gone, us[0]));
      }
    }
  }
}
