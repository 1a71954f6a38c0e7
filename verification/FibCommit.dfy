/** `FibUpdater`, second half: the computed updates are sent as asynchronous commands,
    first those of the batch face, then the others, with retries. */
module FibCommit {
  import opened Options
  import opened RibEntries
  import opened FibDeltas
  import opened FibUpdaters

  const MAX_NUM_TIMEOUTS: nat := 10

  type Fib = map<(Name, FaceId), nat>

  function Lookup(fib: Fib, n: Name, f: FaceId): Option<nat> {
    if (n, f) in fib then Some(fib[(n, f)]) else None
  }

  /** What the forwarder does with an add or remove command. */
  function Execute(fib: Fib, u: FibUpdate, kind: Action): Fib {
    if kind == AddNextHop then fib[(u.name, u.faceId) := u.cost] else fib - {(u.name, u.faceId)}
  }

  /** A command on its way: the first attempt has the kind of the update, every
      retry is sent by `sendAddNextHopUpdate`. */
  datatype Command = Command(update: FibUpdate, kind: Action, nTimeouts: nat)

  datatype Response = Done | Timeout(executed: bool) | FaceNotFound | OtherError

  datatype Commit = Commit(
    batchFaceId: FaceId,
    batch: seq<FibUpdate>,
    nonBatch: seq<FibUpdate>,
    inFlight: seq<Command>,
    fib: Fib,
    nSuccess: nat,
    nFailure: nat,
    threw: bool,
    sent: multiset<FibUpdate>,
    retried: set<FibUpdate>,
    missing: set<FibUpdate>)

  // ---------------------------------------------------------------- transitions

  /** `std::list::remove`: drops every equal update. */
  function Drop(us: seq<FibUpdate>, u: FibUpdate): (r: seq<FibUpdate>)
    ensures forall x :: x in r <==> x in us && x != u
    ensures |r| <= |us|
    ensures u in us ==> |r| < |us|
  {
    if us == [] then []
    else
      var init, last := us[..|us| - 1], us[|us| - 1];
      assert forall x :: x in us <==> x in init || x == last;
      if last == u then Drop(init, u) else Drop(init, u) + [last]
  }

  function FirstAttempts(us: seq<FibUpdate>): (cs: seq<Command>)
    ensures |cs| == |us|
    ensures forall i :: 0 <= i < |us| ==> cs[i] == Command(us[i], us[i].action, 0)
  {
    if us == [] then [] else FirstAttempts(us[..|us| - 1]) + [Command(us[|us| - 1], us[|us| - 1].action, 0)]
  }

  function SendUpdates(s: Commit, us: seq<FibUpdate>): Commit {
    s.(inFlight := s.inFlight + FirstAttempts(us), sent := s.sent + multiset(us))
  }

  function SendUpdatesForNonBatchFaceId(s: Commit): Commit {
    if |s.nonBatch| > 0 then SendUpdates(s, s.nonBatch) else s.(nSuccess := s.nSuccess + 1)
  }

  function SendUpdatesForBatchFaceId(s: Commit): Commit {
    if |s.batch| > 0 then SendUpdates(s, s.batch) else SendUpdatesForNonBatchFaceId(s)
  }

  function Start(faceId: FaceId, batch: seq<FibUpdate>, nonBatch: seq<FibUpdate>, fib: Fib): Commit {
    SendUpdatesForBatchFaceId(Commit(faceId, batch, nonBatch, [], fib, 0, 0, false, multiset{}, {}, {}))
  }

  function OnUpdateSuccess(s: Commit, u: FibUpdate): Commit {
    if u.faceId == s.batchFaceId then
      var s1 := s.(batch := Drop(s.batch, u));
      if |s1.batch| == 0 then SendUpdatesForNonBatchFaceId(s1) else s1
    else
      AfterNonBatch(s, u)
  }

  function AfterNonBatch(s: Commit, u: FibUpdate): Commit {
    var s1 := s.(nonBatch := Drop(s.nonBatch, u));
    if |s1.nonBatch| == 0 then s1.(nSuccess := s1.nSuccess + 1) else s1
  }

  function OnFaceNotFound(s: Commit, u: FibUpdate): Commit {
    if u.faceId == s.batchFaceId then s.(nFailure := s.nFailure + 1) else AfterNonBatch(s, u)
  }

  function Resend(s: Commit, u: FibUpdate, nTimeouts: nat): Commit {
    s.(inFlight := s.inFlight + [Command(u, AddNextHop, nTimeouts)], sent := s.sent + multiset{u},
        retried := s.retried + {u})
  }

  predicate Enabled(s: Commit, i: nat) { !s.threw && i < |s.inFlight| }

  /** The response to the `i`-th command in flight arrives. */
  function Respond(s: Commit, i: nat, resp: Response): Commit
    requires Enabled(s, i)
  {
    var c := s.inFlight[i];
    var s1 := s.(inFlight := s.inFlight[..i] + s.inFlight[i + 1..]);
    match resp
    case Done => OnUpdateSuccess(s1.(fib := Execute(s.fib, c.update, c.kind)), c.update)
    case Timeout(executed) =>
      var fib := if executed then Execute(s.fib, c.update, c.kind) else s.fib;
      if c.nTimeouts < MAX_NUM_TIMEOUTS then Resend(s1.(fib := fib), c.update, c.nTimeouts + 1)
      else s.(fib := fib, threw := true)
    case FaceNotFound => OnFaceNotFound(s1.(missing := s.missing + {c.update}), c.update)
    case OtherError => s.(threw := true)
  }

  /** A run: responses arrive in any order; a response to no command is ignored. */
  function Run(s: Commit, rs: seq<(nat, Response)>): Commit
    decreases |rs|
  {
    if rs == [] then s
    else
      var s1 := Run(s, rs[..|rs| - 1]);
      var (i, resp) := rs[|rs| - 1];
      if Enabled(s1, i) then Respond(s1, i, resp) else s1
  }

  // ------------------------------------------------------------------ invariant

  /** The lists handed over by the first half. */
  ghost predicate ProperLists(faceId: FaceId, batch: seq<FibUpdate>, nonBatch: seq<FibUpdate>) {
    && UniqueKeys(batch) && UniqueKeys(nonBatch)
    && (forall u :: u in batch ==> u.faceId == faceId)
    && (forall u :: u in nonBatch ==> u.faceId != faceId)
  }

  predicate Flying(s: Commit, u: FibUpdate) {
    exists i :: 0 <= i < |s.inFlight| && s.inFlight[i].update == u
  }

  ghost predicate OneCommandEach(s: Commit) {
    forall i, j :: 0 <= i < j < |s.inFlight| ==> s.inFlight[i].update != s.inFlight[j].update
  }

  ghost predicate Phases(s: Commit, nonBatch: seq<FibUpdate>) {
    if s.batch != [] then
      && s.nonBatch == nonBatch && s.nSuccess == 0
      && (forall u :: Flying(s, u) ==> u in s.batch)
      && (s.nFailure == 0 ==> forall u :: u in s.batch ==> Flying(s, u))
      && (s.nFailure > 0 ==> exists u :: u in s.batch && !Flying(s, u))
    else
      && s.nFailure == 0
      && (forall u :: u in s.nonBatch <==> Flying(s, u))
      && s.nSuccess == (if s.nonBatch == [] then 1 else 0)
  }

  ghost predicate Structure(s: Commit, faceId: FaceId, batch: seq<FibUpdate>, nonBatch: seq<FibUpdate>) {
    && s.batchFaceId == faceId
    && (forall u :: u in s.batch ==> u in batch)
    && (forall u :: u in s.nonBatch ==> u in nonBatch)
    && OneCommandEach(s)
    && Phases(s, nonBatch)
  }

  // ---------------------------------------------------- removing one in flight

  lemma WithoutFlying(s: Commit, s1: Commit, i: nat)
    requires i < |s.inFlight| && OneCommandEach(s)
    requires s1.inFlight == s.inFlight[..i] + s.inFlight[i + 1..]
    ensures OneCommandEach(s1)
    ensures forall u :: Flying(s1, u) <==> Flying(s, u) && u != s.inFlight[i].update
  {
    forall u ensures Flying(s1, u) <==> Flying(s, u) && u != s.inFlight[i].update {
      if Flying(s, u) && u != s.inFlight[i].update {
        var j :| 0 <= j < |s.inFlight| && s.inFlight[j].update == u;
        assert s1.inFlight[if j < i then j else j - 1].update == u;
      }
      if Flying(s1, u) {
        var j :| 0 <= j < |s1.inFlight| && s1.inFlight[j].update == u;
        assert s.inFlight[if j < i then j else j + 1].update == u;
      }
    }
  }

  lemma WithFirstAttempts(s: Commit, us: seq<FibUpdate>)
    requires s.inFlight == FirstAttempts(us) && UniqueKeys(us)
    ensures OneCommandEach(s)
    ensures forall u :: Flying(s, u) <==> u in us
  {
  }

  lemma StartStructure(faceId: FaceId, batch: seq<FibUpdate>, nonBatch: seq<FibUpdate>, fib: Fib)
    requires ProperLists(faceId, batch, nonBatch)
    ensures Structure(Start(faceId, batch, nonBatch, fib), faceId, batch, nonBatch)
  {
    var s := Commit(faceId, batch, nonBatch, [], fib, 0, 0, false, multiset{}, {}, {});
    if batch != [] {
      FirstPhase(s, faceId, batch, nonBatch);
    } else {
      SecondPhase(s, faceId, batch, nonBatch);
    }
  }

  lemma FirstPhase(s: Commit, faceId: FaceId, batch: seq<FibUpdate>, nonBatch: seq<FibUpdate>)
    requires ProperLists(faceId, batch, nonBatch) && batch != []
    requires s.batchFaceId == faceId && s.batch == batch && s.nonBatch == nonBatch && s.inFlight == []
    requires s.nSuccess == s.nFailure == 0
    ensures Structure(SendUpdates(s, batch), faceId, batch, nonBatch)
  {
    assert [] + FirstAttempts(batch) == FirstAttempts(batch);
    WithFirstAttempts(SendUpdates(s, batch), batch);
  }

  /** `s1` is `s` with the command for `u` taken out of flight. */
  ghost predicate TakenOut(s: Commit, s1: Commit, u: FibUpdate) {
    && Flying(s, u) && OneCommandEach(s1)
    && (forall x :: Flying(s1, x) <==> Flying(s, x) && x != u)
    && s1.batchFaceId == s.batchFaceId && s1.batch == s.batch && s1.nonBatch == s.nonBatch
    && s1.nSuccess == s.nSuccess && s1.nFailure == s.nFailure
  }

  lemma OneTakenOut(s: Commit, s1: Commit, i: nat)
    requires i < |s.inFlight| && OneCommandEach(s)
    requires s1 == s.(inFlight := s.inFlight[..i] + s.inFlight[i + 1..], fib := s1.fib, missing := s1.missing)
    ensures TakenOut(s, s1, s.inFlight[i].update)
  {
    WithoutFlying(s, s1, i);
    assert Flying(s, s.inFlight[i].update);
  }

  lemma NothingFlying(s: Commit)
    requires forall u :: !Flying(s, u)
    ensures s.inFlight == []
  {
    if s.inFlight != [] {
      assert Flying(s, s.inFlight[0].update);
    }
  }

  /** The last update of the batch face is acknowledged: no failure, nothing in flight. */
  lemma LastBatchAck(s: Commit, s1: Commit, u: FibUpdate,
                     faceId: FaceId, batch: seq<FibUpdate>, nonBatch: seq<FibUpdate>)
    requires Structure(s, faceId, batch, nonBatch) && TakenOut(s, s1, u)
    requires s.batch != [] && Drop(s.batch, u) == []
    ensures s1.inFlight == [] && s.nFailure == 0
  {
    assert forall x :: x in s.batch ==> x == u;
    NothingFlying(s1);
  }

  lemma BatchAckStructure(s: Commit, s1: Commit, u: FibUpdate,
                          faceId: FaceId, batch: seq<FibUpdate>, nonBatch: seq<FibUpdate>)
    requires ProperLists(faceId, batch, nonBatch) && Structure(s, faceId, batch, nonBatch)
    requires TakenOut(s, s1, u) && u.faceId == faceId
    ensures Structure(OnUpdateSuccess(s1, u), faceId, batch, nonBatch)
  {
    var s2 := s1.(batch := Drop(s1.batch, u));
    assert s.batch != [];
    if s2.batch == [] {
      LastBatchAck(s, s1, u, faceId, batch, nonBatch);
      SecondPhase(s2, faceId, batch, nonBatch);
    } else {
      assert forall x :: Flying(s2, x) <==> Flying(s1, x);
      if s.nFailure > 0 {
        var x :| x in s.batch && !Flying(s, x);
        assert x in s2.batch && !Flying(s2, x);
      }
    }
  }

  lemma SecondPhase(s: Commit, faceId: FaceId, batch: seq<FibUpdate>, nonBatch: seq<FibUpdate>)
    requires ProperLists(faceId, batch, nonBatch)
    requires s.batchFaceId == faceId && s.batch == [] && s.nonBatch == nonBatch && s.inFlight == []
    requires s.nSuccess == s.nFailure == 0
    ensures Structure(SendUpdatesForNonBatchFaceId(s), faceId, batch, nonBatch)
  {
    if nonBatch != [] {
      assert [] + FirstAttempts(nonBatch) == FirstAttempts(nonBatch);
      WithFirstAttempts(SendUpdates(s, nonBatch), nonBatch);
    }
  }

  lemma NonBatchAckStructure(s: Commit, s1: Commit, u: FibUpdate,
                             faceId: FaceId, batch: seq<FibUpdate>, nonBatch: seq<FibUpdate>)
    requires ProperLists(faceId, batch, nonBatch) && Structure(s, faceId, batch, nonBatch)
    requires TakenOut(s, s1, u) && u.faceId != faceId
    ensures Structure(AfterNonBatch(s1, u), faceId, batch, nonBatch)
  {
  }

  lemma ResendStructure(s: Commit, s1: Commit, u: FibUpdate, k: nat,
                        faceId: FaceId, batch: seq<FibUpdate>, nonBatch: seq<FibUpdate>)
    requires Structure(s, faceId, batch, nonBatch)
    requires TakenOut(s, s1, u)
    ensures Structure(Resend(s1, u, k), faceId, batch, nonBatch)
  {
    var s2 := Resend(s1, u, k);
    forall x ensures Flying(s2, x) <==> Flying(s, x) {
      if x == u {
        assert s2.inFlight[|s1.inFlight|].update == u;
      } else {
        if Flying(s1, x) {
          var j :| 0 <= j < |s1.inFlight| && s1.inFlight[j].update == x;
          assert s2.inFlight[j].update == x;
        }
        if Flying(s2, x) {
          var j :| 0 <= j < |s2.inFlight| && s2.inFlight[j].update == x;
          assert s1.inFlight[j].update == x;
        }
      }
    }
    assert !Flying(s1, u);
    if s.batch != [] && s.nFailure > 0 {
      var x :| x in s.batch && !Flying(s, x);
      assert x in s2.batch && !Flying(s2, x);
    }
  }

  lemma DoneStructure(s: Commit, i: nat, faceId: FaceId, batch: seq<FibUpdate>, nonBatch: seq<FibUpdate>)
    requires ProperLists(faceId, batch, nonBatch)
    requires Structure(s, faceId, batch, nonBatch) && Enabled(s, i)
    ensures Structure(Respond(s, i, Done), faceId, batch, nonBatch)
  {
    var c := s.inFlight[i];
    var s1 := s.(inFlight := Others(s, i), fib := Execute(s.fib, c.update, c.kind));
    OneTakenOut(s, s1, i);
    AckStructure(s, s1, c.update, faceId, batch, nonBatch);
  }

  lemma FaceNotFoundStructure(s: Commit, i: nat, faceId: FaceId, batch: seq<FibUpdate>, nonBatch: seq<FibUpdate>)
    requires ProperLists(faceId, batch, nonBatch)
    requires Structure(s, faceId, batch, nonBatch) && Enabled(s, i)
    ensures Structure(Respond(s, i, FaceNotFound), faceId, batch, nonBatch)
  {
    var s1 := s.(inFlight := Others(s, i), missing := s.missing + {s.inFlight[i].update});
    OneTakenOut(s, s1, i);
    LostStructure(s, s1, s.inFlight[i].update, faceId, batch, nonBatch);
  }

  lemma TimeoutStructure(s: Commit, i: nat, executed: bool, faceId: FaceId, batch: seq<FibUpdate>,
                         nonBatch: seq<FibUpdate>)
    requires Structure(s, faceId, batch, nonBatch) && Enabled(s, i)
    ensures Structure(Respond(s, i, Timeout(executed)), faceId, batch, nonBatch)
  {
    var c := s.inFlight[i];
    var fib := if executed then Execute(s.fib, c.update, c.kind) else s.fib;
    if c.nTimeouts < MAX_NUM_TIMEOUTS {
      var s1 := s.(inFlight := Others(s, i), fib := fib);
      OneTakenOut(s, s1, i);
      ResendStructure(s, s1, c.update, c.nTimeouts + 1, faceId, batch, nonBatch);
    } else {
      ThrowStructure(s, fib, faceId, batch, nonBatch);
    }
  }

  lemma RespondStructure(s: Commit, i: nat, resp: Response, faceId: FaceId, batch: seq<FibUpdate>,
                         nonBatch: seq<FibUpdate>)
    requires ProperLists(faceId, batch, nonBatch)
    requires Structure(s, faceId, batch, nonBatch) && Enabled(s, i)
    ensures Structure(Respond(s, i, resp), faceId, batch, nonBatch)
  {
    match resp
    case Done => DoneStructure(s, i, faceId, batch, nonBatch);
    case FaceNotFound => FaceNotFoundStructure(s, i, faceId, batch, nonBatch);
    case Timeout(executed) => TimeoutStructure(s, i, executed, faceId, batch, nonBatch);
    case OtherError => ThrowStructure(s, s.fib, faceId, batch, nonBatch);
  }

  lemma AckStructure(s: Commit, s1: Commit, u: FibUpdate, faceId: FaceId, batch: seq<FibUpdate>,
                     nonBatch: seq<FibUpdate>)
    requires ProperLists(faceId, batch, nonBatch) && Structure(s, faceId, batch, nonBatch) && TakenOut(s, s1, u)
    ensures Structure(OnUpdateSuccess(s1, u), faceId, batch, nonBatch)
  {
    if u.faceId == faceId {
      BatchAckStructure(s, s1, u, faceId, batch, nonBatch);
    } else {
      NonBatchAckStructure(s, s1, u, faceId, batch, nonBatch);
    }
  }

  lemma LostStructure(s: Commit, s1: Commit, u: FibUpdate, faceId: FaceId, batch: seq<FibUpdate>,
                      nonBatch: seq<FibUpdate>)
    requires ProperLists(faceId, batch, nonBatch) && Structure(s, faceId, batch, nonBatch) && TakenOut(s, s1, u)
    ensures Structure(OnFaceNotFound(s1, u), faceId, batch, nonBatch)
  {
  }

  lemma ThrowStructure(s: Commit, fib: Fib, faceId: FaceId, batch: seq<FibUpdate>, nonBatch: seq<FibUpdate>)
    requires Structure(s, faceId, batch, nonBatch)
    ensures Structure(s.(fib := fib, threw := true), faceId, batch, nonBatch)
  {
  }

  // ---------------------------------------------------------------- send counts

  /** How often each update has been sent; while the batch face has unacknowledged
      updates, nothing was sent for another face. */
  ghost predicate SendCounts(s: Commit) {
    && (forall i :: 0 <= i < |s.inFlight| ==>
          s.inFlight[i].nTimeouts <= MAX_NUM_TIMEOUTS && s.sent[s.inFlight[i].update] == s.inFlight[i].nTimeouts + 1)
    && (forall u :: s.sent[u] <= MAX_NUM_TIMEOUTS + 1)
    && (s.batch != [] ==> forall u :: u in s.sent ==> u.faceId == s.batchFaceId)
  }

  lemma {:induction false} UniqueCounts(us: seq<FibUpdate>, u: FibUpdate)
    requires UniqueKeys(us)
    ensures multiset(us)[u] == if u in us then 1 else 0
  {
    if us != [] {
      var init, last := us[..|us| - 1], us[|us| - 1];
      assert us == init + [last];
      UniqueCounts(init, u);
    }
  }

  lemma FirstSendCounts(s: Commit, us: seq<FibUpdate>)
    requires UniqueKeys(us) && s.inFlight == FirstAttempts(us) && s.sent == multiset(us)
    requires s.batch != [] ==> forall u :: u in us ==> u.faceId == s.batchFaceId
    ensures SendCounts(s)
  {
    forall u ensures s.sent[u] == if u in us then 1 else 0 {
      UniqueCounts(us, u);
    }
    forall i | 0 <= i < |s.inFlight|
      ensures s.inFlight[i].nTimeouts <= MAX_NUM_TIMEOUTS && s.sent[s.inFlight[i].update] == s.inFlight[i].nTimeouts + 1
    {
      assert us[i] in us;
    }
  }

  lemma FreshSendCounts(s: Commit, us: seq<FibUpdate>)
    requires UniqueKeys(us) && s.inFlight == [] && s.sent == multiset{}
    requires s.batch != [] ==> forall u :: u in us ==> u.faceId == s.batchFaceId
    ensures SendCounts(SendUpdates(s, us))
  {
    assert [] + FirstAttempts(us) == FirstAttempts(us);
    assert multiset{} + multiset(us) == multiset(us);
    FirstSendCounts(SendUpdates(s, us), us);
  }

  lemma StartSendCounts(faceId: FaceId, batch: seq<FibUpdate>, nonBatch: seq<FibUpdate>, fib: Fib)
    requires ProperLists(faceId, batch, nonBatch)
    ensures SendCounts(Start(faceId, batch, nonBatch, fib))
  {
    var s := Commit(faceId, batch, nonBatch, [], fib, 0, 0, false, multiset{}, {}, {});
    if batch != [] {
      FreshSendCounts(s, batch);
    } else if nonBatch != [] {
      FreshSendCounts(s, nonBatch);
    }
  }

  /** The commands in flight other than the `i`-th. */
  function Others(s: Commit, i: nat): seq<Command>
    requires i < |s.inFlight|
  {
    s.inFlight[..i] + s.inFlight[i + 1..]
  }

  lemma OthersDiffer(s: Commit, i: nat, j: nat)
    requires OneCommandEach(s) && i < |s.inFlight| && j < |Others(s, i)|
    ensures var k := if j < i then j else j + 1;
            k < |s.inFlight| && Others(s, i)[j] == s.inFlight[k] && Others(s, i)[j].update != s.inFlight[i].update
  {
  }

  /** The four ways a response changes what is in flight: it throws, resends,
      takes one command away, or ends the first phase and sends the other list. */
  ghost predicate Shape(s: Commit, s': Commit, i: nat, nonBatch: seq<FibUpdate>)
    requires i < |s.inFlight|
  {
    var u := s.inFlight[i].update;
    && s'.batchFaceId == s.batchFaceId && (s'.batch != [] ==> s'.nonBatch == nonBatch)
    && ( || (s'.threw && s'.inFlight == s.inFlight && s'.sent == s.sent && s'.retried == s.retried &&
        s'.batch == s.batch)
         || (&& !s'.threw && s.inFlight[i].nTimeouts < MAX_NUM_TIMEOUTS
             && s'.inFlight == Others(s, i) + [Command(u, AddNextHop, s.inFlight[i].nTimeouts + 1)]
             && s'.sent == s.sent + multiset{u} && s'.retried == s.retried + {u} && s'.batch == s.batch)
         || (!s'.threw && s'.inFlight == Others(s, i) && s'.sent == s.sent && s'.retried == s.retried &&
             (s'.batch != [] ==> s.batch != []))
         || (&& !s'.threw && Others(s, i) == [] && s.batch != [] && s'.batch == []
             && s'.inFlight == FirstAttempts(nonBatch)
             && s'.sent == s.sent + multiset(nonBatch) && s'.retried == s.retried))
  }

  lemma RespondShape(s: Commit, i: nat, resp: Response, faceId: FaceId, batch: seq<FibUpdate>, nonBatch: seq<FibUpdate>)
    requires ProperLists(faceId, batch, nonBatch) && Structure(s, faceId, batch, nonBatch) && Enabled(s, i)
    ensures Shape(s, Respond(s, i, resp), i, nonBatch)
  {
    var u := s.inFlight[i].update;
    var s1 := s.(inFlight := Others(s, i));
    OneTakenOut(s, s1, i);
    PhaseOfFlying(s, u, faceId, batch, nonBatch);
    if resp.Done? && u.faceId == faceId && Drop(s.batch, u) == [] {
      LastBatchAck(s, s1, u, faceId, batch, nonBatch);
      assert [] + FirstAttempts(nonBatch) == FirstAttempts(nonBatch);
    }
  }

  /** A command in flight belongs to the list of the current phase. */
  lemma PhaseOfFlying(s: Commit, u: FibUpdate, faceId: FaceId, batch: seq<FibUpdate>, nonBatch: seq<FibUpdate>)
    requires ProperLists(faceId, batch, nonBatch) && Structure(s, faceId, batch, nonBatch) && Flying(s, u)
    ensures u.faceId == faceId <==> s.batch != []
    ensures s.batch != [] ==> s.nonBatch == nonBatch
  {
  }

  lemma ResendCounts(s: Commit, s': Commit, i: nat)
    requires i < |s.inFlight| && OneCommandEach(s) && SendCounts(s)
    requires s'.batchFaceId == s.batchFaceId && s'.batch == s.batch
    requires s.inFlight[i].nTimeouts < MAX_NUM_TIMEOUTS
    requires s'.inFlight == Others(s, i) + [Command(s.inFlight[i].update, AddNextHop, s.inFlight[i].nTimeouts + 1)]
    requires s'.sent == s.sent + multiset{s.inFlight[i].update}
    ensures SendCounts(s')
  {
  }

  lemma AckCounts(s: Commit, s': Commit, i: nat)
    requires i < |s.inFlight| && OneCommandEach(s) && SendCounts(s)
    requires s'.batchFaceId == s.batchFaceId && (s'.batch != [] ==> s.batch != [])
    requires s'.inFlight == Others(s, i) && s'.sent == s.sent
    ensures SendCounts(s')
  {
  }

  lemma PhaseCounts(s: Commit, s': Commit, nonBatch: seq<FibUpdate>)
    requires SendCounts(s) && s.batch != []
    requires UniqueKeys(nonBatch) && forall u :: u in nonBatch ==> u.faceId != s.batchFaceId
    requires s'.batchFaceId == s.batchFaceId && s'.batch == []
    requires s'.inFlight == FirstAttempts(nonBatch) && s'.sent == s.sent + multiset(nonBatch)
    ensures SendCounts(s')
  {
    forall u ensures s'.sent[u] == s.sent[u] + (if u in nonBatch then 1 else 0) {
      UniqueCounts(nonBatch, u);
    }
    forall u ensures s'.sent[u] <= MAX_NUM_TIMEOUTS + 1 {
      assert u in nonBatch ==> u !in s.sent;
    }
    forall j | 0 <= j < |s'.inFlight|
      ensures s'.inFlight[j].nTimeouts <= MAX_NUM_TIMEOUTS &&
          s'.sent[s'.inFlight[j].update] == s'.inFlight[j].nTimeouts + 1
    {
      assert nonBatch[j] in nonBatch && nonBatch[j] !in s.sent;
    }
  }

  lemma ShapeSendCounts(s: Commit, s': Commit, i: nat, nonBatch: seq<FibUpdate>)
    requires i < |s.inFlight| && Shape(s, s', i, nonBatch)
    requires OneCommandEach(s) && SendCounts(s)
    requires UniqueKeys(nonBatch) && forall u :: u in nonBatch ==> u.faceId != s.batchFaceId
    ensures SendCounts(s')
  {
    if s'.threw {
    } else if s'.inFlight == Others(s, i) && s'.sent == s.sent && (s'.batch != [] ==> s.batch != []) {
      AckCounts(s, s', i);
    } else if s.batch != [] && s'.batch == [] {
      PhaseCounts(s, s', nonBatch);
    } else {
      ResendCounts(s, s', i);
    }
  }

  // ------------------------------------------------------------------ FIB content

  ghost predicate Listed(batch: seq<FibUpdate>, nonBatch: seq<FibUpdate>, u: FibUpdate) {
    u in batch || u in nonBatch
  }

  /** What an acknowledged update has left in the FIB. */
  function Final(s: Commit, u: FibUpdate): Option<nat> {
    if u.action == AddNextHop || u in s.retried then Some(u.cost) else None
  }

  ghost predicate Acked(s: Commit, u: FibUpdate) { u !in s.batch && u !in s.nonBatch }

  ghost predicate FibProgress(s: Commit, fib: Fib, batch: seq<FibUpdate>, nonBatch: seq<FibUpdate>) {
    && Kinds(s, batch, nonBatch)
    && (forall u :: Listed(batch, nonBatch, u) && Acked(s, u) && u !in s.missing ==>
                      Lookup(s.fib, u.name, u.faceId) == Final(s, u))
    && (forall n, f :: (forall u :: Listed(batch, nonBatch, u) ==> !HasKey(u, n, f)) ==>
                         Lookup(s.fib, n, f) == Lookup(fib, n, f))
  }

  lemma FlyingListed(s: Commit, i: nat, faceId: FaceId, batch: seq<FibUpdate>, nonBatch: seq<FibUpdate>)
    requires Structure(s, faceId, batch, nonBatch) && i < |s.inFlight|
    ensures Listed(batch, nonBatch, s.inFlight[i].update) && !Acked(s, s.inFlight[i].update)
  {
  }

  /** How a response to the command for `u` touches the FIB and the acknowledged updates. */
  ghost predicate FibStep(s: Commit, s': Commit, c: Command, resp: Response) {
    && s'.fib == (if resp.Done? || (resp.Timeout? && resp.executed) then Execute(s.fib, c.update, c.kind) else s.fib)
    && s'.missing == (if resp.FaceNotFound? then s.missing + {c.update} else s.missing)
    && (s'.retried == s.retried || (resp.Timeout? && s'.retried == s.retried + {c.update}))
    && (forall v :: v != c.update ==> (Acked(s', v) <==> Acked(s, v)))
    && (resp.Timeout? || resp.OtherError? ==> !Acked(s', c.update))
  }

  /** Acknowledging `u` leaves the FIB and the other updates as they are. */
  lemma AckTouches(s: Commit, u: FibUpdate)
    ensures forall s' :: s' == OnUpdateSuccess(s, u) || s' == OnFaceNotFound(s, u) ==>
              && s'.fib == s.fib && s'.missing == s.missing && s'.retried == s.retried
              && forall v :: v != u ==> (Acked(s', v) <==> Acked(s, v))
  {
  }

  lemma RespondFibStep(s: Commit, i: nat, resp: Response)
    requires Enabled(s, i) && !Acked(s, s.inFlight[i].update)
    ensures FibStep(s, Respond(s, i, resp), s.inFlight[i], resp)
  {
    var c := s.inFlight[i];
    var s1 := s.(inFlight := s.inFlight[..i] + s.inFlight[i + 1..]);
    AckTouches(s1.(fib := Execute(s.fib, c.update, c.kind)), c.update);
    AckTouches(s1.(missing := s.missing + {c.update}), c.update);
  }

  lemma FibStepProgress(s: Commit, s': Commit, c: Command, resp: Response, fib: Fib,
                        faceId: FaceId, batch: seq<FibUpdate>, nonBatch: seq<FibUpdate>)
    requires ProperLists(faceId, batch, nonBatch) && FibStep(s, s', c, resp)
    requires FibProgress(s, fib, batch, nonBatch) && Listed(batch, nonBatch, c.update)
    requires c.kind == (if c.update in s.retried then AddNextHop else c.update.action)
    requires Kinds(s', batch, nonBatch)
    ensures FibProgress(s', fib, batch, nonBatch)
  {
  }

  lemma RespondFibProgress(s: Commit, i: nat, resp: Response, fib: Fib,
                           faceId: FaceId, batch: seq<FibUpdate>, nonBatch: seq<FibUpdate>)
    requires ProperLists(faceId, batch, nonBatch)
    requires Structure(s, faceId, batch, nonBatch) && SendCounts(s) && Enabled(s, i)
    requires FibProgress(s, fib, batch, nonBatch)
    ensures FibProgress(Respond(s, i, resp), fib, batch, nonBatch)
  {
    var s' := Respond(s, i, resp);
    FlyingListed(s, i, faceId, batch, nonBatch);
    RespondShape(s, i, resp, faceId, batch, nonBatch);
    RespondFibStep(s, i, resp);
    ShapeKinds(s, s', i, batch, nonBatch);
    FibStepProgress(s, s', s.inFlight[i], resp, fib, faceId, batch, nonBatch);
  }

  ghost predicate Kinds(s: Commit, batch: seq<FibUpdate>, nonBatch: seq<FibUpdate>) {
    && (forall i :: 0 <= i < |s.inFlight| ==>
          s.inFlight[i].kind ==
          (if s.inFlight[i].update in s.retried then AddNextHop else s.inFlight[i].update.action))
    && (forall u :: u in s.retried ==> Listed(batch, nonBatch, u) && s.sent[u] > 0)
  }

  lemma ShapeKinds(s: Commit, s': Commit, i: nat, batch: seq<FibUpdate>, nonBatch: seq<FibUpdate>)
    requires i < |s.inFlight| && Shape(s, s', i, nonBatch)
    requires OneCommandEach(s) && SendCounts(s) && Kinds(s, batch, nonBatch)
    requires Listed(batch, nonBatch, s.inFlight[i].update)
    requires forall u :: u in nonBatch ==> u.faceId != s.batchFaceId
    ensures Kinds(s', batch, nonBatch)
  {
    forall j | 0 <= j < |Others(s, i)|
      ensures Others(s, i)[j] in s.inFlight && Others(s, i)[j].update != s.inFlight[i].update
    {
      OthersDiffer(s, i, j);
    }
    assert forall j :: 0 <= j < |nonBatch| ==> nonBatch[j] in nonBatch;
    assert s.batch != [] ==> forall u :: u in nonBatch ==> u !in s.sent;
  }

  // ---------------------------------------------------------------------- measure

  function Remaining(cs: seq<Command>): nat {
    if cs == [] then 0
    else
      var c := cs[|cs| - 1];
      Remaining(cs[..|cs| - 1]) +
      (if c.nTimeouts <= MAX_NUM_TIMEOUTS then MAX_NUM_TIMEOUTS + 1 - c.nTimeouts else 0)
  }

  /** Attempts left: those of the commands in flight and of the updates not yet sent. */
  function AttemptsLeft(s: Commit): nat {
    if s.threw then 0
    else Remaining(s.inFlight) + (if s.batch != [] then (MAX_NUM_TIMEOUTS + 1) * |s.nonBatch| else 0)
  }

  lemma {:induction false} RemainingAppend(a: seq<Command>, b: seq<Command>)
    ensures Remaining(a + b) == Remaining(a) + Remaining(b)
  {
    if b == [] {
      assert a + b == a;
    } else {
      assert (a + b)[..|a + b| - 1] == a + b[..|b| - 1];
      RemainingAppend(a, b[..|b| - 1]);
    }
  }

  lemma {:induction false} RemainingFresh(us: seq<FibUpdate>)
    ensures Remaining(FirstAttempts(us)) == (MAX_NUM_TIMEOUTS + 1) * |us|
  {
    if us != [] {
      RemainingFresh(us[..|us| - 1]);
      assert FirstAttempts(us)[..|us| - 1] == FirstAttempts(us[..|us| - 1]);
    }
  }

  lemma RemainingOne(c: Command)
    ensures Remaining([c]) == if c.nTimeouts <= MAX_NUM_TIMEOUTS then MAX_NUM_TIMEOUTS + 1 - c.nTimeouts else 0
  {
  }

  lemma RemainingOthers(s: Commit, i: nat)
    requires i < |s.inFlight| && s.inFlight[i].nTimeouts <= MAX_NUM_TIMEOUTS
    ensures Remaining(s.inFlight) == Remaining(Others(s, i)) + MAX_NUM_TIMEOUTS + 1 - s.inFlight[i].nTimeouts
  {
    var a, b := s.inFlight[..i], s.inFlight[i + 1..];
    assert s.inFlight == a + ([s.inFlight[i]] + b);
    RemainingAppend(a, [s.inFlight[i]] + b);
    RemainingAppend([s.inFlight[i]], b);
    RemainingAppend(a, b);
    RemainingOne(s.inFlight[i]);
  }

  /** Every response uses up an attempt. */
  lemma ShapeDecreases(s: Commit, s': Commit, i: nat, nonBatch: seq<FibUpdate>)
    requires Enabled(s, i) && Shape(s, s', i, nonBatch)
    requires s.inFlight[i].nTimeouts <= MAX_NUM_TIMEOUTS
    requires s.batch != [] ==> s.nonBatch == nonBatch
    ensures AttemptsLeft(s') < AttemptsLeft(s)
  {
    var retry := Command(s.inFlight[i].update, AddNextHop, s.inFlight[i].nTimeouts + 1);
    RemainingOthers(s, i);
    RemainingAppend(Others(s, i), [retry]);
    RemainingOne(retry);
    RemainingFresh(nonBatch);
  }

  // -------------------------------------------------------------------- whole runs

  ghost predicate Invariant(s: Commit, fib: Fib, faceId: FaceId, batch: seq<FibUpdate>, nonBatch: seq<FibUpdate>) {
    Structure(s, faceId, batch, nonBatch) && SendCounts(s) && FibProgress(s, fib, batch, nonBatch)
  }

  /** Responses of a run that answered a command. */
  function Answered(s: Commit, rs: seq<(nat, Response)>): nat {
    if rs == [] then 0
    else Answered(s, rs[..|rs| - 1]) + (if Enabled(Run(s, rs[..|rs| - 1]), rs[|rs| - 1].0) then 1 else 0)
  }

  lemma StartAttempts(fib: Fib, faceId: FaceId, batch: seq<FibUpdate>, nonBatch: seq<FibUpdate>)
    ensures AttemptsLeft(Start(faceId, batch, nonBatch, fib)) == (MAX_NUM_TIMEOUTS + 1) * (|batch| + |nonBatch|)
  {
    RemainingFresh(batch);
    RemainingFresh(nonBatch);
    assert [] + FirstAttempts(batch) == FirstAttempts(batch) && [] + FirstAttempts(nonBatch) == FirstAttempts(nonBatch);
  }

  lemma StartFibProgress(fib: Fib, faceId: FaceId, batch: seq<FibUpdate>, nonBatch: seq<FibUpdate>)
    ensures FibProgress(Start(faceId, batch, nonBatch, fib), fib, batch, nonBatch)
  {
  }

  lemma StartInvariant(fib: Fib, faceId: FaceId, batch: seq<FibUpdate>, nonBatch: seq<FibUpdate>)
    requires ProperLists(faceId, batch, nonBatch)
    ensures Invariant(Start(faceId, batch, nonBatch, fib), fib, faceId, batch, nonBatch)
  {
    StartStructure(faceId, batch, nonBatch, fib);
    StartSendCounts(faceId, batch, nonBatch, fib);
    StartFibProgress(fib, faceId, batch, nonBatch);
  }

  lemma {:induction false} RunInvariant(fib: Fib, faceId: FaceId, batch: seq<FibUpdate>, nonBatch: seq<FibUpdate>,
                                        rs: seq<(nat, Response)>)
    requires ProperLists(faceId, batch, nonBatch)
    ensures var s0 := Start(faceId, batch, nonBatch, fib);
            && Invariant(Run(s0, rs), fib, faceId, batch, nonBatch)
            && AttemptsLeft(Run(s0, rs)) + Answered(s0, rs) <= AttemptsLeft(s0)
  {
    StartInvariant(fib, faceId, batch, nonBatch);
    if rs != [] {
      var s0 := Start(faceId, batch, nonBatch, fib);
      RunInvariant(fib, faceId, batch, nonBatch, rs[..|rs| - 1]);
      var s := Run(s0, rs[..|rs| - 1]);
      var (i, resp) := rs[|rs| - 1];
      if Enabled(s, i) {
        RespondStructure(s, i, resp, faceId, batch, nonBatch);
        RespondShape(s, i, resp, faceId, batch, nonBatch);
        ShapeSendCounts(s, Respond(s, i, resp), i, nonBatch);
        RespondFibProgress(s, i, resp, fib, faceId, batch, nonBatch);
        ShapeDecreases(s, Respond(s, i, resp), i, nonBatch);
      }
    }
  }

  /** Safety in every interleaving. */
  lemma CommitSafety(fib: Fib, faceId: FaceId, batch: seq<FibUpdate>, nonBatch: seq<FibUpdate>,
                     rs: seq<(nat, Response)>)
    requires ProperLists(faceId, batch, nonBatch)
    ensures var s := Run(Start(faceId, batch, nonBatch, fib), rs);
            && s.nSuccess <= 1
            && !(s.nSuccess > 0 && s.nFailure > 0)
            && (s.nSuccess > 0 ==> s.batch == [] && s.nonBatch == [] && s.inFlight == [])
            && (s.batch != [] ==> forall u :: u in s.sent ==> u.faceId == faceId)
            && (forall u :: s.sent[u] <= 11)
  {
    RunInvariant(fib, faceId, batch, nonBatch, rs);
    var s := Run(Start(faceId, batch, nonBatch, fib), rs);
    if s.nSuccess > 0 {
      NothingFlying(s);
    }
  }

  /** No run answers more than eleven commands per update, and a run with nothing
      left in flight has succeeded, failed or thrown. */
  lemma CommitTermination(fib: Fib, faceId: FaceId, batch: seq<FibUpdate>, nonBatch: seq<FibUpdate>,
                          rs: seq<(nat, Response)>)
    requires ProperLists(faceId, batch, nonBatch)
    ensures var s0 := Start(faceId, batch, nonBatch, fib);
            var s := Run(s0, rs);
            && Answered(s0, rs) <= 11 * (|batch| + |nonBatch|)
            && (s.inFlight == [] ==> s.threw || s.nSuccess == 1 || s.nFailure > 0)
  {
    StartAttempts(fib, faceId, batch, nonBatch);
    RunInvariant(fib, faceId, batch, nonBatch, rs);
    var s := Run(Start(faceId, batch, nonBatch, fib), rs);
    if s.inFlight == [] {
      QuietStructure(s, faceId, batch, nonBatch);
    }
  }

  lemma QuietStructure(s: Commit, faceId: FaceId, batch: seq<FibUpdate>, nonBatch: seq<FibUpdate>)
    requires Structure(s, faceId, batch, nonBatch) && s.inFlight == []
    ensures s.nSuccess == 1 || s.nFailure > 0
  {
    assert s.batch == [] || s.batch[0] in s.batch;
    assert s.nonBatch == [] || s.nonBatch[0] in s.nonBatch;
    assert forall u :: !Flying(s, u);
  }

  /** The update pending for a pair in the two lists together. */
  function PendingIn(faceId: FaceId, batch: seq<FibUpdate>, nonBatch: seq<FibUpdate>, n: Name, f: FaceId): Op {
    PendingOp(if f == faceId then batch else nonBatch, n, f)
  }

  lemma PendingListed(faceId: FaceId, batch: seq<FibUpdate>, nonBatch: seq<FibUpdate>, u: FibUpdate)
    requires ProperLists(faceId, batch, nonBatch) && Listed(batch, nonBatch, u)
    ensures PendingIn(faceId, batch, nonBatch, u.name, u.faceId) == ToOp(u)
  {
    var us := if u.faceId == faceId then batch else nonBatch;
    var i :| 0 <= i < |us| && us[i] == u;
    PendingOpAt(us, i);
  }

  /** No update of the pair was answered with a missing face. */
  ghost predicate FaceFound(s: Commit, n: Name, f: FaceId) {
    forall u :: u in s.missing ==> !HasKey(u, n, f)
  }

  /** A REMOVE of the pair timed out at least once. */
  ghost predicate RemoveRetried(s: Commit, n: Name, f: FaceId) {
    exists u :: u in s.retried && HasKey(u, n, f) && u.action == RemoveNextHop
  }

  /** When `onSuccess` is called, the FIB holds for a pair whose face was not reported
      missing what applying the lists one after the other gives, if and only if no
      REMOVE of the pair timed out. */
  lemma CommitContent(fib: Fib, faceId: FaceId, batch: seq<FibUpdate>, nonBatch: seq<FibUpdate>,
                      rs: seq<(nat, Response)>, n: Name, f: FaceId)
    requires ProperLists(faceId, batch, nonBatch)
    requires var s := Run(Start(faceId, batch, nonBatch, fib), rs); s.nSuccess > 0 && FaceFound(s, n, f)
    ensures var s := Run(Start(faceId, batch, nonBatch, fib), rs);
            Lookup(s.fib, n, f) == Effect(Lookup(fib, n, f), PendingIn(faceId, batch, nonBatch, n, f))
            <==> !RemoveRetried(s, n, f)
  {
    var s := Run(Start(faceId, batch, nonBatch, fib), rs);
    RunInvariant(fib, faceId, batch, nonBatch, rs);
    CommitSafety(fib, faceId, batch, nonBatch, rs);
    FinishedContent(s, fib, faceId, batch, nonBatch, n, f);
  }

  lemma FinishedContent(s: Commit, fib: Fib, faceId: FaceId, batch: seq<FibUpdate>, nonBatch: seq<FibUpdate>, n: Name,
                        f: FaceId)
    requires ProperLists(faceId, batch, nonBatch) && FibProgress(s, fib, batch, nonBatch)
    requires s.batch == [] && s.nonBatch == [] && FaceFound(s, n, f)
    ensures Lookup(s.fib, n, f) == Effect(Lookup(fib, n, f), PendingIn(faceId, batch, nonBatch, n, f))
            <==> !RemoveRetried(s, n, f)
  {
    if u :| Listed(batch, nonBatch, u) && HasKey(u, n, f) {
      assert Acked(s, u) && u !in s.missing;
      PendingListed(faceId, batch, nonBatch, u);
      forall v | v in s.retried && HasKey(v, n, f) ensures v == u {
        PendingListed(faceId, batch, nonBatch, v);
        OneListed(faceId, batch, nonBatch, u, v);
      }
    } else {
      var us := if f == faceId then batch else nonBatch;
      assert forall i :: 0 <= i < |us| ==> us[i] in us && Listed(batch, nonBatch, us[i]);
      PendingOpAbsent(us, n, f);
    }
  }

  lemma OneListed(faceId: FaceId, batch: seq<FibUpdate>, nonBatch: seq<FibUpdate>, u: FibUpdate, v: FibUpdate)
    requires ProperLists(faceId, batch, nonBatch)
    requires Listed(batch, nonBatch, u) && Listed(batch, nonBatch, v) && HasKey(v, u.name, u.faceId)
    ensures u == v
  {
    var us := if u.faceId == faceId then batch else nonBatch;
    var i :| 0 <= i < |us| && us[i] == u;
    var j :| 0 <= j < |us| && us[j] == v;
  }

  /** A REMOVE whose first attempt times out is installed instead of removed: the
      retry adds the next hop, at the cost of the removal update. */
  lemma RemoveTimeoutInstalls(fib: Fib, u: FibUpdate, f: FaceId)
    requires u.action == RemoveNextHop && f != u.faceId && Lookup(fib, u.name, u.faceId).Some?
    ensures var s := Run(Start(f, [], [u], fib), [(0, Timeout(true)), (0, Done)]);
            s.nSuccess == 1 && Lookup(s.fib, u.name, u.faceId) == Some(u.cost)
  {
  }

  // ---------------------------------------------------------------------- failures

  /** The updates of the batch face whose face was reported missing. */
  function BatchMissing(s: Commit): set<FibUpdate> { set u | u in s.missing && u.faceId == s.batchFaceId }

  ghost predicate FailureCounts(s: Commit, batch: seq<FibUpdate>) {
    && s.nFailure == |BatchMissing(s)|
    && (forall u :: u in BatchMissing(s) ==> u in batch)
    && (forall u :: Flying(s, u) ==> u !in BatchMissing(s))
  }

  lemma RespondMissing(s: Commit, i: nat, resp: Response)
    requires Enabled(s, i)
    ensures var s', u := Respond(s, i, resp), s.inFlight[i].update;
            && s'.batchFaceId == s.batchFaceId
            && s'.missing == (if resp.FaceNotFound? then s.missing + {u} else s.missing)
            && s'.nFailure == s.nFailure + (if resp.FaceNotFound? && u.faceId == s.batchFaceId then 1 else 0)
  {
  }

  lemma RespondFailures(s: Commit, i: nat, resp: Response, faceId: FaceId, batch: seq<FibUpdate>,
                        nonBatch: seq<FibUpdate>)
    requires ProperLists(faceId, batch, nonBatch)
    requires Structure(s, faceId, batch, nonBatch) && Enabled(s, i) && FailureCounts(s, batch)
    ensures FailureCounts(Respond(s, i, resp), batch)
  {
    var s', u := Respond(s, i, resp), s.inFlight[i].update;
    FlyingListed(s, i, faceId, batch, nonBatch);
    RespondMissing(s, i, resp);
    forall v | Flying(s', v) ensures v !in BatchMissing(s') {
      RespondFlying(s, i, resp, faceId, batch, nonBatch, v);
    }
    MissingGrows(s, s', u, faceId, batch, nonBatch, resp.FaceNotFound? && u.faceId == faceId);
  }

  lemma MissingGrows(s: Commit, s': Commit, u: FibUpdate, faceId: FaceId, batch: seq<FibUpdate>,
                     nonBatch: seq<FibUpdate>, lost: bool)
    requires ProperLists(faceId, batch, nonBatch) && FailureCounts(s, batch)
    requires Flying(s, u) && Listed(batch, nonBatch, u) && s.batchFaceId == s'.batchFaceId == faceId
    requires forall v :: Flying(s', v) ==> v !in BatchMissing(s')
    requires s'.nFailure == s.nFailure + (if lost then 1 else 0)
    requires if lost then s'.missing == s.missing + {u} && u.faceId == faceId
             else s'.missing == s.missing || (s'.missing == s.missing + {u} && u.faceId != faceId)
    ensures FailureCounts(s', batch)
  {
    assert BatchMissing(s') == if lost then BatchMissing(s) + {u} else BatchMissing(s);
  }

  /** What flies after a response flew before, unless the second phase began; a
      command that found no face does not fly again. */
  lemma RespondFlying(s: Commit, i: nat, resp: Response, faceId: FaceId, batch: seq<FibUpdate>,
                      nonBatch: seq<FibUpdate>, v: FibUpdate)
    requires ProperLists(faceId, batch, nonBatch)
    requires Structure(s, faceId, batch, nonBatch) && Enabled(s, i) && Flying(Respond(s, i, resp), v)
    ensures v in nonBatch || (Flying(s, v) && (resp.FaceNotFound? ==> v != s.inFlight[i].update))
  {
    var s' := Respond(s, i, resp);
    RespondShape(s, i, resp, faceId, batch, nonBatch);
    var j :| 0 <= j < |s'.inFlight| && s'.inFlight[j].update == v;
    assert Flying(s, s.inFlight[i].update);
    if s'.inFlight == FirstAttempts(nonBatch) {
      assert nonBatch[j] in nonBatch;
    } else if s'.inFlight != s.inFlight && j < |Others(s, i)| {
      OthersDiffer(s, i, j);
      assert s'.inFlight[j] == Others(s, i)[j];
    }
  }

  /** `onFailure` is called exactly once for every update of the batch face whose face
      is reported missing, in every interleaving. */
  lemma {:induction false} FailureCount(fib: Fib, faceId: FaceId, batch: seq<FibUpdate>, nonBatch: seq<FibUpdate>,
                                        rs: seq<(nat, Response)>)
    requires ProperLists(faceId, batch, nonBatch)
    ensures var s := Run(Start(faceId, batch, nonBatch, fib), rs);
            FailureCounts(s, batch) && s.nFailure <= |batch|
  {
    var s0 := Start(faceId, batch, nonBatch, fib);
    if rs != [] {
      FailureCount(fib, faceId, batch, nonBatch, rs[..|rs| - 1]);
      RunInvariant(fib, faceId, batch, nonBatch, rs[..|rs| - 1]);
      var s := Run(s0, rs[..|rs| - 1]);
      if Enabled(s, rs[|rs| - 1].0) {
        RespondFailures(s, rs[|rs| - 1].0, rs[|rs| - 1].1, faceId, batch, nonBatch);
      }
    } else {
      assert BatchMissing(s0) == {};
    }
    MembersBound(BatchMissing(Run(s0, rs)), batch);
  }

  lemma {:induction false} MembersBound(us: set<FibUpdate>, l: seq<FibUpdate>)
    requires forall u :: u in us ==> u in l
    ensures |us| <= |l|
  {
    if l != [] {
      var init, last := l[..|l| - 1], l[|l| - 1];
      assert forall u :: u in l <==> u in init || u == last;
      MembersBound(us - {last}, init);
      assert us <= us - {last} + {last};
    }
  }

  /** While the batch face has unacknowledged updates, the FIB of the other faces is as it was. */
  ghost predicate OthersKept(s: Commit, fib: Fib) {
    s.batch != [] ==> forall n, f :: f != s.batchFaceId ==> Lookup(s.fib, n, f) == Lookup(fib, n, f)
  }

  lemma RespondOthersKept(s: Commit, i: nat, resp: Response, fib: Fib,
                          faceId: FaceId, batch: seq<FibUpdate>, nonBatch: seq<FibUpdate>)
    requires ProperLists(faceId, batch, nonBatch)
    requires Structure(s, faceId, batch, nonBatch) && Enabled(s, i) && OthersKept(s, fib)
    ensures OthersKept(Respond(s, i, resp), fib)
  {
    FlyingListed(s, i, faceId, batch, nonBatch);
    RespondFibStep(s, i, resp);
    RespondShape(s, i, resp, faceId, batch, nonBatch);
    assert Flying(s, s.inFlight[i].update);
    PhaseOfFlying(s, s.inFlight[i].update, faceId, batch, nonBatch);
  }

  lemma {:induction false} RunOthersKept(fib: Fib, faceId: FaceId, batch: seq<FibUpdate>, nonBatch: seq<FibUpdate>,
                                         rs: seq<(nat, Response)>)
    requires ProperLists(faceId, batch, nonBatch)
    ensures OthersKept(Run(Start(faceId, batch, nonBatch, fib), rs), fib)
  {
    if rs != [] {
      RunOthersKept(fib, faceId, batch, nonBatch, rs[..|rs| - 1]);
      RunInvariant(fib, faceId, batch, nonBatch, rs[..|rs| - 1]);
      var s := Run(Start(faceId, batch, nonBatch, fib), rs[..|rs| - 1]);
      if Enabled(s, rs[|rs| - 1].0) {
        RespondOthersKept(s, rs[|rs| - 1].0, rs[|rs| - 1].1, fib, faceId, batch, nonBatch);
      }
    }
  }

  /** Once `onFailure` has been called, the FIB holds for every face but the batch face,
      and for every pair without an update, what it held before the batch. */
  lemma FailureContent(fib: Fib, faceId: FaceId, batch: seq<FibUpdate>, nonBatch: seq<FibUpdate>,
                       rs: seq<(nat, Response)>, n: Name, f: FaceId)
    requires ProperLists(faceId, batch, nonBatch)
    requires Run(Start(faceId, batch, nonBatch, fib), rs).nFailure > 0
    requires f != faceId || PendingIn(faceId, batch, nonBatch, n, f) == Keep
    ensures Lookup(Run(Start(faceId, batch, nonBatch, fib), rs).fib, n, f) == Lookup(fib, n, f)
  {
    RunInvariant(fib, faceId, batch, nonBatch, rs);
    RunOthersKept(fib, faceId, batch, nonBatch, rs);
    if f == faceId {
      forall u | Listed(batch, nonBatch, u) ensures !HasKey(u, n, f) {
        PendingListed(faceId, batch, nonBatch, u);
      }
    }
  }

  /** Two updates of a missing batch face fail twice. */
  lemma FailureMayRepeat(fib: Fib, faceId: FaceId, batch: seq<FibUpdate>, nonBatch: seq<FibUpdate>)
    requires ProperLists(faceId, batch, nonBatch) && |batch| >= 2
    ensures Run(Start(faceId, batch, nonBatch, fib), [(0, FaceNotFound), (0, FaceNotFound)]).nFailure == 2
  {
    var s0 := Start(faceId, batch, nonBatch, fib);
    var rs: seq<(nat, Response)> := [(0, FaceNotFound), (0, FaceNotFound)];
    assert s0.inFlight == FirstAttempts(batch) by { assert [] + FirstAttempts(batch) == FirstAttempts(batch); }
    assert batch[0] in batch && batch[1] in batch;
    assert rs[..1][..0] == [];
    var s1 := Respond(s0, 0, FaceNotFound);
    assert Run(s0, rs[..1]) == s1;
    assert s1.inFlight == FirstAttempts(batch)[1..];
    assert s1.inFlight[0] == Command(batch[1], batch[1].action, 0);
    assert Run(s0, rs) == Respond(s1, 0, FaceNotFound);
  }

  /** `onFailure` is called at most once, whatever the responses, if and only if the
      batch face has at most one update. */
  lemma FailureOnce(fib: Fib, faceId: FaceId, batch: seq<FibUpdate>, nonBatch: seq<FibUpdate>)
    requires ProperLists(faceId, batch, nonBatch)
    ensures (forall rs :: Run(Start(faceId, batch, nonBatch, fib), rs).nFailure <= 1) <==> |batch| <= 1
  {
    if |batch| <= 1 {
      forall rs ensures Run(Start(faceId, batch, nonBatch, fib), rs).nFailure <= 1 {
        FailureCount(fib, faceId, batch, nonBatch, rs);
      }
    } else {
      assert batch[0] in batch && batch[1] in batch;
      FailureMayRepeat(fib, faceId, batch, nonBatch);
    }
  }

  // ------------------------------------------------------------------ the callbacks

  /** The sending half of `FibUpdater`; the outbox stands for the controller. The
      fields after `nFailure` only record what has happened. */
  class FibSender {
    var batchFaceId: FaceId
    var updatesForBatchFaceId: seq<FibUpdate>
    var updatesForNonBatchFaceId: seq<FibUpdate>
    var outbox: seq<Command>
    var nSuccess: nat
    var nFailure: nat
    var threw: bool
    ghost var sent: multiset<FibUpdate>
    ghost var retried: set<FibUpdate>

    /** The state seen as a `Commit`, over a given FIB and set of missing faces. */
    ghost function View(fib: Fib, missing: set<FibUpdate>): Commit
      reads this
    {
      Commit(batchFaceId, updatesForBatchFaceId, updatesForNonBatchFaceId, outbox, fib,
             nSuccess, nFailure, threw, sent, retried, missing)
    }

    constructor (faceId: FaceId, batch: seq<FibUpdate>, nonBatch: seq<FibUpdate>)
      ensures forall fib :: View(fib, {}) == Start(faceId, batch, nonBatch, fib)
    {
      batchFaceId := faceId;
      updatesForBatchFaceId, updatesForNonBatchFaceId := batch, nonBatch;
      outbox, nSuccess, nFailure, threw := [], 0, 0, false;
      sent, retried := multiset{}, {};
      new;
      SendForBatchFaceId();
    }

    method Send(u: FibUpdate)
      modifies this`outbox, this`sent
      ensures outbox == old(outbox) + [Command(u, u.action, 0)] && sent == old(sent) + multiset{u}
    {
      outbox, sent := outbox + [Command(u, u.action, 0)], sent + multiset{u};
    }

    /** `sendUpdates` */
    method SendAll(us: seq<FibUpdate>)
      modifies this`outbox, this`sent
      ensures outbox == old(outbox) + FirstAttempts(us) && sent == old(sent) + multiset(us)
    {
      for i := 0 to |us|
        invariant outbox == old(outbox) + FirstAttempts(us[..i]) && sent == old(sent) + multiset(us[..i])
      {
        assert us[..i + 1] == us[..i] + [us[i]];
        Send(us[i]);
      }
      assert us[..|us|] == us;
    }

    method SendForBatchFaceId()
      modifies this
      ensures forall fib, m :: View(fib, m) == SendUpdatesForBatchFaceId(old(View(fib, m)))
    {
      if |updatesForBatchFaceId| > 0 {
        SendAll(updatesForBatchFaceId);
      } else {
        SendForNonBatchFaceId();
      }
    }

    method SendForNonBatchFaceId()
      modifies this
      ensures forall fib, m :: View(fib, m) == SendUpdatesForNonBatchFaceId(old(View(fib, m)))
    {
      if |updatesForNonBatchFaceId| > 0 {
        SendAll(updatesForNonBatchFaceId);
      } else {
        nSuccess := nSuccess + 1;
      }
    }

    /** `onUpdateSuccess` */
    method OnSuccess(u: FibUpdate)
      modifies this
      ensures forall fib, m :: View(fib, m) == OnUpdateSuccess(old(View(fib, m)), u)
    {
      if u.faceId == batchFaceId {
        updatesForBatchFaceId := Drop(updatesForBatchFaceId, u);
        if |updatesForBatchFaceId| == 0 {
          SendForNonBatchFaceId();
        }
      } else {
        updatesForNonBatchFaceId := Drop(updatesForNonBatchFaceId, u);
        if |updatesForNonBatchFaceId| == 0 {
          nSuccess := nSuccess + 1;
        }
      }
    }

    /** `onUpdateError` */
    method OnError(u: FibUpdate, code: Response, nTimeouts: nat)
      requires !code.Done?
      modifies this
      ensures forall fib, m :: View(fib, m) ==
                (if code.Timeout? && nTimeouts < 10 then Resend(old(View(fib, m)), u, nTimeouts + 1)
                 else if code.FaceNotFound? then OnFaceNotFound(old(View(fib, m)), u)
                 else old(View(fib, m)).(threw := true))
    {
      if code.Timeout? && nTimeouts < MAX_NUM_TIMEOUTS {
        outbox := outbox + [Command(u, AddNextHop, nTimeouts + 1)];
        sent, retried := sent + multiset{u}, retried + {u};
      } else if code.FaceNotFound? {
        if u.faceId == batchFaceId {
          nFailure := nFailure + 1;
        } else {
          updatesForNonBatchFaceId := Drop(updatesForNonBatchFaceId, u);
          if |updatesForNonBatchFaceId| == 0 {
            nSuccess := nSuccess + 1;
          }
        }
      } else {
        threw := true;
      }
    }

    /** The response to the `i`-th command arrives. */
    method Receive(i: nat, resp: Response, ghost fib: Fib, ghost missing: set<FibUpdate>)
      requires Enabled(View(fib, missing), i)
      modifies this
      ensures var s' := Respond(old(View(fib, missing)), i, resp); View(s'.fib, s'.missing) == s'
    {
      var c := outbox[i];
      ghost var s := View(fib, missing);
      ghost var s' := Respond(s, i, resp);
      if resp.OtherError? || (resp.Timeout? && c.nTimeouts >= MAX_NUM_TIMEOUTS) {
        OnError(c.update, resp, c.nTimeouts);
      } else {
        outbox := outbox[..i] + outbox[i + 1..];
        ghost var s1 := s.(inFlight := outbox, fib := s'.fib, missing := s'.missing);
        assert View(s'.fib, s'.missing) == s1;
        if resp.Done? {
          OnSuccess(c.update);
          assert View(s'.fib, s'.missing) == OnUpdateSuccess(s1, c.update);
        } else {
          OnError(c.update, resp, c.nTimeouts);
        }
      }
    }
  }
}
